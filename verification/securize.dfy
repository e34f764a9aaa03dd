/**
 Disabling imports in a submitted script (`securize_code`): every line in which
 the word `import` occurs is turned into a comment by a leading `#`.
 */
module Securize {
  import opened Text
  import opened Lines

  /**
   The pattern `\bimport\b` matches at `p`: the six letters `import` with no
   word character immediately before or after them.
   */
  predicate ImportWordAt(line: string, p: nat) {
    && OccursAt(line, p, "import")
    && (p == 0 || !IsWordChar(line[p - 1]))
    && (p + 6 == |line| || !IsWordChar(line[p + 6]))
  }

  /** `re.search(r'\bimport\b', line)` succeeds. */
  predicate HasImportWord(line: string) {
    exists p | 0 <= p < |line| :: ImportWordAt(line, p)
  }

  /** The line as it appears in the securized script. */
  function SecurizeLine(line: string): string
  {
    if HasImportWord(line) then "#" + line else line
  }

  /** Securizing each line of a sequence of lines. */
  function SecurizeAll(lines: seq<string>): (r: seq<string>)
    ensures |r| == |lines|
    ensures forall i :: 0 <= i < |r| ==> r[i] == SecurizeLine(lines[i])
  {
    seq(|lines|, i requires 0 <= i < |lines| => SecurizeLine(lines[i]))
  }

  /** `securize_code(code)`: split on newlines, securize each line, join again. */
  function SecurizeCode(code: string): string
  {
    Join(SecurizeAll(Split(code, '\n')), '\n')
  }

  /** A leading `#` neither hides nor creates a word-bounded `import`. */
  lemma HashKeepsImportWord(line: string)
    ensures HasImportWord("#" + line) <==> HasImportWord(line)
  {
    var h := "#" + line;
    if HasImportWord(line) {
      var p :| 0 <= p < |line| && ImportWordAt(line, p);
      assert h[p + 1..p + 7] == line[p..p + 6];
      assert ImportWordAt(h, p + 1);
    }
    if HasImportWord(h) {
      var p :| 0 <= p < |h| && ImportWordAt(h, p);
      assert p != 0 by {
        assert h[0] == '#';
        assert h[p] == h[p..p + 6][0] == "import"[0];
      }
      assert line[p - 1..p + 5] == h[p..p + 6];
      assert ImportWordAt(line, p - 1);
    }
  }

  /** Securizing a line never introduces a newline. */
  lemma SecurizeLineNoNewline(line: string)
    requires OneLine(line)
    ensures OneLine(SecurizeLine(line))
  {
  }

  /**
   The securized script has exactly as many lines as the original, and its
   i-th line is the i-th original line, prefixed with `#` exactly when that
   line holds the word `import`.
   */
  lemma SecurizeLineByLine(code: string)
    ensures var before := Split(code, '\n');
      var after := Split(SecurizeCode(code), '\n');
      && |after| == |before|
      && forall i :: 0 <= i < |after| ==>
           after[i] == (if HasImportWord(before[i]) then "#" + before[i] else before[i])
  {
    var before := Split(code, '\n');
    var lines := SecurizeAll(before);
    forall i | 0 <= i < |lines|
      ensures OneLine(lines[i])
    {
      SecurizeLineNoNewline(before[i]);
    }
    SplitJoin(lines, '\n');
  }

  /**
   After securizing, every line that still mentions the word `import` is a
   comment: it starts with `#`.
   */
  lemma SecurizedImportsAreComments(code: string)
    ensures var after := Split(SecurizeCode(code), '\n');
      forall i :: 0 <= i < |after| && HasImportWord(after[i]) ==>
        |after[i]| > 0 && after[i][0] == '#'
  {
    var before := Split(code, '\n');
    var after := Split(SecurizeCode(code), '\n');
    SecurizeLineByLine(code);
    forall i | 0 <= i < |after| && HasImportWord(after[i])
      ensures |after[i]| > 0 && after[i][0] == '#'
    {
      if HasImportWord(before[i]) {
        assert after[i] == "#" + before[i];
      }
    }
  }

  /**
   Securizing is not idempotent: a second pass comments an already disabled
   import line once more.
   */
  lemma SecurizeTwiceAddsAnotherHash(line: string)
    requires HasImportWord(line)
    ensures SecurizeLine(SecurizeLine(line)) == "##" + line
  {
    HashKeepsImportWord(line);
  }

  /** A script of one line is securized as that line. */
  lemma SecurizeOneLine(line: string)
    requires OneLine(line)
    ensures SecurizeCode(line) == SecurizeLine(line)
  {
    SplitWithoutSeparator(line, '\n');
    assert SecurizeAll([line]) == [SecurizeLine(line)];
  }

  /** A one-line script with an import gains one more `#` on every pass. */
  lemma SecurizeImportScript(line: string)
    requires OneLine(line) && HasImportWord(line)
    ensures SecurizeCode(line) == "#" + line
    ensures SecurizeCode("#" + line) == "##" + line
  {
    SecurizeOneLine(line);
    SecurizeTwiceAddsAnotherHash(line);
    SecurizeOneLine("#" + line);
  }

  /** A concrete script on which a second pass changes the text. */
  lemma SecurizeNotIdempotent()
    ensures SecurizeCode("import x") == "#import x"
    ensures SecurizeCode(SecurizeCode("import x")) == "##import x"
  {
    var s := "import x";
    assert ImportWordAt(s, 0);
    SecurizeImportScript(s);
    HashedExample();
  }

  /** The example script with one and with two leading `#`, spelled out. */
  lemma HashedExample()
    ensures "#" + "import x" == "#import x"
    ensures "##" + "import x" == "##import x"
  {
  }
}
