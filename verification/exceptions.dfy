/**
 Summarising a failed run (`parse_exception`): the text from the first
 `<Word>Error:` match of the captured output to the end of its line, followed
 by the first `line <digits>` reference in parentheses when there is one, or
 just `Exception` when there is no such match at all.
 */
module Exceptions {
  import opened Text

  /**
   `\w+Error:` matches at `p`: a non-empty run of word characters starting at
   `p` is directly followed by `Error:`. (The run may itself contain `Error`,
   as in `FooErrorError:`; backtracking lets `\w+` stop at any point of it.)
   */
  predicate ErrorTokenAt(s: string, p: nat)
    decreases |s| - p
  {
    p < |s| && IsWordChar(s[p]) && (OccursAt(s, p + 1, "Error:") || ErrorTokenAt(s, p + 1))
  }

  /** The same pattern, with the length `k` of the `\w+` part made explicit. */
  predicate ErrorTokenWith(s: string, p: nat, k: nat) {
    && 1 <= k
    && p + k + 6 <= |s|
    && (forall i :: p <= i < p + k ==> IsWordChar(s[i]))
    && OccursAt(s, p + k, "Error:")
  }

  /** The recursive reading of `\w+Error:` agrees with the explicit one. */
  lemma {:induction false} ErrorTokenAtWitness(s: string, p: nat)
    ensures ErrorTokenAt(s, p) <==> exists k: nat :: ErrorTokenWith(s, p, k)
    decreases |s| - p
  {
    if ErrorTokenAt(s, p) {
      if OccursAt(s, p + 1, "Error:") {
        assert ErrorTokenWith(s, p, 1);
      } else {
        ErrorTokenAtWitness(s, p + 1);
        var k: nat :| ErrorTokenWith(s, p + 1, k);
        assert ErrorTokenWith(s, p, k + 1);
      }
    }
    if exists k: nat :: ErrorTokenWith(s, p, k) {
      var k: nat :| ErrorTokenWith(s, p, k);
      if k > 1 {
        assert ErrorTokenWith(s, p + 1, k - 1);
        ErrorTokenAtWitness(s, p + 1);
      }
    }
  }

  /** `p` is where `re.search(r'\w+Error:.*', s)` reports its match. */
  predicate FirstErrorAt(s: string, p: nat) {
    ErrorTokenAt(s, p) && forall q: nat :: q < p ==> !ErrorTokenAt(s, q)
  }

  /** The pattern `line \d+` matches at `p`. */
  predicate LineRefAt(s: string, p: nat) {
    OccursAt(s, p, "line ") && p + 5 < |s| && IsDigit(s[p + 5])
  }

  /** `p` is where `re.search(r'line \d+', s)` reports its match. */
  predicate FirstLineRefAt(s: string, p: nat) {
    LineRefAt(s, p) && forall q: nat :: q < p ==> !LineRefAt(s, q)
  }

  /** The end of `line \d+` at `p`: `\d+` takes every digit that follows. */
  function LineRefEnd(s: string, p: nat): (e: nat)
    requires LineRefAt(s, p)
    ensures p + 6 <= e <= |s|
    ensures forall i :: p + 5 <= i < e ==> IsDigit(s[i])
    ensures e == |s| || !IsDigit(s[e])
  {
    SkipWhile(s, p + 5, IsDigit)
  }

  /** The error token reaches at least past `Error:` and stops at the end of the line. */
  lemma ErrorTokenExtent(s: string, p: nat)
    requires ErrorTokenAt(s, p)
    ensures exists k: nat :: ErrorTokenWith(s, p, k) && p + k + 6 <= LineEnd(s, p)
  {
    ErrorTokenAtWitness(s, p);
    var k: nat :| ErrorTokenWith(s, p, k);
    forall i | p <= i < p + k + 6
      ensures s[i] != '\n'
    {
      if i >= p + k {
        assert s[p + k..p + k + 6][i - p - k] == "Error:"[i - p - k];
      }
    }
  }

  /** Where `re.search(r'\w+Error:.*', msg)` finds its match, if anywhere. */
  function FirstError(msg: string): (r: Option<nat>)
    ensures r.None? ==> (forall p: nat :: !ErrorTokenAt(msg, p))
    ensures r.Some? ==> FirstErrorAt(msg, r.value)
  {
    var f := (p: nat) => ErrorTokenAt(msg, p);
    assert forall q: nat :: f(q) == ErrorTokenAt(msg, q);
    assert forall q: nat :: ErrorTokenAt(msg, q) ==> q < |msg|;
    Leftmost(f, 0, |msg|)
  }

  /** Where `re.search(r'line \d+', msg)` finds its match, if anywhere. */
  function FirstLineRef(msg: string): (r: Option<nat>)
    ensures r.None? ==> (forall p: nat :: !LineRefAt(msg, p))
    ensures r.Some? ==> FirstLineRefAt(msg, r.value)
  {
    var f := (p: nat) => LineRefAt(msg, p);
    assert forall q: nat :: f(q) == LineRefAt(msg, q);
    assert forall q: nat :: LineRefAt(msg, q) ==> q < |msg|;
    Leftmost(f, 0, |msg|)
  }

  /**
   The text `m.group()` of `re.search(r'\w+Error:.*', msg)`: from the leftmost
   match to the end of its line.
   */
  function ErrorToken(msg: string): (r: Option<string>)
    ensures r.None? ==> (forall p: nat :: !ErrorTokenAt(msg, p))
    ensures r.Some? ==> exists p: nat :: ErrorTokenAt(msg, p)
    ensures forall p: nat :: FirstErrorAt(msg, p) ==> r == Some(msg[p..LineEnd(msg, p)])
  {
    match FirstError(msg)
    case None => None
    case Some(p) => Some(msg[p..LineEnd(msg, p)])
  }

  /** The text `m.group()` of `re.search(r'line \d+', msg)`. */
  function LineRef(msg: string): (r: Option<string>)
    ensures r.None? ==> (forall p: nat :: !LineRefAt(msg, p))
    ensures r.Some? ==> exists p: nat :: LineRefAt(msg, p)
    ensures forall p: nat :: FirstLineRefAt(msg, p) ==> r == Some(msg[p..LineRefEnd(msg, p)])
  {
    match FirstLineRef(msg)
    case None => None
    case Some(p) => Some(msg[p..LineRefEnd(msg, p)])
  }

  /** `parse_exception(exception_message)`. */
  function ParseException(msg: string): (r: string)
    ensures (forall p: nat :: !ErrorTokenAt(msg, p)) ==> r == "Exception"
    ensures forall p: nat :: FirstErrorAt(msg, p) && (forall q: nat :: !LineRefAt(msg, q)) ==>
      r == msg[p..LineEnd(msg, p)]
    ensures forall p: nat, q: nat :: FirstErrorAt(msg, p) && FirstLineRefAt(msg, q) ==>
      r == msg[p..LineEnd(msg, p)] + " (" + msg[q..LineRefEnd(msg, q)] + ")"
  {
    match ErrorToken(msg)
    case None => "Exception"
    case Some(err) =>
      match LineRef(msg)
      case None => err
      case Some(at) => err + " (" + at + ")"
  }

  /** The text matched at an error position starts with a word character, holds `Error:` and no newline. */
  lemma TokenShapeAt(s: string, p: nat)
    requires ErrorTokenAt(s, p)
    ensures var t := s[p..LineEnd(s, p)];
      && |t| > 0 && IsWordChar(t[0])
      && OneLine(t)
      && exists k: nat :: OccursAt(t, k, "Error:")
  {
    var e := LineEnd(s, p);
    var t := s[p..e];
    ErrorTokenExtent(s, p);
    var k: nat :| ErrorTokenWith(s, p, k) && p + k + 6 <= e;
    assert t[k..k + 6] == s[p + k..p + k + 6];
    assert OccursAt(t, k, "Error:");
  }

  /**
   The error token found in a message starts with a word character, holds
   `Error:` and no newline.
   */
  lemma ErrorTokenShape(msg: string)
    requires ErrorToken(msg).Some?
    ensures var t := ErrorToken(msg).value;
      && |t| > 0 && IsWordChar(t[0])
      && OneLine(t)
      && exists k: nat :: OccursAt(t, k, "Error:")
  {
    TokenShapeAt(msg, FirstError(msg).value);
  }

  /** The summary is never empty. */
  lemma SummaryNotEmpty(msg: string)
    ensures |ParseException(msg)| > 0
  {
    if ErrorToken(msg).Some? {
      ErrorTokenShape(msg);
    }
  }

  /**
   The summary is exactly `Exception` if and only if the message holds no
   `<Word>Error:` at all: a found token always contains a `:`, which
   `Exception` does not.
   */
  lemma SummaryIsExceptionIffNoError(msg: string)
    ensures (forall p: nat :: !ErrorTokenAt(msg, p)) ==> ParseException(msg) == "Exception"
    ensures ParseException(msg) == "Exception" ==> (forall p: nat :: !ErrorTokenAt(msg, p))
  {
    if FirstError(msg).Some? {
      FoundTokenIsNotException(msg);
      var v: nat := FirstError(msg).value;
      assert ErrorTokenAt(msg, v);
      assert !(forall p: nat :: !ErrorTokenAt(msg, p));
    } else {
      NoTokenIsException(msg);
    }
  }

  lemma NoTokenIsException(msg: string)
    requires FirstError(msg).None?
    ensures ParseException(msg) == "Exception"
  {
  }

  /** A summary built from a found token carries the token's `:`. */
  lemma FoundTokenIsNotException(msg: string)
    requires FirstError(msg).Some?
    ensures ParseException(msg) != "Exception"
  {
    var t := ErrorToken(msg).value;
    ErrorTokenShape(msg);
    var k: nat :| OccursAt(t, k, "Error:");
    assert t[k + 5] == ':' by {
      assert t[k..k + 6][5] == "Error:"[5];
    }
    var r := ParseException(msg);
    assert r[..|t|] == t;
    ColonIsNotException(r, k + 5);
  }

  lemma ColonIsNotException(r: string, i: nat)
    requires i < |r| && r[i] == ':'
    ensures r != "Exception"
  {
    assert ':' !in "Exception";
  }

  /** The header `line <digits>` and its newline hold no error position. */
  lemma NoErrorInHeader(digits: string, tail: string, p: nat)
    requires forall i :: 0 <= i < |digits| ==> IsDigit(digits[i])
    requires p < 6 + |digits|
    ensures !ErrorTokenAt("line " + digits + "\n" + tail, p)
  {
    var head := "line " + digits + "\n";
    var msg := head + tail;
    forall k: nat
      ensures !ErrorTokenWith(msg, p, k)
    {
      if 1 <= k && p + k + 6 <= |msg| {
        if p + k < |head| {
          assert msg[p + k] == head[p + k];
          if p + k < 5 {
            assert head[p + k] == "line "[p + k];
          } else if p + k < |head| - 1 {
            assert head[p + k] == digits[p + k - 5];
          }
          assert msg[p + k..p + k + 6][0] != "Error:"[0];
        } else {
          assert msg[|head| - 1] == '\n';
          assert !IsWordChar(msg[|head| - 1]);
        }
      }
    }
    ErrorTokenAtWitness(msg, p);
  }

  /** In such a message the error line is the first error position and runs to the end. */
  lemma TracebackError(digits: string, kind: string, text: string)
    requires forall i :: 0 <= i < |digits| ==> IsDigit(digits[i])
    requires |kind| > 0 && AllWordChars(kind)
    requires OneLine(text)
    ensures var msg := "line " + digits + "\n" + (kind + "Error: " + text);
      FirstErrorAt(msg, 6 + |digits|) && LineEnd(msg, 6 + |digits|) == |msg|
  {
    var head := "line " + digits + "\n";
    var tail := kind + "Error: " + text;
    var msg := head + tail;
    forall p: nat | p < |head|
      ensures !ErrorTokenAt(msg, p)
    {
      NoErrorInHeader(digits, tail, p);
    }
    assert ErrorTokenWith(msg, |head|, |kind|) by {
      forall i | |head| <= i < |head| + |kind|
        ensures IsWordChar(msg[i])
      {
        assert msg[i] == kind[i - |head|];
      }
      assert msg[|head| + |kind|..|head| + |kind| + 6] == "Error: "[..6];
    }
    ErrorTokenAtWitness(msg, |head|);
    forall i | |head| <= i < |msg|
      ensures msg[i] != '\n'
    {
      assert msg[i] == tail[i - |head|];
      if i - |head| < |kind| {
        assert tail[i - |head|] == kind[i - |head|];
      } else if i - |head| < |kind| + 7 {
        assert tail[i - |head|] == "Error: "[i - |head| - |kind|];
      } else {
        assert tail[i - |head|] == text[i - |head| - |kind| - 7];
      }
    }
  }

  /** In such a message the header is the first `line <digits>` and spans the digits. */
  lemma TracebackLineRef(digits: string, tail: string)
    requires |digits| > 0 && forall i :: 0 <= i < |digits| ==> IsDigit(digits[i])
    ensures var msg := "line " + digits + "\n" + tail;
      FirstLineRefAt(msg, 0) && LineRefEnd(msg, 0) == 5 + |digits|
  {
    var msg := "line " + digits + "\n" + tail;
    assert msg[0..5] == "line ";
    assert msg[5] == digits[0];
    forall i | 5 <= i < 5 + |digits|
      ensures IsDigit(msg[i])
    {
      assert msg[i] == digits[i - 5];
    }
    assert msg[5 + |digits|] == '\n';
  }

  /**
   A failure reported as `line <n>` followed by a `<Kind>Error: <text>` line
   is summarised as `<Kind>Error: <text> (line <n>)`.
   */
  lemma TracebackSummary(digits: string, kind: string, text: string)
    requires |digits| > 0 && forall i :: 0 <= i < |digits| ==> IsDigit(digits[i])
    requires |kind| > 0 && AllWordChars(kind)
    requires OneLine(text)
    ensures ParseException("line " + digits + "\n" + kind + "Error: " + text)
      == kind + "Error: " + text + " (line " + digits + ")"
  {
    var head := "line " + digits + "\n";
    var tail := kind + "Error: " + text;
    var msg := head + tail;
    assert msg == "line " + digits + "\n" + kind + "Error: " + text;
    TracebackError(digits, kind, text);
    TracebackLineRef(digits, tail);
    assert msg[|head|..|msg|] == tail;
    assert msg[0..5 + |digits|] == "line " + digits;
    var r := ParseException(msg);
    assert r == msg[|head|..LineEnd(msg, |head|)] + " (" + msg[0..LineRefEnd(msg, 0)] + ")";
    assert r == tail + " (" + ("line " + digits) + ")";
    SummaryText(kind, text, digits);
  }

  lemma SummaryText(kind: string, text: string, digits: string)
    ensures (kind + "Error: " + text) + " (" + ("line " + digits) + ")"
      == kind + "Error: " + text + " (line " + digits + ")"
  {
    assert " (" + ("line " + digits) == " (line " + digits;
  }

  /** A division by zero reported at line 3: the summary names both the error and the line. */
  lemma ZeroDivisionSummary()
    ensures ParseException("line 3\nZeroDivisionError: division by zero")
      == "ZeroDivisionError: division by zero (line 3)"
  {
    TracebackSummary("3", "ZeroDivision", "division by zero");
    ZeroDivisionText();
  }

  lemma ZeroDivisionText()
    ensures "line " + "3" + "\n" + "ZeroDivision" + "Error: " + "division by zero"
      == "line 3\nZeroDivisionError: division by zero"
    ensures "ZeroDivision" + "Error: " + "division by zero" + " (line " + "3" + ")"
      == "ZeroDivisionError: division by zero (line 3)"
  {
  }
}
