/**
 Python's `str.split(sep)` and `sep.join(parts)` for a one-character
 separator, with the round trips between them.
 */
module Lines {

  /**
   `s.split(sep)`: the maximal separator-free pieces between separators.
   There is always at least one piece (`"".split("\n") == [""]`).
   */
  function Split(s: string, sep: char): (r: seq<string>)
    ensures |r| == multiset(s)[sep] + 1
    ensures forall i :: 0 <= i < |r| ==> sep !in r[i]
    decreases |s|
  {
    if |s| == 0 then [""]
    else
      assert s == [s[0]] + s[1..];
      var rest := Split(s[1..], sep);
      if s[0] == sep then [""] + rest
      else [[s[0]] + rest[0]] + rest[1..]
  }

  /** `sep.join(parts)`: the pieces with one separator between neighbours. */
  function Join(parts: seq<string>, sep: char): string
  {
    if |parts| == 0 then ""
    else if |parts| == 1 then parts[0]
    else parts[0] + [sep] + Join(parts[1..], sep)
  }

  /** Splitting text that has no separator gives the text itself. */
  lemma {:induction false} SplitWithoutSeparator(s: string, sep: char)
    requires sep !in s
    ensures Split(s, sep) == [s]
    decreases |s|
  {
    if |s| > 0 {
      assert sep !in s[1..] by {
        assert forall i :: 0 <= i < |s| - 1 ==> s[1..][i] == s[i + 1];
      }
      SplitWithoutSeparator(s[1..], sep);
      assert s == [s[0]] + s[1..];
    }
  }

  /** A separator cuts the split in two: the pieces before it, then the pieces after it. */
  lemma {:induction false} SplitAppend(a: string, b: string, sep: char)
    ensures Split(a + [sep] + b, sep) == Split(a, sep) + Split(b, sep)
    decreases |a|
  {
    var s := a + [sep] + b;
    if |a| == 0 {
      assert s == [sep] + b;
      assert s[1..] == b;
    } else {
      assert s[1..] == a[1..] + [sep] + b;
      assert s[0] == a[0];
      SplitAppend(a[1..], b, sep);
    }
  }

  /** Joining after putting one more character in front of the first piece. */
  lemma JoinConsChar(c: char, parts: seq<string>, sep: char)
    requires |parts| > 0
    ensures Join([[c] + parts[0]] + parts[1..], sep) == [c] + Join(parts, sep)
  {
    var q := [[c] + parts[0]] + parts[1..];
    if |parts| > 1 {
      assert q[1..] == parts[1..];
    }
  }

  /** Joining what was split gives back the text. */
  lemma {:induction false} JoinSplit(s: string, sep: char)
    ensures Join(Split(s, sep), sep) == s
    decreases |s|
  {
    if |s| > 0 {
      var rest := Split(s[1..], sep);
      JoinSplit(s[1..], sep);
      assert s == [s[0]] + s[1..];
      if s[0] == sep {
        assert ([""] + rest)[1..] == rest;
      } else {
        JoinConsChar(s[0], rest, sep);
      }
    }
  }

  /** Splitting what was joined gives back the pieces, when no piece holds the separator. */
  lemma {:induction false} SplitJoin(parts: seq<string>, sep: char)
    requires |parts| > 0
    requires forall i :: 0 <= i < |parts| ==> sep !in parts[i]
    ensures Split(Join(parts, sep), sep) == parts
    decreases |parts|
  {
    SplitWithoutSeparator(parts[0], sep);
    if |parts| > 1 {
      SplitJoin(parts[1..], sep);
      SplitAppend(parts[0], Join(parts[1..], sep), sep);
      assert parts == [parts[0]] + parts[1..];
    }
  }

  /** The last piece of `s.split(sep)`, as Python's `[-1]` selects it. */
  function LastPiece(s: string, sep: char): string
  {
    var pieces := Split(s, sep);
    pieces[|pieces| - 1]
  }

  /** The last piece of a text, in terms of the last piece of the text without its first character. */
  lemma LastPieceCons(s: string, sep: char)
    requires |s| > 0
    ensures var rest := Split(s[1..], sep);
      if s[0] == sep || |rest| > 1 then LastPiece(s, sep) == LastPiece(s[1..], sep)
      else LastPiece(s, sep) == [s[0]] + LastPiece(s[1..], sep)
  {
  }

  /** A tail of `s[1..]` is a tail of `s`, with the same character before it. */
  lemma TailOfRest(s: string, t: string)
    requires |s| > 0 && |t| < |s|
    requires s[1..][|s| - 1 - |t|..] == t
    ensures s[|s| - |t|..] == t
    ensures |t| < |s| - 1 ==> s[|s| - |t| - 1] == s[1..][|s| - 1 - |t| - 1]
  {
  }

  /**
   The last piece is the separator-free tail of the text: it ends the text and
   is preceded by a separator unless it is the whole text.
   */
  lemma {:induction false} LastPieceIsTail(s: string, sep: char)
    ensures var t := LastPiece(s, sep);
      && sep !in t
      && |t| <= |s|
      && s[|s| - |t|..] == t
      && (|t| == |s| || s[|s| - |t| - 1] == sep)
    decreases |s|
  {
    if |s| > 0 {
      var u := s[1..];
      LastPieceCons(s, sep);
      var tu := LastPiece(u, sep);
      if sep in u {
        LastPieceIsTail(u, sep);
        assert |tu| < |u|;
        TailOfRest(s, tu);
      } else {
        SplitWithoutSeparator(u, sep);
        assert tu == u;
        assert s == [s[0]] + u;
      }
    }
  }
}
