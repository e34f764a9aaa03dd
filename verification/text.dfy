/**
 Character classes, leftmost search and small string helpers shared by the
 models of the grading harness.

 The character classes follow Python's `re` module and `str` methods, with
 one simplification: word characters and digits are the ASCII ones.
 */
module Text {

  datatype Option<+T> = None | Some(value: T)

  /** `\w` restricted to ASCII: letters, digits and underscore. */
  predicate IsWordChar(c: char) {
    ('a' <= c <= 'z') || ('A' <= c <= 'Z') || ('0' <= c <= '9') || c == '_'
  }

  /** `\d` restricted to ASCII. */
  predicate IsDigit(c: char) {
    '0' <= c <= '9'
  }

  /** Python's `str.isspace()`, which is also what `\s` and `str.strip()` use. */
  predicate IsSpace(c: char) {
    ('\t' <= c <= '\r') || ('\U{1C}' <= c <= '\U{1F}') || c == ' '
    || c == '\U{85}' || c == '\U{A0}' || c == '\U{1680}'
    || ('\U{2000}' <= c <= '\U{200A}') || c == '\U{2028}' || c == '\U{2029}'
    || c == '\U{202F}' || c == '\U{205F}' || c == '\U{3000}'
  }

  /** The literal blank of the pattern ` *`. */
  predicate IsBlank(c: char) {
    c == ' '
  }

  /** Any character that `.` matches: everything but a newline. */
  predicate NotNewline(c: char) {
    c != '\n'
  }

  /** Text that stays on one line: it holds no newline. */
  predicate OneLine(s: string) {
    '\n' !in s
  }

  predicate AllWordChars(s: string) {
    forall i :: 0 <= i < |s| ==> IsWordChar(s[i])
  }

  /** The text `t` occurs in `s` starting at position `p`. */
  predicate OccursAt(s: string, p: nat, t: string) {
    p + |t| <= |s| && s[p..p + |t|] == t
  }

  /** The first index at or after `i` whose character fails `f` (or `|s|`). */
  function SkipWhile(s: string, i: nat, f: char -> bool): (j: nat)
    requires i <= |s|
    ensures i <= j <= |s|
    ensures forall k :: i <= k < j ==> f(s[k])
    ensures j == |s| || !f(s[j])
    decreases |s| - i
  {
    if i == |s| || !f(s[i]) then i else SkipWhile(s, i + 1, f)
  }

  /** Where the line holding position `i` ends: the next newline, or the end of `s`. */
  function LineEnd(s: string, i: nat): (j: nat)
    requires i <= |s|
    ensures i <= j <= |s|
    ensures forall k :: i <= k < j ==> s[k] != '\n'
    ensures j == |s| || s[j] == '\n'
  {
    SkipWhile(s, i, NotNewline)
  }

  /** Scanning `A + s` from inside `s` is scanning `s`, shifted by `|A|`. */
  lemma {:induction false} SkipWhileShift(a: string, s: string, i: nat, f: char -> bool)
    requires i <= |s|
    ensures SkipWhile(a + s, |a| + i, f) == |a| + SkipWhile(s, i, f)
    decreases |s| - i
  {
    assert (a + s)[|a| + i..] == s[i..];
    if i < |s| {
      assert (a + s)[|a| + i] == s[i];
      if f(s[i]) {
        SkipWhileShift(a, s, i + 1, f);
      }
    }
  }

  /**
   The leftmost position `p` in `[from, to)` with `f(p)`: the position a
   regular-expression search reports when `f(p)` says "a match starts at p".
   */
  function Leftmost(f: nat -> bool, from: nat, to: nat): (r: Option<nat>)
    ensures r.Some? ==> from <= r.value < to && f(r.value)
    ensures r.Some? ==> (forall q :: from <= q < r.value ==> !f(q))
    ensures r.None? ==> (forall q :: from <= q < to ==> !f(q))
    decreases if from < to then to - from else 0
  {
    if from >= to then None
    else if f(from) then Some(from)
    else Leftmost(f, from + 1, to)
  }

  /** Python's `str.strip()`: index of the first non-whitespace character. */
  function StripStart(s: string): (a: nat)
    ensures a <= |s|
    ensures forall i :: 0 <= i < a ==> IsSpace(s[i])
    ensures a == |s| || !IsSpace(s[a])
  {
    SkipWhile(s, 0, IsSpace)
  }

  /** One past the last non-whitespace character at or after `lo`, scanning down from `b`. */
  function TrimBack(s: string, lo: nat, b: nat): (e: nat)
    requires lo <= b <= |s|
    ensures lo <= e <= b
    ensures forall i :: e <= i < b ==> IsSpace(s[i])
    ensures e == lo || !IsSpace(s[e - 1])
    decreases b
  {
    if b == lo || !IsSpace(s[b - 1]) then b else TrimBack(s, lo, b - 1)
  }

  /** Python's `str.strip()`: end of the kept span. */
  function StripEnd(s: string): (b: nat)
    ensures StripStart(s) <= b <= |s|
    ensures forall i :: b <= i < |s| ==> IsSpace(s[i])
    ensures b == StripStart(s) || !IsSpace(s[b - 1])
  {
    TrimBack(s, StripStart(s), |s|)
  }

  /**
   Python's `str.strip()` with no argument: the text between the leading and
   the trailing whitespace runs.
   */
  function Strip(s: string): (r: string)
    ensures |r| <= |s|
    ensures r == s[StripStart(s)..StripEnd(s)]
    ensures |r| == 0 || (!IsSpace(r[0]) && !IsSpace(r[|r| - 1]))
    ensures (forall i :: 0 <= i < |s| ==> IsSpace(s[i])) <==> r == []
  {
    s[StripStart(s)..StripEnd(s)]
  }

  function DigitChar(d: nat): (c: char)
    requires d < 10
    ensures IsDigit(c)
  {
    "0123456789"[d]
  }

  function DigitValue(c: char): (d: nat)
    requires IsDigit(c)
    ensures d < 10
    ensures DigitChar(d) == c
  {
    (c as int - '0' as int) as nat
  }

  /** Decimal rendering of a natural number, as an f-string `{n}` prints it. */
  function Decimal(n: nat): (r: string)
    ensures |r| > 0
    ensures forall i :: 0 <= i < |r| ==> IsDigit(r[i])
    ensures |r| > 1 ==> r[0] != '0'
    decreases n
  {
    if n < 10 then [DigitChar(n)] else Decimal(n / 10) + [DigitChar(n % 10)]
  }

  /** Reads a string of decimal digits back as a number. */
  function ParseDecimal(s: string): nat
    requires forall i :: 0 <= i < |s| ==> IsDigit(s[i])
  {
    if |s| == 0 then 0 else ParseDecimal(s[..|s| - 1]) * 10 + DigitValue(s[|s| - 1])
  }

  /** Decimal rendering is injective: the digits read back as the number. */
  lemma {:induction false} DecimalRoundTrip(n: nat)
    ensures ParseDecimal(Decimal(n)) == n
    decreases n
  {
    var r := Decimal(n);
    if n < 10 {
      assert DigitValue(DigitChar(n)) == n by {
        assert "0123456789"[n] as int - '0' as int == n;
      }
    } else {
      DecimalRoundTrip(n / 10);
      assert r[..|r| - 1] == Decimal(n / 10);
      var d := n % 10;
      assert DigitValue(DigitChar(d)) == d by {
        assert "0123456789"[d] as int - '0' as int == d;
      }
    }
  }

  /** The elements of `xs` that satisfy `f`, in their original order. */
  function Filter<T(!new)>(xs: seq<T>, f: T -> bool): (r: seq<T>)
    ensures |r| <= |xs|
    ensures forall x :: multiset(r)[x] == if f(x) then multiset(xs)[x] else 0
    ensures forall i :: 0 <= i < |r| ==> f(r[i]) && r[i] in xs
  {
    if |xs| == 0 then []
    else
      assert xs == [xs[0]] + xs[1..];
      (if f(xs[0]) then [xs[0]] else []) + Filter(xs[1..], f)
  }

  /** Filtering a concatenation filters each part in turn. */
  lemma {:induction false} FilterAppend<T(!new)>(a: seq<T>, b: seq<T>, f: T -> bool)
    ensures Filter(a + b, f) == Filter(a, f) + Filter(b, f)
    decreases |a|
  {
    if |a| == 0 {
      assert a + b == b;
    } else {
      assert (a + b)[0] == a[0];
      assert (a + b)[1..] == a[1..] + b;
      FilterAppend(a[1..], b, f);
    }
  }

  /**
   Filtering keeps the original order: an element is kept exactly where it
   stood, after what is kept before it and before what is kept after it.
   */
  lemma FilterKeepsOrder<T(!new)>(a: seq<T>, x: T, b: seq<T>, f: T -> bool)
    ensures Filter(a + [x] + b, f) == Filter(a, f) + (if f(x) then [x] else []) + Filter(b, f)
  {
    var kept := if f(x) then [x] else [];
    assert Filter([x], f) == kept by {
      assert [x][1..] == [];
      assert Filter([x], f) == kept + Filter([], f);
    }
    FilterAppend(a + [x], b, f);
    FilterAppend(a, [x], f);
  }
}
