/**
 Pattern feedback on a submitted script (`get_runtime_feedback`).

 The feedback rules carry user-written regular expressions; they are not
 modelled character by character. A matcher `matches(regex, text)` stands for
 `re.search(regex, text)` succeeding, and every property here holds for any
 matcher.
 */
module Feedback {
  import opened Text
  import opened Lines

  /** One feedback item of the configuration: a pattern and the message that goes with it. */
  datatype Rule = Rule(regex: string, message: string)

  /**
   The `feedback` section of a test bench. A missing `expected` or
   `unexpected` key is the empty sequence.
   */
  datatype FeedbackConfig = FeedbackConfig(expected: seq<Rule>, unexpected: seq<Rule>)

  /**
   `re.match(r'^\s*#.*', line)`: after the leading white space, the line
   goes on with `#`.
   */
  predicate IsCommentLine(line: string) {
    var k := SkipWhile(line, 0, IsSpace);
    k < |line| && line[k] == '#'
  }

  /** A line that counts for unexpected rules: not a comment, and the pattern occurs in it. */
  predicate ActiveLine(line: string, regex: string, matches: (string, string) -> bool) {
    !IsCommentLine(line) && matches(regex, line)
  }

  /** Some line of the sequence counts for the pattern. */
  predicate AnyActiveLine(lines: seq<string>, regex: string, matches: (string, string) -> bool) {
    exists j :: 0 <= j < |lines| && ActiveLine(lines[j], regex, matches)
  }

  /** `not re.search(item['regex'], code)`: the test an expected rule fails. */
  function AbsentFrom(code: string, matches: (string, string) -> bool): Rule -> bool {
    (x: Rule) => !matches(x.regex, code)
  }

  /** `re.search(item['regex'], line)`: the test an unexpected rule passes on a line. */
  function PresentIn(line: string, matches: (string, string) -> bool): Rule -> bool {
    (x: Rule) => matches(x.regex, line)
  }

  /** The expected rules whose pattern occurs nowhere in the script, in configuration order. */
  function MissingExpected(code: string, expected: seq<Rule>, matches: (string, string) -> bool): (r: seq<Rule>)
    ensures |r| <= |expected|
    ensures forall x :: multiset(r)[x] == if matches(x.regex, code) then 0 else multiset(expected)[x]
    ensures forall i :: 0 <= i < |r| ==> r[i] in expected && !matches(r[i].regex, code)
  {
    Filter(expected, AbsentFrom(code, matches))
  }

  /** The unexpected rules one line raises: none for a comment line, else those whose pattern occurs in it. */
  function LineFlags(line: string, unexpected: seq<Rule>, matches: (string, string) -> bool): (r: seq<Rule>)
    ensures forall x :: multiset(r)[x] == if ActiveLine(line, x.regex, matches) then multiset(unexpected)[x] else 0
    ensures forall i :: 0 <= i < |r| ==> r[i] in unexpected && ActiveLine(line, r[i].regex, matches)
  {
    if IsCommentLine(line) then [] else Filter(unexpected, PresentIn(line, matches))
  }

  /**
   The missing expected rules keep their configuration order: a rule is
   reported between the rules listed before it and those listed after it.
   */
  lemma MissingExpectedKeepsOrder(code: string, before: seq<Rule>, x: Rule, after: seq<Rule>, matches: (string, string) -> bool)
    ensures MissingExpected(code, before + [x] + after, matches)
         == MissingExpected(code, before, matches)
          + (if matches(x.regex, code) then [] else [x])
          + MissingExpected(code, after, matches)
  {
    FilterKeepsOrder(before, x, after, AbsentFrom(code, matches));
  }

  /**
   On one line, the unexpected rules are flagged in configuration order: a
   rule is flagged between the rules listed before it and those listed after it.
   */
  lemma LineFlagsKeepOrder(line: string, before: seq<Rule>, x: Rule, after: seq<Rule>, matches: (string, string) -> bool)
    ensures LineFlags(line, before + [x] + after, matches)
         == LineFlags(line, before, matches)
          + (if ActiveLine(line, x.regex, matches) then [x] else [])
          + LineFlags(line, after, matches)
  {
    if !IsCommentLine(line) {
      FilterKeepsOrder(before, x, after, PresentIn(line, matches));
    }
  }

  /** The unexpected-rule flags of a sequence of lines, line after line. */
  function UnexpectedFlags(lines: seq<string>, unexpected: seq<Rule>, matches: (string, string) -> bool): seq<Rule>
  {
    if |lines| == 0 then []
    else LineFlags(lines[0], unexpected, matches) + UnexpectedFlags(lines[1..], unexpected, matches)
  }

  /**
   `get_runtime_feedback`: the missing expected rules, then one flag per
   unexpected rule and non-comment line in which its pattern occurs.
   */
  function RuntimeFeedback(code: string, cfg: FeedbackConfig, matches: (string, string) -> bool): seq<Rule>
  {
    MissingExpected(code, cfg.expected, matches) + UnexpectedFlags(Split(code, '\n'), cfg.unexpected, matches)
  }

  /** How many lines count for a pattern: the reference count of its flags. */
  function ActiveMatchCount(lines: seq<string>, regex: string, matches: (string, string) -> bool): nat
  {
    if |lines| == 0 then 0
    else (if ActiveLine(lines[0], regex, matches) then 1 else 0) + ActiveMatchCount(lines[1..], regex, matches)
  }

  /**
   A line is a comment exactly when some `#` in it is preceded by white
   space only.
   */
  lemma CommentLineShape(line: string)
    ensures IsCommentLine(line) <==>
      exists k :: 0 <= k < |line| && line[k] == '#' && forall j :: 0 <= j < k ==> IsSpace(line[j])
  {
    var k := SkipWhile(line, 0, IsSpace);
    if exists q :: 0 <= q < |line| && line[q] == '#' && forall j :: 0 <= j < q ==> IsSpace(line[j]) {
      var q :| 0 <= q < |line| && line[q] == '#' && forall j :: 0 <= j < q ==> IsSpace(line[j]);
      assert !IsSpace('#');
      assert k == q;
    }
  }

  /** The count of lines that count for a pattern is positive exactly when one of them does. */
  lemma {:induction false} ActiveMatchCountPositive(lines: seq<string>, regex: string, matches: (string, string) -> bool)
    ensures ActiveMatchCount(lines, regex, matches) > 0 <==>
      AnyActiveLine(lines, regex, matches)
  {
    if |lines| > 0 {
      ActiveMatchCountPositive(lines[1..], regex, matches);
      if AnyActiveLine(lines, regex, matches) {
        var j :| 0 <= j < |lines| && ActiveLine(lines[j], regex, matches);
        if j > 0 {
          assert lines[1..][j - 1] == lines[j];
        }
      }
      if exists j :: 0 <= j < |lines| - 1 && ActiveLine(lines[1..][j], regex, matches) {
        var j :| 0 <= j < |lines| - 1 && ActiveLine(lines[1..][j], regex, matches);
        assert lines[1..][j] == lines[j + 1];
      }
    }
  }

  /** The flags of two blocks of lines are the flags of the first block, then those of the second. */
  lemma {:induction false} UnexpectedFlagsAppend(a: seq<string>, b: seq<string>, unexpected: seq<Rule>, matches: (string, string) -> bool)
    ensures UnexpectedFlags(a + b, unexpected, matches)
         == UnexpectedFlags(a, unexpected, matches) + UnexpectedFlags(b, unexpected, matches)
    decreases |a|
  {
    if |a| > 0 {
      assert (a + b)[1..] == a[1..] + b;
      assert (a + b)[0] == a[0];
      UnexpectedFlagsAppend(a[1..], b, unexpected, matches);
    } else {
      assert a + b == b;
    }
  }

  /**
   An unexpected rule is flagged once for every line that counts for its
   pattern, and as many times again as it is listed.
   */
  lemma {:induction false} UnexpectedFlagsCount(lines: seq<string>, unexpected: seq<Rule>, matches: (string, string) -> bool, x: Rule)
    ensures multiset(UnexpectedFlags(lines, unexpected, matches))[x]
         == multiset(unexpected)[x] * ActiveMatchCount(lines, x.regex, matches)
  {
    if |lines| > 0 {
      UnexpectedFlagsCount(lines[1..], unexpected, matches, x);
      var head := LineFlags(lines[0], unexpected, matches);
      var rest := UnexpectedFlags(lines[1..], unexpected, matches);
      assert multiset(head + rest) == multiset(head) + multiset(rest);
      var n := multiset(unexpected)[x];
      var a := if ActiveLine(lines[0], x.regex, matches) then 1 else 0;
      assert multiset(head)[x] == n * a;
      var c := ActiveMatchCount(lines[1..], x.regex, matches);
      assert UnexpectedFlags(lines, unexpected, matches) == head + rest;
      assert ActiveMatchCount(lines, x.regex, matches) == a + c;
      assert multiset(rest)[x] == n * c;
      Distribute(n, a, c);
    } else {
      assert multiset(unexpected)[x] * 0 == 0;
    }
  }

  lemma PositiveProduct(n: nat, c: nat)
    ensures n * c > 0 <==> n > 0 && c > 0
  {
    if n > 0 && c > 0 {
      assert n * c >= c by {
        Distribute(n - 1, 1, c - 1);
      }
    }
  }

  lemma Distribute(n: int, a: int, c: int)
    ensures n * (a + c) == n * a + n * c
  {
  }

  /**
   An unexpected rule is flagged exactly when it is configured and some
   non-comment line holds its pattern.
   */
  lemma UnexpectedFlagsMembership(lines: seq<string>, unexpected: seq<Rule>, matches: (string, string) -> bool, x: Rule)
    ensures x in UnexpectedFlags(lines, unexpected, matches) <==>
      x in unexpected && AnyActiveLine(lines, x.regex, matches)
  {
    UnexpectedFlagsCount(lines, unexpected, matches, x);
    ActiveMatchCountPositive(lines, x.regex, matches);
    PositiveProduct(multiset(unexpected)[x], ActiveMatchCount(lines, x.regex, matches));
  }

  /** A comment line, wherever it stands, raises no flag and leaves the others as they are. */
  lemma CommentLineIgnored(a: seq<string>, comment: string, b: seq<string>, unexpected: seq<Rule>, matches: (string, string) -> bool)
    requires IsCommentLine(comment)
    ensures UnexpectedFlags(a + [comment] + b, unexpected, matches) == UnexpectedFlags(a + b, unexpected, matches)
  {
    UnexpectedFlagsAppend(a + [comment], b, unexpected, matches);
    UnexpectedFlagsAppend(a, [comment], unexpected, matches);
    UnexpectedFlagsAppend(a, b, unexpected, matches);
    assert UnexpectedFlags([comment], unexpected, matches) == [] by {
      assert [comment][1..] == [];
      assert LineFlags(comment, unexpected, matches) == [];
    }
    var fa := UnexpectedFlags(a, unexpected, matches);
    assert fa + [] == fa;
  }

  /**
   How often a rule appears in the feedback: once per listing among the
   expected rules when its pattern is absent from the whole script, plus
   once per listing among the unexpected rules and counting line.
   */
  lemma FeedbackCount(code: string, cfg: FeedbackConfig, matches: (string, string) -> bool, x: Rule)
    ensures multiset(RuntimeFeedback(code, cfg, matches))[x]
         == (if matches(x.regex, code) then 0 else multiset(cfg.expected)[x])
          + multiset(cfg.unexpected)[x] * ActiveMatchCount(Split(code, '\n'), x.regex, matches)
  {
    var missing := MissingExpected(code, cfg.expected, matches);
    var flags := UnexpectedFlags(Split(code, '\n'), cfg.unexpected, matches);
    UnexpectedFlagsCount(Split(code, '\n'), cfg.unexpected, matches, x);
    assert multiset(missing + flags) == multiset(missing) + multiset(flags);
  }

  /**
   The feedback lists the missing expected rules first and the unexpected
   flags after them.
   */
  lemma FeedbackOrder(code: string, cfg: FeedbackConfig, matches: (string, string) -> bool)
    ensures var r := RuntimeFeedback(code, cfg, matches);
      var m := |MissingExpected(code, cfg.expected, matches)|;
      var lines := Split(code, '\n');
      && m <= |r|
      && (forall i :: 0 <= i < m ==> r[i] in cfg.expected && !matches(r[i].regex, code))
      && (forall i :: m <= i < |r| ==>
            r[i] in cfg.unexpected && AnyActiveLine(lines, r[i].regex, matches))
  {
    var lines := Split(code, '\n');
    var missing := MissingExpected(code, cfg.expected, matches);
    var flags := UnexpectedFlags(lines, cfg.unexpected, matches);
    forall i | |missing| <= i < |missing + flags|
      ensures (missing + flags)[i] in cfg.unexpected
      ensures AnyActiveLine(lines, (missing + flags)[i].regex, matches)
    {
      var x := flags[i - |missing|];
      assert (missing + flags)[i] == x;
      UnexpectedFlagsMembership(lines, cfg.unexpected, matches, x);
    }
  }

  /**
   A rule appears in the feedback exactly when it is an expected rule whose
   pattern the script lacks, or an unexpected rule whose pattern occurs on a
   non-comment line.
   */
  lemma FeedbackMembership(code: string, cfg: FeedbackConfig, matches: (string, string) -> bool, x: Rule)
    ensures var lines := Split(code, '\n');
      x in RuntimeFeedback(code, cfg, matches) <==>
        || (x in cfg.expected && !matches(x.regex, code))
        || (x in cfg.unexpected && AnyActiveLine(lines, x.regex, matches))
  {
    var missing := MissingExpected(code, cfg.expected, matches);
    var flags := UnexpectedFlags(Split(code, '\n'), cfg.unexpected, matches);
    UnexpectedFlagsMembership(Split(code, '\n'), cfg.unexpected, matches, x);
    assert x in missing <==> x in cfg.expected && !matches(x.regex, code) by {
      assert multiset(missing)[x] == if matches(x.regex, code) then 0 else multiset(cfg.expected)[x];
    }
    assert RuntimeFeedback(code, cfg, matches) == missing + flags;
    assert x in missing + flags <==> x in missing || x in flags;
  }

  /**
   No feedback at all exactly when every expected pattern occurs in the
   script and no unexpected pattern occurs on a non-comment line.
   */
  lemma NoFeedback(code: string, cfg: FeedbackConfig, matches: (string, string) -> bool)
    ensures var lines := Split(code, '\n');
      RuntimeFeedback(code, cfg, matches) == [] <==>
        && (forall i :: 0 <= i < |cfg.expected| ==> matches(cfg.expected[i].regex, code))
        && (forall i, j :: 0 <= i < |cfg.unexpected| && 0 <= j < |lines| ==>
              !ActiveLine(lines[j], cfg.unexpected[i].regex, matches))
  {
    var lines := Split(code, '\n');
    var r := RuntimeFeedback(code, cfg, matches);
    if r == [] {
      forall i | 0 <= i < |cfg.expected|
        ensures matches(cfg.expected[i].regex, code)
      {
        FeedbackMembership(code, cfg, matches, cfg.expected[i]);
      }
      forall i, j | 0 <= i < |cfg.unexpected| && 0 <= j < |lines|
        ensures !ActiveLine(lines[j], cfg.unexpected[i].regex, matches)
      {
        FeedbackMembership(code, cfg, matches, cfg.unexpected[i]);
      }
    } else {
      FeedbackOrder(code, cfg, matches);
      FeedbackMembership(code, cfg, matches, r[0]);
    }
  }
}
