/**
 Rewriting a script so that the test harness can drive it
 (`inject_checking_code`): `import sys` is put in front, the first
 assignment to each input variable is replaced by a read of the matching
 command-line argument, and one print statement per output variable is
 appended.

 The substitution pattern `<name> *=.*` is modelled literally: the text of
 the name, a run of blanks, `=`, and the rest of the line, and the
 replacement is inserted as it is. This is what Python's `re` does for names
 without regex metacharacters and replacements without backslashes.
 */
module Inject {
  import opened Text
  import opened Lines

  /**
   An input variable as listed by the test bench: a bare name, whose cast is
   `str`, or a one-entry mapping from the name to a cast.
   */
  datatype InputVar = Untyped(name: string) | Typed(name: string, cast: string)
  {
    function Cast(): string {
      if Typed? then cast else "str"
    }
  }

  /** The text put in front of the script. */
  const Prelude: string := "import sys\n\n"

  /** The position of the `=` of an assignment to `name` starting at `p`. */
  function EqualsAfter(s: string, p: nat, name: string): (j: nat)
    requires OccursAt(s, p, name)
    ensures p + |name| <= j <= |s|
    ensures forall k :: p + |name| <= k < j ==> s[k] == ' '
  {
    SkipWhile(s, p + |name|, IsBlank)
  }

  /** The pattern `<name> *=.*` matches at position `p` of `s`. */
  predicate AssignmentAt(s: string, p: nat, name: string) {
    && OccursAt(s, p, name)
    && EqualsAfter(s, p, name) < |s|
    && s[EqualsAfter(s, p, name)] == '='
  }

  /** Where the match of `<name> *=.*` at `p` ends: `.*` stops before the newline. */
  function AssignmentEnd(s: string, p: nat, name: string): (e: nat)
    requires AssignmentAt(s, p, name)
    ensures p < e <= |s|
    ensures e == |s| || s[e] == '\n'
    ensures forall k :: EqualsAfter(s, p, name) < k < e ==> s[k] != '\n'
  {
    LineEnd(s, EqualsAfter(s, p, name) + 1)
  }

  /** `re.search`'s choice of match for `<name> *=.*`: the leftmost position. */
  function FirstAssignment(s: string, name: string): (r: Option<nat>)
    ensures r.Some? ==> AssignmentAt(s, r.value, name)
    ensures r.Some? ==> (forall q: nat :: q < r.value ==> !AssignmentAt(s, q, name))
    ensures r.None? ==> (forall q: nat :: !AssignmentAt(s, q, name))
  {
    var f := (p: nat) => AssignmentAt(s, p, name);
    assert forall q: nat :: f(q) == AssignmentAt(s, q, name);
    assert forall q: nat :: AssignmentAt(s, q, name) ==> q < |s|;
    Leftmost(f, 0, |s|)
  }

  /**
   `re.sub(r'<name> *=.*', repl, s, count=1)`: the leftmost match, if any, is
   replaced by `repl`; everything before and after it is kept. Without a match
   the text is unchanged.
   */
  function SubstituteFirst(s: string, name: string, repl: string): (r: string)
    ensures (forall p: nat :: !AssignmentAt(s, p, name)) ==> r == s
    ensures forall p: nat ::
      AssignmentAt(s, p, name) && (forall q: nat :: q < p ==> !AssignmentAt(s, q, name)) ==>
        r == s[..p] + repl + s[AssignmentEnd(s, p, name)..]
  {
    match FirstAssignment(s, name)
    case None => s
    case Some(p) => s[..p] + repl + s[AssignmentEnd(s, p, name)..]
  }

  /** The line that replaces the assignment of input variable number `i` (from 0). */
  function ArgvAssignment(v: InputVar, i: nat): string {
    v.name + " = " + v.Cast() + "(sys.argv[" + Decimal(i + 1) + "])"
  }

  /** The substitutions for `vars`, numbered from `i`, applied in order. */
  function SubstituteInputs(code: string, vars: seq<InputVar>, i: nat): string
    decreases |vars|
  {
    if |vars| == 0 then code
    else SubstituteInputs(SubstituteFirst(code, vars[0].name, ArgvAssignment(vars[0], i)), vars[1..], i + 1)
  }

  /** The statement that prints an output variable, or `UNDEF` when it is unbound. */
  function PrintStatement(name: string): string {
    "print(globals().get('" + name + "', 'UNDEF'), end=' ')"
  }

  /** One print statement per output variable, in the order of the variables. */
  function PrintStatements(outputs: seq<string>): (r: seq<string>)
    ensures |r| == |outputs|
    ensures forall i :: 0 <= i < |r| ==> r[i] == PrintStatement(outputs[i])
  {
    seq(|outputs|, i requires 0 <= i < |outputs| => PrintStatement(outputs[i]))
  }

  /** `inject_checking_code(code, input_vars, output_vars)`. */
  function InjectCheckingCode(code: string, inputs: seq<InputVar>, outputs: seq<string>): string
  {
    SubstituteInputs(Prelude + code, inputs, 0) + "\n" + Join(PrintStatements(outputs), '\n') + "\n"
  }

  // ---------------------------------------------------------------------------
  // Matches are found by looking forward only.

  /** A match inside `s` is a match inside `a + s`, shifted by `|a|`, with the same extent. */
  lemma AssignmentShift(a: string, s: string, q: nat, name: string)
    ensures AssignmentAt(a + s, |a| + q, name) <==> AssignmentAt(s, q, name)
    ensures AssignmentAt(s, q, name) ==>
      AssignmentEnd(a + s, |a| + q, name) == |a| + AssignmentEnd(s, q, name)
  {
    var t := a + s;
    if OccursAt(s, q, name) {
      assert t[|a| + q..|a| + q + |name|] == s[q..q + |name|];
      assert OccursAt(t, |a| + q, name);
      SkipWhileShift(a, s, q + |name|, IsBlank);
      var j := EqualsAfter(s, q, name);
      assert EqualsAfter(t, |a| + q, name) == |a| + j;
      if j < |s| {
        assert t[|a| + j] == s[j];
        if s[j] == '=' {
          SkipWhileShift(a, s, j + 1, NotNewline);
        }
      }
    } else if q + |name| <= |s| {
      assert s[q..q + |name|] == t[|a| + q..|a| + q + |name|];
    }
  }

  /**
   No match can start inside a prefix that ends with a newline and holds no
   `=`, when the name holds no newline: the span from the name to the `=`
   would have to cross the prefix's last newline.
   */
  lemma NoAssignmentInPrefix(a: string, s: string, p: nat, name: string)
    requires |a| > 0 && a[|a| - 1] == '\n' && '=' !in a
    requires OneLine(name)
    requires p < |a|
    ensures !AssignmentAt(a + s, p, name)
  {
    var t := a + s;
    if OccursAt(t, p, name) {
      var k := |a| - 1;
      assert t[k] == '\n';
      forall i | p <= i < p + |name|
        ensures t[i] != '\n'
      {
        assert t[p..p + |name|][i - p] == name[i - p];
      }
      assert p + |name| <= k;
      var j := EqualsAfter(t, p, name);
      assert j <= k;
      assert t[j] == a[j];
    }
  }

  /** Behind such a prefix, the matches of `a + s` are exactly those of `s`, shifted by `|a|`. */
  lemma MatchesAfterPrefix(a: string, s: string, name: string)
    requires |a| > 0 && a[|a| - 1] == '\n' && '=' !in a
    requires OneLine(name)
    ensures forall p: nat :: AssignmentAt(a + s, p, name) <==> p >= |a| && AssignmentAt(s, p - |a|, name)
  {
    forall p: nat
      ensures AssignmentAt(a + s, p, name) <==> p >= |a| && AssignmentAt(s, p - |a|, name)
    {
      if p < |a| {
        NoAssignmentInPrefix(a, s, p, name);
      } else {
        AssignmentShift(a, s, p - |a|, name);
        assert |a| + (p - |a|) == p;
      }
    }
  }

  /** Where the prefix cannot match, the first match of `a + s` is the first match of `s`, shifted. */
  lemma FirstAssignmentAfterPrefix(a: string, s: string, name: string)
    requires |a| > 0 && a[|a| - 1] == '\n' && '=' !in a
    requires OneLine(name)
    ensures FirstAssignment(s, name).None? ==> FirstAssignment(a + s, name).None?
    ensures FirstAssignment(s, name).Some? ==>
      FirstAssignment(a + s, name) == Some(|a| + FirstAssignment(s, name).value)
  {
    var t := a + s;
    MatchesAfterPrefix(a, s, name);
    var r := FirstAssignment(t, name);
    assert r.Some? ==> r.value >= |a| && AssignmentAt(s, r.value - |a|, name);
    if FirstAssignment(s, name).Some? {
      var q0 := FirstAssignment(s, name).value;
      assert AssignmentAt(t, |a| + q0, name);
      assert r.value - |a| >= q0;
    }
  }

  /** A substitution never reaches into such a prefix. */
  lemma SubstituteFirstAfterPrefix(a: string, s: string, name: string, repl: string)
    requires |a| > 0 && a[|a| - 1] == '\n' && '=' !in a
    requires OneLine(name)
    ensures SubstituteFirst(a + s, name, repl) == a + SubstituteFirst(s, name, repl)
  {
    FirstAssignmentAfterPrefix(a, s, name);
    if FirstAssignment(s, name).Some? {
      var q0 := FirstAssignment(s, name).value;
      SubstituteFirstAt(a + s, name, repl, |a| + q0);
      SubstituteFirstAt(s, name, repl, q0);
      ShiftedReplacement(a, s, name, repl, q0);
    }
  }

  /** Replacing a match found behind a prefix is replacing it in the text after the prefix. */
  lemma ShiftedReplacement(a: string, s: string, name: string, repl: string, q0: nat)
    requires AssignmentAt(s, q0, name)
    ensures AssignmentAt(a + s, |a| + q0, name)
    ensures (a + s)[..|a| + q0] + repl + (a + s)[AssignmentEnd(a + s, |a| + q0, name)..]
         == a + (s[..q0] + repl + s[AssignmentEnd(s, q0, name)..])
  {
    AssignmentShift(a, s, q0, name);
    ConcatSlices(a, s, q0, AssignmentEnd(s, q0, name), repl);
  }

  /** The substitution at a known first match. */
  lemma SubstituteFirstAt(s: string, name: string, repl: string, p: nat)
    requires FirstAssignment(s, name) == Some(p)
    ensures SubstituteFirst(s, name, repl) == s[..p] + repl + s[AssignmentEnd(s, p, name)..]
  {
  }

  lemma ConcatSlices(a: string, s: string, q: nat, e: nat, repl: string)
    requires q <= e <= |s|
    ensures (a + s)[..|a| + q] + repl + (a + s)[|a| + e..] == a + (s[..q] + repl + s[e..])
  {
    assert (a + s)[..|a| + q] == a + s[..q];
    assert (a + s)[|a| + e..] == s[e..];
  }

  /** The prelude survives every substitution. */
  lemma {:induction false} SubstituteInputsAfterPrefix(a: string, s: string, vars: seq<InputVar>, i: nat)
    requires |a| > 0 && a[|a| - 1] == '\n' && '=' !in a
    requires forall k :: 0 <= k < |vars| ==> OneLine(vars[k].name)
    ensures SubstituteInputs(a + s, vars, i) == a + SubstituteInputs(s, vars, i)
    decreases |vars|
  {
    if |vars| > 0 {
      var repl := ArgvAssignment(vars[0], i);
      SubstituteFirstAfterPrefix(a, s, vars[0].name, repl);
      SubstituteInputsAfterPrefix(a, SubstituteFirst(s, vars[0].name, repl), vars[1..], i + 1);
    }
  }

  /**
   The injected script is the prelude, then the script with its input
   assignments substituted, then the print block; with no input variables the
   script appears verbatim.
   */
  lemma InjectedLayout(code: string, inputs: seq<InputVar>, outputs: seq<string>)
    requires forall k :: 0 <= k < |inputs| ==> OneLine(inputs[k].name)
    ensures InjectCheckingCode(code, inputs, outputs) ==
      "import sys\n\n" + SubstituteInputs(code, inputs, 0) + "\n" + Join(PrintStatements(outputs), '\n') + "\n"
    ensures |inputs| == 0 ==> (InjectCheckingCode(code, inputs, outputs) ==
      "import sys\n\n" + code + "\n" + Join(PrintStatements(outputs), '\n') + "\n")
  {
    assert '=' !in Prelude;
    SubstituteInputsAfterPrefix(Prelude, code, inputs, 0);
  }

  // ---------------------------------------------------------------------------
  // Substitutions stay on one line.

  /** The matched text of an assignment holds no newline. */
  lemma AssignmentOnOneLine(s: string, p: nat, name: string)
    requires OneLine(name)
    requires AssignmentAt(s, p, name)
    ensures forall k :: p <= k < AssignmentEnd(s, p, name) ==> s[k] != '\n'
  {
    var j := EqualsAfter(s, p, name);
    forall k | p <= k < AssignmentEnd(s, p, name)
      ensures s[k] != '\n'
    {
      if k < p + |name| {
        assert s[p..p + |name|][k - p] == name[k - p];
      }
    }
  }

  /** A substitution with a one-line replacement keeps the number of newlines. */
  lemma SubstituteFirstKeepsNewlines(s: string, name: string, repl: string)
    requires OneLine(name)
    requires OneLine(repl)
    ensures multiset(SubstituteFirst(s, name, repl))['\n'] == multiset(s)['\n']
  {
    match FirstAssignment(s, name)
    case None =>
    case Some(p) =>
      var e := AssignmentEnd(s, p, name);
      AssignmentOnOneLine(s, p, name);
      assert s == s[..p] + s[p..e] + s[e..];
      assert OneLine(s[p..e]);
      assert multiset(s[p..e])['\n'] == 0;
      calc {
        multiset(s)['\n'];
        multiset(s[..p])['\n'] + multiset(s[p..e])['\n'] + multiset(s[e..])['\n'];
        multiset(s[..p])['\n'] + multiset(repl)['\n'] + multiset(s[e..])['\n'];
        multiset(s[..p] + repl + s[e..])['\n'];
      }
  }

  /** The replacement line holds no newline when the name and cast hold none. */
  lemma ArgvAssignmentOneLine(v: InputVar, i: nat)
    requires OneLine(v.name) && OneLine(v.Cast())
    ensures OneLine(ArgvAssignment(v, i))
  {
    var d := Decimal(i + 1);
    assert OneLine(d);
    assert OneLine(v.name) && OneLine(v.Cast());
  }

  /** All substitutions together keep the number of lines of the script. */
  lemma {:induction false} SubstituteInputsKeepsNewlines(code: string, vars: seq<InputVar>, i: nat)
    requires forall k :: 0 <= k < |vars| ==> OneLine(vars[k].name) && OneLine(vars[k].Cast())
    ensures multiset(SubstituteInputs(code, vars, i))['\n'] == multiset(code)['\n']
    decreases |vars|
  {
    if |vars| > 0 {
      var repl := ArgvAssignment(vars[0], i);
      ArgvAssignmentOneLine(vars[0], i);
      SubstituteFirstKeepsNewlines(code, vars[0].name, repl);
      SubstituteInputsKeepsNewlines(SubstituteFirst(code, vars[0].name, repl), vars[1..], i + 1);
    }
  }

  /** The pieces of the frame around the script and the print block. */
  lemma LayoutLines(body: string, block: string)
    ensures Split(Prelude + body + "\n" + block + "\n", '\n') ==
      ["import sys", ""] + Split(body, '\n') + Split(block, '\n') + [""]
  {
    assert OneLine("import sys");
    FrameLines("import sys", body, block);
    LayoutText(body, block);
  }

  /** A separator-free head, an empty line, the body and the block, each closed by a newline. */
  lemma FrameLines(head: string, body: string, block: string)
    requires OneLine(head)
    ensures Split(head + ['\n'] + ("" + ['\n'] + (body + ['\n'] + (block + ['\n'] + ""))), '\n') ==
      [head, ""] + Split(body, '\n') + Split(block, '\n') + [""]
  {
    var u := block + ['\n'] + "";
    SplitAppend(block, "", '\n');
    var su := Split(block, '\n') + [""];
    assert Split(u, '\n') == su;
    var v := body + ['\n'] + u;
    SplitAppend(body, u, '\n');
    var sv := Split(body, '\n') + su;
    assert Split(v, '\n') == sv;
    var w := "" + ['\n'] + v;
    SplitAppend("", v, '\n');
    var sw := [""] + sv;
    assert Split(w, '\n') == sw;
    SplitAppend(head, w, '\n');
    SplitWithoutSeparator(head, '\n');
    assert Split(head + ['\n'] + w, '\n') == [head] + sw;
    Regroup(head, "", Split(body, '\n'), Split(block, '\n'), "");
  }

  lemma Regroup<T>(a: T, b: T, x: seq<T>, y: seq<T>, c: T)
    ensures [a] + ([b] + (x + (y + [c]))) == [a, b] + x + y + [c]
  {
  }

  lemma LayoutText(body: string, block: string)
    ensures Prelude + body + "\n" + block + "\n" ==
      "import sys" + ['\n'] + ("" + ['\n'] + (body + ['\n'] + (block + ['\n'] + "")))
  {
    assert Prelude == "import sys" + ['\n'] + ['\n'];
  }

  /** The print block splits back into its statements (one empty line when there are none). */
  lemma PrintBlockLines(outputs: seq<string>)
    requires forall k :: 0 <= k < |outputs| ==> OneLine(outputs[k])
    ensures Split(Join(PrintStatements(outputs), '\n'), '\n') ==
      if |outputs| == 0 then [""] else PrintStatements(outputs)
  {
    var prints := PrintStatements(outputs);
    if |outputs| > 0 {
      forall k | 0 <= k < |prints|
        ensures OneLine(prints[k])
      {
        assert OneLine(outputs[k]);
      }
      SplitJoin(prints, '\n');
    }
  }

  /**
   Line by line, the injected script is: `import sys`, a blank line, the
   script's lines (as many as before, each input assignment rewritten in
   place), one print statement per output variable in order (a blank line when
   there are none), and a final empty piece after the closing newline.
   */
  lemma InjectedLines(code: string, inputs: seq<InputVar>, outputs: seq<string>)
    requires forall k :: 0 <= k < |inputs| ==> OneLine(inputs[k].name) && OneLine(inputs[k].Cast())
    requires forall k :: 0 <= k < |outputs| ==> OneLine(outputs[k])
    ensures var body := SubstituteInputs(code, inputs, 0);
      && Split(InjectCheckingCode(code, inputs, outputs), '\n') ==
           ["import sys", ""] + Split(body, '\n')
           + (if |outputs| == 0 then [""] else PrintStatements(outputs)) + [""]
      && |Split(body, '\n')| == |Split(code, '\n')|
  {
    var body := SubstituteInputs(code, inputs, 0);
    InjectedLayout(code, inputs, outputs);
    SubstituteInputsKeepsNewlines(code, inputs, 0);
    LayoutLines(body, Join(PrintStatements(outputs), '\n'));
    PrintBlockLines(outputs);
  }

  // ---------------------------------------------------------------------------
  // The pattern is not anchored to a whole name or to an assignment.

  /**
   A comparison `name == v` is taken for an assignment: the first `=` of
   `==` completes the pattern, and the whole line is replaced.
   */
  lemma ComparisonIsRewritten(name: string, v: string, repl: string)
    requires OneLine(v)
    ensures SubstituteFirst(name + " == " + v, name, repl) == repl
  {
    var s := name + " == " + v;
    assert s[..|name|] == name;
    assert s[|name|] == ' ' && s[|name| + 1] == '=';
    assert AssignmentAt(s, 0, name);
    assert forall k :: |name| + 2 <= k < |s| ==> s[k] != '\n' by {
      assert forall k :: |name| + 2 <= k < |s| ==> s[k] == (" == " + v)[k - |name|];
    }
    assert AssignmentEnd(s, 0, name) == |s|;
  }

  /**
   An assignment to a longer name that ends in `name` (`min = v` for `n`) is
   rewritten when it comes first: the word characters in front of the match
   stay, and the line then assigns the input to the longer name.
   */
  lemma LongerNameIsRewritten(w: string, name: string, v: string, repl: string)
    requires AllWordChars(w) && AllWordChars(name)
    requires OneLine(v)
    ensures SubstituteFirst(w + name + " = " + v, name, repl) == w + repl
  {
    var s := w + name + " = " + v;
    var p := |w|;
    assert s[p..p + |name|] == name;
    assert s[p + |name|] == ' ' && s[p + |name| + 1] == '=';
    assert AssignmentAt(s, p, name);
    forall q: nat | q < p
      ensures !AssignmentAt(s, q, name)
    {
      if OccursAt(s, q, name) {
        var j := EqualsAfter(s, q, name);
        assert forall k :: 0 <= k < p + |name| ==> IsWordChar(s[k]) by {
          assert forall k :: 0 <= k < p ==> s[k] == w[k];
          assert forall k :: p <= k < p + |name| ==> s[k] == name[k - p];
        }
        assert j == q + |name|;
      }
    }
    assert forall k :: p + |name| + 2 <= k < |s| ==> s[k] != '\n' by {
      assert s[p + |name| + 2] == ' ';
      assert forall k :: p + |name| + 3 <= k < |s| ==> s[k] == v[k - p - |name| - 3];
    }
    assert AssignmentEnd(s, p, name) == |s|;
    assert s[..p] == w;
  }
}
