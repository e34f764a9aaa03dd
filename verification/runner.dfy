/**
 Running one test case and judging it (`run_test`, `handle_testbench_case`)
 and the verdict over all cases (`handle_assignment`).

 The subprocess itself is not modelled: its result is an `Execution`, and a
 test bench is judged against a function from the argument string to the
 execution it produces.
 */
module Runner {
  import opened Text
  import opened Lines
  import opened Exceptions

  /**
   What running the injected script gave: the captured output of a run that
   exited normally (standard output and standard error merged, as the run
   captures them), or the captured output of a run that failed.
   */
  datatype Execution = Exited(stdout: string) | Failed(output: string)

  /** What `run_test` returns. */
  datatype Outcome = Outcome(output: string, codeWorks: bool, exceptionRaised: bool)

  /** A test case: input values and expected output values, each already rendered by `str`. */
  datatype Case = Case(input: seq<string>, output: seq<string>)

  /** `output.strip().split('\n')[-1]`: the last line of the stripped output. */
  function LastOutputLine(stdout: string): (r: string)
    ensures OneLine(r)
    ensures var t := Strip(stdout);
      |r| <= |t| && t[|t| - |r|..] == r && (|r| == |t| || t[|t| - |r| - 1] == '\n')
  {
    LastPieceIsTail(Strip(stdout), '\n');
    LastPiece(Strip(stdout), '\n')
  }

  /**
   `run_test`: a failed run is summarised by `parse_exception`; a normal run
   is represented by its last output line. Either way the case passes exactly
   when that text equals the expected output.
   */
  function RunTest(exec: Execution, desired: string): (r: Outcome)
    ensures r.exceptionRaised <==> exec.Failed?
    ensures r.codeWorks <==> r.output == desired
    ensures exec.Exited? ==> r.output == LastOutputLine(exec.stdout)
    ensures exec.Failed? ==> r.output == ParseException(exec.output)
  {
    match exec
    case Exited(stdout) =>
      var output := LastOutputLine(stdout);
      Outcome(output, output == desired, false)
    case Failed(message) =>
      var output := ParseException(message);
      Outcome(output, output == desired, true)
  }

  /** The command-line arguments of a case: its input values joined by spaces. */
  function CaseArgs(c: Case): string {
    Join(c.input, ' ')
  }

  /** The expected output of a case: its output values joined by spaces. */
  function DesiredOutput(c: Case): string {
    Join(c.output, ' ')
  }

  /**
   `handle_testbench_case`: run the script on the case's arguments and judge
   the last output line, or the failure summary, against the expected values.
   */
  function HandleCase(c: Case, run: string -> Execution): (r: Outcome)
    ensures r.exceptionRaised <==> run(CaseArgs(c)).Failed?
    ensures r.codeWorks <==> r.output == DesiredOutput(c)
    ensures run(CaseArgs(c)).Exited? ==> r.output == LastOutputLine(run(CaseArgs(c)).stdout)
    ensures run(CaseArgs(c)).Failed? ==> r.output == ParseException(run(CaseArgs(c)).output)
  {
    RunTest(run(CaseArgs(c)), DesiredOutput(c))
  }

  /**
   Splitting the argument string on spaces gives back the input values, one
   per position, when no value holds a space.
   */
  lemma CaseArgsRoundTrip(c: Case)
    requires |c.input| > 0
    requires forall i :: 0 <= i < |c.input| ==> ' ' !in c.input[i]
    ensures Split(CaseArgs(c), ' ') == c.input
  {
    SplitJoin(c.input, ' ');
  }

  /**
   A case passes exactly when the space-separated fields of the reported
   output are the expected values, when there is at least one and none holds
   a space.
   */
  lemma CaseWorksIffFieldsMatch(c: Case, run: string -> Execution)
    requires |c.output| > 0
    requires forall i :: 0 <= i < |c.output| ==> ' ' !in c.output[i]
    ensures var r := HandleCase(c, run);
      r.codeWorks <==> Split(r.output, ' ') == c.output
  {
    var r := HandleCase(c, run);
    SplitJoin(c.output, ' ');
    JoinSplit(r.output, ' ');
  }

  /**
   A failed run can still count as working: when the expected output is
   `Exception` and the failure message names no error, the summary matches.
   */
  lemma FailedRunCanPass(message: string)
    requires forall p: nat :: !ErrorTokenAt(message, p)
    ensures RunTest(Failed(message), "Exception").codeWorks
    ensures RunTest(Failed(message), "Exception").exceptionRaised
  {
  }

  /** The verdict over a test bench. */
  datatype Verdict = Verdict(allWork: bool, anyRaised: bool)

  /** The outcome of every case of a test bench, in order. */
  function RunCases(cases: seq<Case>, run: string -> Execution): (r: seq<Outcome>)
    ensures |r| == |cases|
    ensures forall i :: 0 <= i < |r| ==> r[i] == HandleCase(cases[i], run)
  {
    seq(|cases|, i requires 0 <= i < |cases| => HandleCase(cases[i], run))
  }

  /** `all(code_works)` and `any(exception_raised)` over the outcomes of the cases. */
  function Assess(outcomes: seq<Outcome>): (v: Verdict)
    ensures v.allWork <==> forall i :: 0 <= i < |outcomes| ==> outcomes[i].codeWorks
    ensures v.anyRaised <==> exists i :: 0 <= i < |outcomes| && outcomes[i].exceptionRaised
  {
    if |outcomes| == 0 then Verdict(true, false)
    else
      var rest := Assess(outcomes[1..]);
      assert forall i :: 1 <= i < |outcomes| ==> outcomes[i] == outcomes[1..][i - 1];
      Verdict(outcomes[0].codeWorks && rest.allWork, outcomes[0].exceptionRaised || rest.anyRaised)
  }

  /**
   The verdict over a test bench: every case works exactly when each case's
   reported output equals its space-joined expected values, and an exception
   was raised exactly when the run on some case's arguments failed.
   */
  lemma BenchVerdict(cases: seq<Case>, run: string -> Execution)
    ensures var v := Assess(RunCases(cases, run));
      && (v.allWork <==> forall i :: 0 <= i < |cases| ==> HandleCase(cases[i], run).output == DesiredOutput(cases[i]))
      && (v.anyRaised <==> exists i :: 0 <= i < |cases| && run(CaseArgs(cases[i])).Failed?)
  {
  }
}
