/**
 * The runner registered for one case: it reads the optional fixtures,
 * declares how many assertions it will make, and, once the `cmd` script has
 * finished, compares the exit code and (when a fixture exists) the standard
 * output with what the fixtures expect.
 */
module CaseRunner {
  import opened Wrappers

  /** The fixtures of a case directory, as read at run time: `None` when the
      file is absent or unreadable. `exitCode` is the already parsed number. */
  datatype Fixtures = Fixtures(exitCode: Option<int>, stdout: Option<string>)

  /** The error object handed to the `exec` callback; `code` is `None` when
      the process ended without an exit status (killed by a signal). */
  datatype ExecError = ExecError(code: Option<int>)

  /** What the `exec` callback receives: `error` is `None` on a clean exit. */
  datatype ExecResult = ExecResult(error: Option<ExecError>, stdout: string, stderr: string)

  /** The JavaScript values the assertions compare: `null`, a number, a string. */
  datatype Value = Null | Num(n: int) | Str(s: string)

  /** One `test.equal(left, right)` call. */
  datatype Assertion = Equal(left: Value, right: Value)

  /** What one run tells the test framework: the count given to
      `test.expect` and the assertions made, in order. */
  datatype Report = Report(declared: nat, made: seq<Assertion>)

  /** `left == right` in JavaScript, for the pairs this runner compares:
      null with null or a number, and string with string. */
  predicate Holds(a: Assertion)
  {
    a.left == a.right
  }

  /** The framework passes a case when every assertion holds and exactly the
      declared number of assertions was made. */
  predicate Passed(r: Report)
  {
    r.declared == |r.made| && forall k :: 0 <= k < |r.made| ==> Holds(r.made[k])
  }

  /** `expectedExitCode`: `null` unless the fixture was read. */
  function ExpectedExitCode(fx: Fixtures): Value
  {
    match fx.exitCode
    case None => Null
    case Some(c) => Num(c)
  }

  /** `error && error.code`; on a well-formed outcome never the number 0. */
  function ActualExitCode(res: ExecResult): (v: Value)
    ensures WellFormed(res) ==> v != Num(0)
  {
    match res.error
    case None => Null
    case Some(e) =>
      match e.code
      case None => Null
      case Some(c) => Num(c)
  }

  /** When the exit-code assertion holds, stated on the outcome itself:
      without a fixture, when there was no error or the error carries no
      exit status; with a fixture `c`, when the error carries status `c`. */
  predicate ExitCheckOk(fx: Fixtures, res: ExecResult)
  {
    match fx.exitCode
    case None => res.error.None? || res.error.value.code.None?
    case Some(c) => res.error.Some? && res.error.value.code == Some(c)
  }

  /** When the stdout assertion holds: there is no fixture, or the captured
      output equals it exactly. */
  predicate StdoutCheckOk(fx: Fixtures, res: ExecResult)
  {
    fx.stdout.None? || res.stdout == fx.stdout.value
  }

  /** The runner body, from the fixtures to the assertions the callback makes. */
  method RunCase(fx: Fixtures, res: ExecResult) returns (report: Report)
    ensures report.declared == |report.made|
    ensures report.declared == if fx.stdout.Some? then 2 else 1
    ensures Passed(report) <==> ExitCheckOk(fx, res) && StdoutCheckOk(fx, res)
  {
    var numTests := 1;
    var expectedExitCode := Null;
    if fx.exitCode.Some? {
      expectedExitCode := Num(fx.exitCode.value);
    }
    var expectedStdout: Option<string> := None;
    if fx.stdout.Some? {
      expectedStdout := Some(fx.stdout.value);
      numTests := numTests + 1;
    }
    // test.expect(numTests), then the exec callback:
    var made := [Equal(expectedExitCode, ActualExitCode(res))];
    if expectedStdout.Some? {
      made := made + [Equal(Str(res.stdout), Str(expectedStdout.value))];
    }
    report := Report(numTests, made);
    assert expectedExitCode == ExpectedExitCode(fx);
    ExitComparison(fx, res);
    assert Holds(made[0]) <==> ExitCheckOk(fx, res);
    assert |made| == 2 ==> (Holds(made[1]) <==> StdoutCheckOk(fx, res));
  }

  /** `test.equal(expectedExitCode, error && error.code)` holds exactly when
      the exit-code check, stated on the fixtures and outcome, holds. */
  lemma ExitComparison(fx: Fixtures, res: ExecResult)
    ensures Holds(Equal(ExpectedExitCode(fx), ActualExitCode(res))) <==> ExitCheckOk(fx, res)
  {
  }

  /** How the process ended. */
  datatype Termination = Exited(status: int) | Signalled

  /** What Node's `exec` hands the callback for a termination: no error on
      exit status 0, an error carrying the status on any other exit, and an
      error without a status when a signal ended the process. */
  function ExecOutcome(t: Termination, stdout: string, stderr: string): ExecResult
  {
    match t
    case Exited(s) =>
      if s == 0 then ExecResult(None, stdout, stderr)
      else ExecResult(Some(ExecError(Some(s))), stdout, stderr)
    case Signalled => ExecResult(Some(ExecError(None)), stdout, stderr)
  }

  /** An error object never carries exit status 0. */
  predicate WellFormed(res: ExecResult)
  {
    res.error.Some? ==> res.error.value.code != Some(0)
  }

  lemma ExecOutcomeWellFormed(t: Termination, stdout: string, stderr: string)
    ensures WellFormed(ExecOutcome(t, stdout, stderr))
  {
  }

  /** `error && error.code` in terms of how the process ended: `null` on a
      clean exit and on a signal, the status on any other exit. */
  lemma ActualExitCodeByTermination(t: Termination, stdout: string, stderr: string)
    ensures ActualExitCode(ExecOutcome(t, stdout, stderr)) ==
      match t
      case Exited(s) => if s == 0 then Null else Num(s)
      case Signalled => Null
  {
  }

  /** The exit-code assertion in terms of how the process ended: without a
      fixture it holds on a clean exit and also when a signal ended the
      process; with a fixture `c` it holds only on exit status `c`, and
      never when `c` is 0. */
  lemma ExitCheckByTermination(fx: Fixtures, t: Termination, stdout: string, stderr: string)
    ensures ExitCheckOk(fx, ExecOutcome(t, stdout, stderr)) <==>
      match fx.exitCode
      case None => t == Exited(0) || t.Signalled?
      case Some(c) => c != 0 && t == Exited(c)
  {
  }

  /** An `expected.exitCode` fixture holding 0 can never pass: the expected
      value is the number 0 while a clean exit yields `null`. */
  lemma ZeroFixtureNeverPasses(fx: Fixtures, res: ExecResult)
    requires fx.exitCode == Some(0)
    requires WellFormed(res)
    ensures !ExitCheckOk(fx, res)
  {
  }

  /** Example runs of `RunCase`. */
  method Scenarios()
  {
    // `cmd` exits 0, no fixtures: one assertion, passes.
    var r := RunCase(Fixtures(None, None), ExecOutcome(Exited(0), "", ""));
    assert r.declared == 1 && Passed(r);
    // `cmd` exits 3, `expected.exitCode` is 3, no stdout fixture: passes
    // whatever the output.
    r := RunCase(Fixtures(Some(3), None), ExecOutcome(Exited(3), "anything", ""));
    assert Passed(r);
    // `cmd` prints "foo\n" while `expected.stdout` is "bar\n": fails.
    r := RunCase(Fixtures(None, Some("bar\n")), ExecOutcome(Exited(0), "foo\n", ""));
    assert r.declared == 2 && !Passed(r);
    // `cmd` exits 0 printing "hello\n", fixtures "0" and "hello\n": the
    // exit-code assertion compares 0 with null and fails.
    r := RunCase(Fixtures(Some(0), Some("hello\n")), ExecOutcome(Exited(0), "hello\n", ""));
    assert r.declared == 2 && !Passed(r);
    // `cmd` killed by a signal, no fixtures: passes.
    r := RunCase(Fixtures(None, None), ExecOutcome(Signalled, "", ""));
    assert Passed(r);
  }
}
