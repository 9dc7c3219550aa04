/** The verifier of acceptance criteria and step tests, and the command cache the two share
    (crates/mp/src/ac_verify.rs). Classifying and executing are functions of the command;
    processes, trust and time limits are behind the second one. */
module CommandCache {
  import opened Prelude

  datatype Kind = Empty | Manual | Runnable

  datatype Execution = Ran(code: int, output: string) | DidNotRun(error: string)

  datatype Runner = Runner(classify: string -> Kind, execute: string -> Execution)

  datatype Outcome = Outcome(kind: Kind, passed: bool, exitCode: Option<int>, output: string, note: string) {
    /** All of the outcome but the wording. */
    function Verdict(): (Kind, bool, Option<int>, string) {
      (kind, passed, exitCode, output)
    }
  }

  datatype Labels = Labels(emptyNote: string, manualNote: string, commandKind: string)

  const AC_LABELS := Labels(
    "empty verification — not checked (flagged)", "manual verification — not executed", "verification")
  const STEP_LABELS := Labels("empty tests — not checked", "manual tests — not executed", "step tests")

  /** truncate(out, 2000) */
  function Truncate(s: string, max: nat): string {
    if |s| <= max then s else (if max >= 3 then s[..max - 3] else "") + "..."
  }

  /** What executing `value` afresh yields. */
  function Executed(run: Runner, value: string, labels: Labels): Outcome {
    match run.execute(value)
    case Ran(code, out) =>
      Outcome(Runnable, code == 0, Some(code), Truncate(out, 2000),
              labels.commandKind + if code == 0 then " command succeeded" else " command failed")
    case DidNotRun(e) =>
      Outcome(Runnable, false, None, "", labels.commandKind + " command did not run: " + e)
  }

  /** What running without a cache yields. */
  function Uncached(run: Runner, value: string, labels: Labels): Outcome {
    match run.classify(value)
    case Empty => Outcome(Empty, true, None, "", labels.emptyNote)
    case Manual => Outcome(Manual, true, None, "", labels.manualNote)
    case Runnable => Executed(run, value, labels)
  }

  datatype Report = Report(
    results: seq<Outcome>, runnableTotal: nat, runnablePassed: nat, runnableFailed: nat,
    manual: nat, empty: nat, ok: bool)

  function CountKind(results: seq<Outcome>, p: Outcome -> bool): (n: nat)
    ensures n <= |results|
  {
    if results == [] then 0
    else CountKind(results[..|results| - 1], p) + if p(results[|results| - 1]) then 1 else 0
  }

  predicate Failed(r: Outcome) {
    r.kind == Runnable && !r.passed
  }

  /** summarize_kinds and the report built from it. */
  function Summarize(results: seq<Outcome>): Report {
    FailedAreRunnable(results);
    var total, failed := CountKind(results, (r: Outcome) => r.kind == Runnable), CountKind(results, Failed);
    Report(results, total, total - failed, failed,
           CountKind(results, (r: Outcome) => r.kind == Manual), CountKind(results, (r: Outcome) => r.kind == Empty),
           failed == 0)
  }

  lemma {:induction false} FailedAreRunnable(results: seq<Outcome>)
    ensures CountKind(results, Failed) <= CountKind(results, (r: Outcome) => r.kind == Runnable)
  {
    if results != [] {
      FailedAreRunnable(results[..|results| - 1]);
    }
  }

  /** The counts partition the results, and ok means that no runnable one failed. */
  lemma {:induction false} SummaryPartitions(results: seq<Outcome>)
    ensures var s := Summarize(results);
      && s.runnablePassed + s.runnableFailed + s.manual + s.empty == |results|
      && (s.ok <==> forall r :: r in results ==> r.kind == Runnable ==> r.passed)
  {
    if results != [] {
      var front, last := results[..|results| - 1], results[|results| - 1];
      SummaryPartitions(front);
      assert forall r :: r in results <==> r in front || r == last;
    }
  }

  ghost predicate SameVerdicts(a: seq<Outcome>, b: seq<Outcome>) {
    |a| == |b| && forall i :: 0 <= i < |a| ==> a[i].Verdict() == b[i].Verdict()
  }

  lemma {:induction false} SameVerdictsSummary(a: seq<Outcome>, b: seq<Outcome>)
    requires SameVerdicts(a, b)
    ensures Summarize(a).(results := b) == Summarize(b)
  {
    if a != [] {
      assert a[|a| - 1].Verdict() == b[|b| - 1].Verdict();
      SameVerdictsSummary(a[..|a| - 1], b[..|b| - 1]);
    }
  }

  /** The outcomes without a cache. */
  function UncachedAll(run: Runner, values: seq<string>, labels: Labels): (r: seq<Outcome>)
    ensures |r| == |values| && forall i :: 0 <= i < |r| ==> r[i] == Uncached(run, values[i], labels)
  {
    seq(|values|, i requires 0 <= i < |values| => Uncached(run, values[i], labels))
  }

  /** The runnable commands among `values`. */
  function RunnableOf(run: Runner, values: seq<string>): set<string> {
    set v | v in values && run.classify(v) == Runnable
  }

  lemma UncachedNext(run: Runner, values: seq<string>, labels: Labels, i: nat)
    requires i < |values|
    ensures UncachedAll(run, values[..i + 1], labels)
         == UncachedAll(run, values[..i], labels) + [Uncached(run, values[i], labels)]
    ensures RunnableOf(run, values[..i + 1]) == RunnableOf(run, values[..i]) + RunnableOf(run, [values[i]])
  {
    assert values[..i + 1] == values[..i] + [values[i]];
  }

  lemma RunnableJoins(run: Runner, a: seq<string>, b: seq<string>)
    ensures RunnableOf(run, a + b) == RunnableOf(run, a) + RunnableOf(run, b)
  {}

  // ---------- What a report says ----------

  predicate ExitsZero(run: Runner, value: string) {
    match run.execute(value)
    case Ran(code, _) => code == 0
    case DidNotRun(_) => false
  }

  /** The outcome of one command: only a runnable one can fail, and it does unless it ran and
      exited with zero. */
  ghost predicate IsOutcome(run: Runner, value: string, r: Outcome) {
    && r.kind == run.classify(value)
    && (r.passed <==> r.kind == Runnable ==> ExitsZero(run, value))
    && (forall code, out :: r.kind == Runnable && run.execute(value) == Ran(code, out) ==>
         r.exitCode == Some(code) && (|out| <= 2000 ==> r.output == out))
    && (r.kind != Runnable || run.execute(value).DidNotRun? ==> r.exitCode == None && r.output == "")
  }

  ghost predicate AreOutcomes(run: Runner, values: seq<string>, results: seq<Outcome>) {
    |results| == |values| && forall i :: 0 <= i < |values| ==> IsOutcome(run, values[i], results[i])
  }

  ghost function OfKind(run: Runner, values: seq<string>, kind: Kind): set<nat> {
    set i: nat | i < |values| && run.classify(values[i]) == kind
  }

  ghost function Failing(run: Runner, values: seq<string>): set<nat> {
    set i: nat | i < |values| && run.classify(values[i]) == Runnable && !ExitsZero(run, values[i])
  }

  /** A report on `values`, in terms of the commands alone. */
  ghost predicate IsReport(run: Runner, values: seq<string>, report: Report) {
    && |report.results| == |values|
    && AreOutcomes(run, values, report.results)
    && report.empty == |OfKind(run, values, Empty)| && report.manual == |OfKind(run, values, Manual)|
    && report.runnableTotal == |OfKind(run, values, Runnable)|
    && report.runnableFailed == |Failing(run, values)|
    && report.runnablePassed + report.runnableFailed == report.runnableTotal
    && (report.ok <==> Failing(run, values) == {})
  }

  /** The report has the verdicts and the counts of a run without a cache, and they are right. */
  ghost predicate LikeUncached(run: Runner, values: seq<string>, labels: Labels, report: Report) {
    && SameVerdicts(report.results, UncachedAll(run, values, labels))
    && report.(results := []) == Summarize(UncachedAll(run, values, labels)).(results := [])
    && IsReport(run, values, report)
  }

  ghost function Places(results: seq<Outcome>, p: Outcome -> bool): set<nat> {
    set i: nat | i < |results| && p(results[i])
  }

  lemma {:induction false} CountIsSize(results: seq<Outcome>, p: Outcome -> bool)
    ensures CountKind(results, p) == |Places(results, p)|
  {
    if results == [] {
      assert Places(results, p) == {};
    } else {
      var n := |results| - 1;
      CountIsSize(results[..n], p);
      var front := Places(results[..n], p);
      assert Places(results, p) == if p(results[n]) then front + {n} else front;
    }
  }

  lemma UncachedIsOutcome(run: Runner, value: string, labels: Labels, r: Outcome)
    requires r.Verdict() == Uncached(run, value, labels).Verdict()
    ensures IsOutcome(run, value, r)
  {}

  lemma SummaryIsReport(run: Runner, values: seq<string>, labels: Labels, report: Report)
    requires SameVerdicts(report.results, UncachedAll(run, values, labels))
    requires report.(results := []) == Summarize(UncachedAll(run, values, labels)).(results := [])
    ensures IsReport(run, values, report)
  {
    var results := UncachedAll(run, values, labels);
    forall i | 0 <= i < |values|
      ensures IsOutcome(run, values[i], report.results[i]) && IsOutcome(run, values[i], results[i])
    {
      UncachedIsOutcome(run, values[i], labels, report.results[i]);
      UncachedIsOutcome(run, values[i], labels, results[i]);
    }
    CountsAreSizes(run, values, results);
    SummaryPartitions(results);
  }

  lemma CountsAreSizes(run: Runner, values: seq<string>, results: seq<Outcome>)
    requires |results| == |values| && forall i :: 0 <= i < |values| ==> IsOutcome(run, values[i], results[i])
    ensures CountKind(results, (r: Outcome) => r.kind == Runnable) == |OfKind(run, values, Runnable)|
    ensures CountKind(results, (r: Outcome) => r.kind == Manual) == |OfKind(run, values, Manual)|
    ensures CountKind(results, (r: Outcome) => r.kind == Empty) == |OfKind(run, values, Empty)|
    ensures CountKind(results, Failed) == |Failing(run, values)|
  {
    CountIsSize(results, (r: Outcome) => r.kind == Runnable);
    CountIsSize(results, (r: Outcome) => r.kind == Manual);
    CountIsSize(results, (r: Outcome) => r.kind == Empty);
    CountIsSize(results, Failed);
    assert Places(results, (r: Outcome) => r.kind == Runnable) == OfKind(run, values, Runnable);
    assert Places(results, (r: Outcome) => r.kind == Manual) == OfKind(run, values, Manual);
    assert Places(results, (r: Outcome) => r.kind == Empty) == OfKind(run, values, Empty);
    assert Places(results, Failed) == Failing(run, values);
  }

  // ---------- The verifier ----------

  class Cache {
    var entries: map<string, Outcome>

    constructor ()
      ensures entries == map[]
    {
      entries := map[];
    }

    /** Every entry has the verdict that executing its command has. */
    ghost predicate Valid(run: Runner)
      reads this
    {
      forall v :: v in entries ==>
        run.classify(v) == Runnable && entries[v].Verdict() == Executed(run, v, AC_LABELS).Verdict()
    }
  }

  class Verifier {
    const run: Runner
    /** The commands executed so far. */
    var log: seq<string>

    constructor (run: Runner)
      ensures this.run == run && log == []
    {
      this.run, log := run, [];
    }

    method Execute(value: string, labels: Labels) returns (r: Outcome)
      modifies this
      ensures log == old(log) + [value] && r == Executed(run, value, labels)
    {
      log := log + [value];
      match run.execute(value)
      case Ran(code, out) =>
        r := Outcome(Runnable, code == 0, Some(code), Truncate(out, 2000),
                     labels.commandKind + if code == 0 then " command succeeded" else " command failed");
      case DidNotRun(e) =>
        r := Outcome(Runnable, false, None, "", labels.commandKind + " command did not run: " + e);
    }

    /** Each cached command has been executed once, and nothing else has. */
    ghost predicate Logs(cache: Cache)
      reads this, cache
    {
      Distinct(log) && Elements(log) == cache.entries.Keys
    }

    /** run_one: a cached command is not executed again; its note says so, its verdict stays. */
    method RunOne(value: string, labels: Labels, cache: Cache?) returns (r: Outcome)
      requires cache != null ==> cache.Valid(run)
      modifies this, cache
      ensures r.Verdict() == Uncached(run, value, labels).Verdict()
      ensures cache == null ==> r == Uncached(run, value, labels)
      ensures cache != null ==>
        cache.Valid(run) && cache.entries.Keys == old(cache.entries.Keys) + RunnableOf(run, [value])
      ensures cache != null && old(Logs(cache)) ==> Logs(cache)
    {
      match run.classify(value)
      case Empty => r := Outcome(Empty, true, None, "", labels.emptyNote);
      case Manual => r := Outcome(Manual, true, None, "", labels.manualNote);
      case Runnable =>
        if cache != null && value in cache.entries {
          r := cache.entries[value].(note := labels.commandKind + " command skipped (cache hit)");
          return;
        }
        assert old(log) == log;
        r := Execute(value, labels);
        if cache != null {
          assert value !in old(cache.entries.Keys);
          assert Elements(log) == Elements(old(log)) + {value};
          assert value !in Elements(old(log)) ==> value !in old(log);
          cache.entries := cache.entries[value := r];
        }
    }

    /** verify_milestone_in and verify_step_tests_in differ in their labels only. */
    method VerifyAll(values: seq<string>, labels: Labels, cache: Cache?) returns (report: Report)
      requires cache != null ==> cache.Valid(run)
      modifies this, cache
      ensures LikeUncached(run, values, labels, report)
      ensures cache == null ==> report == Summarize(UncachedAll(run, values, labels))
      ensures cache != null ==>
        cache.Valid(run) && cache.entries.Keys == old(cache.entries.Keys) + RunnableOf(run, values)
      ensures cache != null && old(Logs(cache)) ==> Logs(cache)
    {
      var results: seq<Outcome> := [];
      for i := 0 to |values|
        invariant SameVerdicts(results, UncachedAll(run, values[..i], labels))
        invariant cache == null ==> results == UncachedAll(run, values[..i], labels)
        invariant cache != null ==>
          cache.Valid(run) && cache.entries.Keys == old(cache.entries.Keys) + RunnableOf(run, values[..i])
        invariant cache != null && old(Logs(cache)) ==> Logs(cache)
      {
        UncachedNext(run, values, labels, i);
        var r := RunOne(values[i], labels, cache);
        results := results + [r];
      }
      assert values[..|values|] == values;
      SameVerdictsSummary(results, UncachedAll(run, values, labels));
      report := Summarize(results);
      SummaryIsReport(run, values, labels, report);
    }

    /** Criteria, then steps, through one cache: the reports a run without cache would give,
        and each distinct runnable command executed exactly once. */
    method VerifyMilestone(criteria: seq<string>, steps: seq<string>) returns (acs: Report, tests: Report)
      requires log == []
      modifies this
      ensures LikeUncached(run, criteria, AC_LABELS, acs) && LikeUncached(run, steps, STEP_LABELS, tests)
      ensures Distinct(log) && Elements(log) == RunnableOf(run, criteria + steps)
    {
      var cache := new Cache();
      assert Logs(cache);
      acs := VerifyAll(criteria, AC_LABELS, cache);
      tests := VerifyAll(steps, STEP_LABELS, cache);
      RunnableJoins(run, criteria, steps);
    }
  }
}
