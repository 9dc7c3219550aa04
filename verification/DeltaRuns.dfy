/** Runs of merges and rebases (crates/mp/src/delta.rs): when two deltas on one base can both
    merge, and how long a rebase lasts. */
module DeltaRuns {
  import opened Prelude
  import opened Text
  import opened DeltaEdits
  import opened DeltaMerge

  lemma StepKeepsValid(st: State, op: Op)
    requires st.Valid()
    ensures Apply(st, op).Valid()
    ensures forall n :: n in st.domains ==> n in Apply(st, op).domains
    ensures forall m :: m in st.deltas && op != Rebase(m) ==>
      m in Apply(st, op).deltas && Apply(st, op).deltas[m] == st.deltas[m]
    ensures forall m :: m in st.deltas ==>
      m in Apply(st, op).deltas && Apply(st, op).deltas[m].domain == st.deltas[m].domain
  {}

  /** A spec file from which a merge can be written to the file of `domain`: loading never compares
      the name of the file with the id in it, and writing goes to the file of the id. */
  predicate WritesTo(domains: map<string, DomainSpec>, n: string, domain: string) {
    n in domains && IsDomainId(n) && domains[n].id == domain && domains[n].version != 0
  }

  /** No such file is behind `base`. */
  ghost predicate NoneBehind(domains: map<string, DomainSpec>, domain: string, base: nat) {
    forall n :: WritesTo(domains, n, domain) ==> base <= domains[n].version
  }

  lemma StepKeepsNoneBehind(st: State, op: Op, domain: string, base: nat)
    requires st.Valid() && NoneBehind(st.domains, domain, base) && base <= U32_MAX
    ensures NoneBehind(Apply(st, op).domains, domain, base)
    ensures domain in st.domains && base < st.domains[domain].version && base < U32_MAX ==>
      domain in Apply(st, op).domains && base < Apply(st, op).domains[domain].version
  {
    if op.Merge? && Succeeds(st, op) {
      var d := st.deltas[op.milestone];
      assert WritesTo(st.domains, d.domain, st.domains[d.domain].id);
    }
  }

  /** The gate on the version passes. */
  predicate Current(st: State, m: string) {
    m in st.deltas && st.deltas[m].domain in st.domains &&
    st.domains[st.deltas[m].domain].version == st.deltas[m].baseVersion
  }

  /** A delta whose base lies behind its domain, and no file behind that base, stays behind and
      fails to merge through every run in which it is not rebased. */
  lemma {:induction false} StaleStaysStale(st: State, m: string, ops: seq<Op>)
    requires st.Valid() && m in st.deltas && Rebase(m) !in ops && st.deltas[m].domain in st.domains
    requires st.deltas[m].baseVersion < st.domains[st.deltas[m].domain].version
    requires NoneBehind(st.domains, st.deltas[m].domain, st.deltas[m].baseVersion)
    ensures !Current(Run(st, ops), m) && !Succeeds(Run(st, ops), Merge(m))
    decreases ops
  {
    if ops != [] {
      StepKeepsValid(st, ops[0]);
      StepKeepsNoneBehind(st, ops[0], st.deltas[m].domain, st.deltas[m].baseVersion);
      assert ops[0] in ops;
      StaleStaysStale(Apply(st, ops[0]), m, ops[1..]);
    }
  }

  // ---------- When two deltas on one base never both merge ----------

  /** `first` and `second`, which may be the same, share base and domain, and `first` can merge. */
  predicate Rivals(st: State, domain: string, base: nat, first: string, second: string) {
    && st.Valid() && first in st.deltas && second in st.deltas
    && st.deltas[first].domain == st.deltas[second].domain == domain
    && st.deltas[first].baseVersion == st.deltas[second].baseVersion == base
    && Succeeds(st, Merge(first))
  }

  /** Whatever the deltas are, after one on this base has merged no other on it does, through any
      run that does not rebase it. */
  ghost predicate MergesOnce(domains: map<string, DomainSpec>, domain: string, base: nat) {
    forall deltas, first, second, ops ::
      Rivals(State(domains, deltas), domain, base, first, second) && Rebase(second) !in ops ==>
      !Succeeds(Run(Apply(State(domains, deltas), Merge(first)), ops), Merge(second))
  }

  /** Some delta on `domain` at `base` can merge at all. */
  predicate Mergeable(domains: map<string, DomainSpec>, domain: string, base: nat) {
    && domain in domains && IsDomainId(domain) && IsDomainId(domains[domain].id)
    && domains[domain].version == base != 0
  }

  /** The file of the domain holds its own id, and no file that does is behind. */
  ghost predicate Guarded(domains: map<string, DomainSpec>, domain: string, base: nat)
    requires domain in domains
  {
    base < U32_MAX && domains[domain].id == domain && NoneBehind(domains, domain, base)
  }

  lemma NoSecondMerge(st: State, domain: string, base: nat, first: string, second: string, ops: seq<Op>)
    requires Rivals(st, domain, base, first, second) && Rebase(second) !in ops && Guarded(st.domains, domain, base)
    ensures !Succeeds(Run(Apply(st, Merge(first)), ops), Merge(second))
  {
    MergeRaisesVersion(st, first);
    StepKeepsValid(st, Merge(first));
    StepKeepsNoneBehind(st, Merge(first), domain, base);
    StaleStaysStale(Apply(st, Merge(first)), second, ops);
  }

  function EmptyDelta(domain: string, base: nat): Delta {
    Delta("delta", domain, base, [], [], [])
  }

  lemma EmptyDeltaMerges(st: State, m: string)
    requires m in st.deltas && st.deltas[m] == EmptyDelta(st.deltas[m].domain, st.deltas[m].baseVersion)
    requires Mergeable(st.domains, st.deltas[m].domain, st.deltas[m].baseVersion)
    ensures var spec := st.domains[st.deltas[m].domain];
      && Succeeds(st, Merge(m))
      && Apply(st, Merge(m))
         == st.(domains := st.domains[spec.id := spec.(version := NextVersion(spec.version))])
  {
    var d, spec := st.deltas[m], st.domains[st.deltas[m].domain];
    assert MergedRequirements(spec.requirements, d) == Some(spec.requirements);
    assert GatesPass(spec, d);
  }

  /** `n` times a rebase and a merge of `m`. */
  function Climb(m: string, n: nat): seq<Op> {
    if n == 0 then [] else [Rebase(m), Merge(m)] + Climb(m, n - 1)
  }

  lemma {:induction false} RunJoins(st: State, a: seq<Op>, b: seq<Op>)
    ensures Run(st, a + b) == Run(Run(st, a), b)
    decreases a
  {
    if a == [] {
      assert a + b == b;
    } else {
      assert (a + b)[0] == a[0] && (a + b)[1..] == a[1..] + b;
      RunJoins(Apply(st, a[0]), a[1..], b);
    }
  }

  lemma {:induction false} ClimbIsOf(m: string, n: nat)
    ensures forall op :: op in Climb(m, n) ==> op.milestone == m
  {
    if n > 0 {
      ClimbIsOf(m, n - 1);
    }
  }

  lemma ClimbStep(st: State, m: string, domain: string)
    requires m in st.deltas && st.deltas[m] == EmptyDelta(domain, st.deltas[m].baseVersion)
    requires domain in st.domains && IsDomainId(domain)
    requires st.domains[domain].id == domain && 0 < st.domains[domain].version < U32_MAX
    ensures var spec, after := st.domains[domain], Run(st, [Rebase(m), Merge(m)]);
      && after.domains == st.domains[domain := spec.(version := spec.version + 1)]
      && after.deltas == st.deltas[m := EmptyDelta(domain, spec.version)]
  {
    var rebased := Apply(st, Rebase(m));
    EmptyDeltaMerges(rebased, m);
    var merged := Apply(rebased, Merge(m));
    assert [Rebase(m), Merge(m)][1..] == [Merge(m)] && [Merge(m)][1..] == [];
    assert Run(merged, []) == merged;
    assert Run(rebased, [Merge(m)]) == merged;
    assert Run(st, [Rebase(m), Merge(m)]) == merged;
  }

  /** Merging an empty delta over and over raises the version as far as wanted. */
  lemma {:induction false} Climbs(st: State, m: string, domain: string, n: nat)
    requires m in st.deltas && st.deltas[m] == EmptyDelta(domain, st.deltas[m].baseVersion)
    requires domain in st.domains && IsDomainId(domain)
    requires st.domains[domain].id == domain && 0 < st.domains[domain].version
    requires st.domains[domain].version + n <= U32_MAX
    ensures var spec, after := st.domains[domain], Run(st, Climb(m, n));
      && after.domains == st.domains[domain := spec.(version := spec.version + n)]
      && forall k :: k in st.deltas && k != m ==> k in after.deltas && after.deltas[k] == st.deltas[k]
    decreases n
  {
    if n > 0 {
      ClimbStep(st, m, domain);
      Climbs(Run(st, [Rebase(m), Merge(m)]), m, domain, n - 1);
      RunJoins(st, [Rebase(m), Merge(m)], Climb(m, n - 1));
    } else {
      assert Run(st, []) == st;
    }
  }

  /** The deltas that make two merge from one base: "1" and "2" are the rivals, "3" sets the
      domain back from the file `n`, and "4" climbs. */
  function Spoilers(domains: map<string, DomainSpec>, domain: string, base: nat, n: string): map<string, Delta>
    requires n in domains
  {
    map["1" := EmptyDelta(domain, base), "2" := EmptyDelta(domain, base),
        "3" := EmptyDelta(n, domains[n].version), "4" := EmptyDelta(domain, base)]
  }

  /** At the maximal version, or if the file of the domain holds another id, the second merges
      right after the first. */
  lemma UnguardedMergesAtOnce(domains: map<string, DomainSpec>, domain: string, base: nat)
    requires State(domains, map[]).Valid() && Mergeable(domains, domain, base)
    requires base == U32_MAX || domains[domain].id != domain
    ensures !MergesOnce(domains, domain, base)
  {
    var deltas := Spoilers(domains, domain, base, domain);
    var st := State(domains, deltas);
    EmptyDeltaMerges(st, "1");
    EmptyDeltaMerges(Apply(st, Merge("1")), "2");
    assert Rivals(st, domain, base, "1", "2");
    assert Run(Apply(st, Merge("1")), []) == Apply(st, Merge("1"));
    assert Rebase("2") !in [];
  }

  /** Merging "1" and then "3" leaves the domain one version above the file behind it. */
  lemma SetsBack(domains: map<string, DomainSpec>, domain: string, base: nat, n: string)
    requires Mergeable(domains, domain, base) && domains[domain].id == domain
    requires WritesTo(domains, n, domain) && domains[n].version < base < U32_MAX
    ensures var st := State(domains, Spoilers(domains, domain, base, n));
      var setBack := Apply(Apply(st, Merge("1")), Merge("3"));
      && Succeeds(st, Merge("1")) && setBack.deltas == st.deltas
      && domain in setBack.domains && setBack.domains[domain].id == domain
      && setBack.domains[domain].version == domains[n].version + 1
  {
    var st := State(domains, Spoilers(domains, domain, base, n));
    EmptyDeltaMerges(st, "1");
    EmptyDeltaMerges(Apply(st, Merge("1")), "3");
  }

  /** A file that writes to the domain from behind sets it back, and it can climb to the base again. */
  lemma FileBehindReopens(domains: map<string, DomainSpec>, domain: string, base: nat, n: string)
    returns (ops: seq<Op>)
    requires State(domains, map[]).Valid() && Mergeable(domains, domain, base) && base < U32_MAX
    requires domains[domain].id == domain && WritesTo(domains, n, domain) && domains[n].version < base
    ensures var st := State(domains, Spoilers(domains, domain, base, n));
      && Rivals(st, domain, base, "1", "2") && Rebase("2") !in ops
      && Succeeds(Run(Apply(st, Merge("1")), ops), Merge("2"))
  {
    var st := State(domains, Spoilers(domains, domain, base, n));
    SetsBack(domains, domain, base, n);
    SpoilersAreRivals(domains, domain, base, n);
    ops := ClimbsBack(Apply(st, Merge("1")), "3", "4", "2", domain, base);
  }

  /** Once `back` has set the domain back, `climber` leads to the base of `m` again. */
  lemma ClimbsBack(st: State, back: string, climber: string, m: string, domain: string, base: nat)
    returns (ops: seq<Op>)
    requires var setBack := Apply(st, Merge(back));
      && m in setBack.deltas && setBack.deltas[m] == EmptyDelta(domain, base)
      && climber in setBack.deltas && climber != m
      && setBack.deltas[climber] == EmptyDelta(domain, setBack.deltas[climber].baseVersion)
      && domain in setBack.domains && IsDomainId(domain) && setBack.domains[domain].id == domain
      && 0 < setBack.domains[domain].version <= base <= U32_MAX
    ensures Rebase(m) !in ops && Succeeds(Run(st, ops), Merge(m))
  {
    var setBack := Apply(st, Merge(back));
    var n := base - setBack.domains[domain].version;
    Climbs(setBack, climber, domain, n);
    ops := [Merge(back)] + Climb(climber, n);
    ClimbIsOf(climber, n);
    RunUnfolds(st, Merge(back), Climb(climber, n));
    EmptyDeltaMerges(Run(setBack, Climb(climber, n)), m);
  }

  lemma RunUnfolds(st: State, op: Op, ops: seq<Op>)
    ensures Run(st, [op] + ops) == Run(Apply(st, op), ops)
  {
    assert ([op] + ops)[1..] == ops;
  }

  lemma SpoilersAreRivals(domains: map<string, DomainSpec>, domain: string, base: nat, n: string)
    requires State(domains, map[]).Valid() && Mergeable(domains, domain, base) && n in domains
    ensures Rivals(State(domains, Spoilers(domains, domain, base, n)), domain, base, "1", "2")
  {
    EmptyDeltaMerges(State(domains, Spoilers(domains, domain, base, n)), "1");
  }

  /** Two deltas on one base of a domain never both merge without a rebase, over all deltas and
      all runs, exactly if none can merge at all, or: the base is below the maximal version, the
      file of the domain holds its own id, and no other file that holds it is behind the base. */
  lemma MergesOnceIffGuarded(domains: map<string, DomainSpec>, domain: string, base: nat)
    requires State(domains, map[]).Valid()
    ensures MergesOnce(domains, domain, base) <==>
      (Mergeable(domains, domain, base) ==> Guarded(domains, domain, base))
  {
    if Mergeable(domains, domain, base) && !Guarded(domains, domain, base) {
      if base < U32_MAX && domains[domain].id == domain {
        var n :| WritesTo(domains, n, domain) && domains[n].version < base;
        var ops := FileBehindReopens(domains, domain, base, n);
        assert !MergesOnce(domains, domain, base);
      } else {
        UnguardedMergesAtOnce(domains, domain, base);
      }
    } else {
      forall deltas, first, second, ops |
        Rivals(State(domains, deltas), domain, base, first, second) && Rebase(second) !in ops
        ensures !Succeeds(Run(Apply(State(domains, deltas), Merge(first)), ops), Merge(second))
      {
        assert Mergeable(domains, domain, base);
        NoSecondMerge(State(domains, deltas), domain, base, first, second, ops);
      }
    }
  }

  /** While b.json, at version 4, holds the id "a" too, a delta on "b" sets "a" back, and a delta on
      "a" merges twice from version 5. */
  lemma ForeignSpecSetsBack() returns (st: State)
    ensures st.Valid() && "a" in st.domains && st.domains["a"].id == "a"
    ensures Succeeds(st, Merge("1")) && Succeeds(Run(st, [Merge("1"), Merge("2")]), Merge("1"))
  {
    var d, e := Delta("delta", "a", 5, [], [], []), Delta("delta", "b", 4, [], [], []);
    st := State(map["a" := DomainSpec("a", 5, []), "b" := DomainSpec("a", 4, [])], map["1" := d, "2" := e]);
    assert MergedRequirements([], d) == Some([]) && MergedRequirements([], e) == Some([]);
    assert MergedSpec(st, d) == Some(DomainSpec("a", 6, []));
    var once := Apply(st, Merge("1"));
    assert MergedSpec(once, e) == Some(DomainSpec("a", 5, []));
    var twice := Apply(once, Merge("2"));
    assert MergedSpec(twice, d) == Some(DomainSpec("a", 6, []));
    assert [Merge("1"), Merge("2")][1..] == [Merge("2")] && [Merge("2")][1..] == [];
    assert Run(once, [Merge("2")]) == twice;
  }

  /** At version 5 b.json is harmless. */
  lemma FileAbreastIsHarmless()
    ensures MergesOnce(map["a" := DomainSpec("a", 5, []), "b" := DomainSpec("a", 5, [])], "a", 5)
  {
    MergesOnceIffGuarded(map["a" := DomainSpec("a", 5, []), "b" := DomainSpec("a", 5, [])], "a", 5);
  }

  /** At the maximal version the version saturates, and an empty delta merges twice. */
  lemma SaturatedVersionMergesTwice() returns (st: State)
    ensures st.Valid() && "a" in st.domains && st.domains["a"].id == "a"
    ensures Succeeds(st, Merge("1")) && Succeeds(Apply(st, Merge("1")), Merge("1"))
  {
    var d := Delta("delta", "a", U32_MAX, [], [], []);
    st := State(map["a" := DomainSpec("a", U32_MAX, [])], map["1" := d]);
    assert MergedRequirements([], d) == Some([]);
    assert MergedSpec(st, d) == Some(st.domains["a"]);
  }

  // ---------- How long a rebase lasts ----------

  /** Some merge of the run writes the file of `domain`. */
  predicate Moved(st: State, ops: seq<Op>, domain: string)
    decreases ops
  {
    ops != [] && (
      || (ops[0].Merge? && Succeeds(st, ops[0]) && MergedSpec(st, st.deltas[ops[0].milestone]).value.id == domain)
      || Moved(Apply(st, ops[0]), ops[1..], domain))
  }

  lemma {:induction false} CurrentUntilMoved(st: State, m: string, ops: seq<Op>)
    requires st.Valid() && Current(st, m) && !Moved(st, ops, st.deltas[m].domain)
    ensures Current(Run(st, ops), m)
    decreases ops
  {
    if ops != [] {
      StepKeepsValid(st, ops[0]);
      CurrentUntilMoved(Apply(st, ops[0]), m, ops[1..]);
    }
  }

  lemma MoveMakesStale(st: State, m: string, op: Op)
    requires st.Valid() && Current(st, m) && op.Merge? && Succeeds(st, op)
    requires MergedSpec(st, st.deltas[op.milestone]).value.id == st.deltas[m].domain
    requires NoneBehind(st.domains, st.deltas[m].domain, st.deltas[m].baseVersion)
    requires st.deltas[m].baseVersion < U32_MAX
    ensures st.deltas[m].baseVersion < Apply(st, op).domains[st.deltas[m].domain].version
  {
    assert WritesTo(st.domains, st.deltas[op.milestone].domain, st.deltas[m].domain);
  }

  lemma {:induction false} MovedIsStale(st: State, m: string, ops: seq<Op>)
    requires st.Valid() && Current(st, m) && st.deltas[m].baseVersion < U32_MAX
    requires NoneBehind(st.domains, st.deltas[m].domain, st.deltas[m].baseVersion)
    requires Rebase(m) !in ops && Moved(st, ops, st.deltas[m].domain)
    ensures !Current(Run(st, ops), m)
    decreases ops
  {
    var after := Apply(st, ops[0]);
    assert ops[0] in ops;
    StepKeepsValid(st, ops[0]);
    StepKeepsNoneBehind(st, ops[0], st.deltas[m].domain, st.deltas[m].baseVersion);
    if Current(after, m) {
      if ops[0].Merge? && Succeeds(st, ops[0]) &&
         MergedSpec(st, st.deltas[ops[0].milestone]).value.id == st.deltas[m].domain {
        MoveMakesStale(st, m, ops[0]);
      }
      MovedIsStale(after, m, ops[1..]);
    } else {
      MoveMakesStale(st, m, ops[0]);
      StaleStaysStale(after, m, ops[1..]);
    }
  }

  /** After a rebase the version gate passes through any run until some merge writes that domain;
      below the maximal version, and with no file behind, exactly until then. */
  lemma RebasedUntilMoved(st: State, m: string, ops: seq<Op>)
    requires st.Valid() && Succeeds(st, Rebase(m)) && Rebase(m) !in ops
    ensures var domain, after := st.deltas[m].domain, Apply(st, Rebase(m));
      var base := st.domains[domain].version;
      && (!Moved(after, ops, domain) ==> Current(Run(after, ops), m))
      && (NoneBehind(st.domains, domain, base) && base < U32_MAX ==>
           (Current(Run(after, ops), m) <==> !Moved(after, ops, domain)))
  {
    var domain, after := st.deltas[m].domain, Apply(st, Rebase(m));
    var base := st.domains[domain].version;
    StepKeepsValid(st, Rebase(m));
    if !Moved(after, ops, domain) {
      CurrentUntilMoved(after, m, ops);
    } else if NoneBehind(st.domains, domain, base) && base < U32_MAX {
      MovedIsStale(after, m, ops);
    }
  }
}
