/** Merging versioned deltas into domain specs, and rebasing them (crates/mp/src/delta.rs). */
module DeltaMerge {
  import opened Prelude
  import opened Text
  import opened DeltaEdits

  /** The domain spec files and the deltas of the milestones. */
  datatype State = State(domains: map<string, DomainSpec>, deltas: map<string, Delta>) {
    /** Numbers fit their type. */
    predicate Valid() {
      && (forall n :: n in domains ==> domains[n].version <= U32_MAX)
      && forall m :: m in deltas ==> deltas[m].baseVersion <= U32_MAX
    }
  }

  predicate CanLoad(st: State, domain: string) {
    domain in st.domains && IsDomainId(domain)
  }

  /** No gate finds an error. */
  predicate GatesPass(spec: DomainSpec, d: Delta) {
    && d.baseVersion != 0 && spec.version == d.baseVersion
    && (forall m :: m in d.modified ==> HasId(spec.requirements, m.target))
    && forall t :: t in d.removed ==> HasId(spec.requirements, t)
  }

  function NextVersion(base: nat): nat {
    if base < U32_MAX then base + 1 else U32_MAX
  }

  /** The spec that merging `d` would write. */
  function MergedSpec(st: State, d: Delta): Option<DomainSpec> {
    if !d.IsDeltaKind() || !CanLoad(st, d.domain) || !GatesPass(st.domains[d.domain], d) then None
    else
      var spec := st.domains[d.domain];
      match MergedRequirements(spec.requirements, d)
      case None => None
      case Some(reqs) =>
        if IsDomainId(spec.id)
        then Some(spec.(requirements := reqs, version := NextVersion(d.baseVersion)))
        else None
  }

  datatype Op = Merge(milestone: string) | Rebase(milestone: string)

  predicate Succeeds(st: State, op: Op) {
    op.milestone in st.deltas &&
    var d := st.deltas[op.milestone];
    match op
    case Merge(_) => MergedSpec(st, d).Some?
    case Rebase(_) => d.IsDeltaKind() && CanLoad(st, d.domain)
  }

  function Apply(st: State, op: Op): State {
    if !Succeeds(st, op) then st
    else
      var d := st.deltas[op.milestone];
      match op
      case Merge(_) => st.(domains := st.domains[MergedSpec(st, d).value.id := MergedSpec(st, d).value])
      case Rebase(m) => st.(deltas := st.deltas[m := d.(baseVersion := st.domains[d.domain].version)])
  }

  function Run(st: State, ops: seq<Op>): State
    decreases ops
  {
    if ops == [] then st else Run(Apply(st, ops[0]), ops[1..])
  }

  /** A merge succeeds only from the current version; it writes the file of the stored id, at
      the version after the base, and nothing else. */
  lemma MergeRaisesVersion(st: State, m: string)
    requires Succeeds(st, Merge(m))
    ensures var d, after := st.deltas[m], Apply(st, Merge(m));
      && d.domain in st.domains && st.domains[d.domain].version == d.baseVersion
      && after.domains[st.domains[d.domain].id].version == NextVersion(d.baseVersion)
      && (forall n :: n in st.domains && n != st.domains[d.domain].id ==> after.domains[n] == st.domains[n])
      && after.deltas == st.deltas
  {}

  /** A merge succeeds exactly if the delta names a spec file that loads, its base is the current
      version, everything it removes is there, and what it asks for can be made of the
      requirements; then the file of the stored id holds just that, and all else stays. */
  lemma MergeWrites(st: State, m: string)
    ensures Succeeds(st, Merge(m)) <==>
      && m in st.deltas && st.deltas[m].IsDeltaKind() && CanLoad(st, st.deltas[m].domain)
      && var d, spec := st.deltas[m], st.domains[st.deltas[m].domain];
      && spec.version == d.baseVersion != 0 && IsDomainId(spec.id)
      && (forall t :: t in d.removed ==> HasId(spec.requirements, t))
      && exists r :: IsMerge(spec.requirements, d, r)
    ensures Succeeds(st, Merge(m)) ==>
      var d, spec, after := st.deltas[m], st.domains[st.deltas[m].domain], Apply(st, Merge(m));
      && spec.id in after.domains && IsMerge(spec.requirements, d, after.domains[spec.id].requirements)
      && after.domains[spec.id].id == spec.id
      && (DistinctIds(spec.requirements) ==> DistinctIds(after.domains[spec.id].requirements))
      && (forall n :: n != spec.id ==> (n in after.domains <==> n in st.domains))
      && (forall n :: n in st.domains && n != spec.id ==> after.domains[n] == st.domains[n])
  {
    if m in st.deltas && CanLoad(st, st.deltas[m].domain) {
      var d, spec := st.deltas[m], st.domains[st.deltas[m].domain];
      if MergedRequirements(spec.requirements, d).Some? {
        var r := MergedRequirements(spec.requirements, d).value;
        MergeIff(spec.requirements, d, r);
        if DistinctIds(spec.requirements) {
          MergeKeepsDistinct(spec.requirements, d, r);
        }
      }
      if r :| IsMerge(spec.requirements, d, r) {
        MergeIff(spec.requirements, d, r);
        MergeTargetsListed(spec.requirements, d, r);
      }
    }
  }

  lemma MergeTargetsListed(reqs: seq<Requirement>, d: Delta, r: seq<Requirement>)
    requires IsMerge(reqs, d, r)
    ensures forall m :: m in d.modified ==> HasId(reqs, m.target)
  {
    var kept: seq<Requirement>, at: seq<nat> :|
      IsRemainder(reqs, d.removed, kept, at) && forall m :: m in d.modified ==> HasId(kept, m.target);
    forall m | m in d.modified ensures HasId(reqs, m.target) {
      var i :| 0 <= i < |kept| && kept[i].id == m.target;
      assert reqs[at[i]].id == m.target;
    }
  }

  /** Below the maximal version the same delta merges again at once exactly if the file of its
      domain holds another id: then the merge has been written somewhere else. */
  lemma MergesAgainIffMisnamed(st: State, m: string)
    requires Succeeds(st, Merge(m)) && st.deltas[m].baseVersion < U32_MAX
    ensures Succeeds(Apply(st, Merge(m)), Merge(m)) <==> st.domains[st.deltas[m].domain].id != st.deltas[m].domain
  {
    MergeRaisesVersion(st, m);
    var d, after := st.deltas[m], Apply(st, Merge(m));
    if st.domains[d.domain].id != d.domain {
      assert after.domains[d.domain] == st.domains[d.domain];
      assert MergedSpec(after, d) == MergedSpec(st, d);
    }
  }

  /** The file a.json holds the id "b": its delta merges twice from version 1. */
  lemma MisnamedSpecMergesTwice() returns (st: State)
    ensures st.Valid() && "1" in st.deltas && st.deltas["1"].baseVersion == 1
    ensures Succeeds(st, Merge("1")) && Succeeds(Apply(st, Merge("1")), Merge("1"))
  {
    var d := Delta("delta", "a", 1, [], [], []);
    st := State(map["a" := DomainSpec("b", 1, [])], map["1" := d]);
    assert MergedRequirements([], d) == Some([]);
    assert MergedSpec(st, d) == Some(DomainSpec("b", 2, []));
    MergesAgainIffMisnamed(st, "1");
  }

  // ---------- The operations ----------

  datatype GateError = G11 | G12(target: string) | G13

  class DeltaStore {
    var domains: map<string, DomainSpec>
    var deltas: map<string, Delta>

    constructor (st: State)
      ensures Contents() == st
    {
      domains, deltas := st.domains, st.deltas;
    }

    function Contents(): State
      reads this
    {
      State(domains, deltas)
    }

    /** validate_delta_milestone: no error exactly when the milestone is no delta at all, or
        its domain loads and every gate passes. */
    method ValidateDelta(d: Delta) returns (errors: seq<GateError>)
      ensures errors == [] <==> !d.IsDeltaKind() || (CanLoad(Contents(), d.domain) && GatesPass(domains[d.domain], d))
    {
      errors := [];
      if !d.IsDeltaKind() {
        return;
      }
      if d.domain == "" || d.domain !in domains || !IsDomainId(d.domain) {
        return [G11];
      }
      var spec := domains[d.domain];
      if d.baseVersion == 0 {
        errors := errors + [G11];
      }
      if spec.version != d.baseVersion {
        errors := errors + [G13];
      }
      ghost var versionErrors := errors;
      for i := 0 to |d.modified|
        invariant errors == [] <==>
          versionErrors == [] && forall k :: 0 <= k < i ==> HasId(spec.requirements, d.modified[k].target)
      {
        if !HasId(spec.requirements, d.modified[i].target) {
          errors := errors + [G12(d.modified[i].target)];
        }
      }
      ghost var targetErrors := errors;
      for i := 0 to |d.removed|
        invariant errors == [] <==>
          targetErrors == [] && forall k :: 0 <= k < i ==> HasId(spec.requirements, d.removed[k])
      {
        if !HasId(spec.requirements, d.removed[i]) {
          errors := errors + [G12(d.removed[i])];
        }
      }
    }

    /** merge_delta_into_domain: edits a copy of the spec and writes it at the end, or nothing. */
    method MergeDelta(milestone: string) returns (ok: bool)
      modifies this`domains
      ensures ok == Succeeds(old(Contents()), Merge(milestone))
      ensures Contents() == Apply(old(Contents()), Merge(milestone))
    {
      if milestone !in deltas || !deltas[milestone].IsDeltaKind() {
        return false;
      }
      var d := deltas[milestone];
      var errors := ValidateDelta(d);
      if errors != [] {
        return false;
      }
      var spec := domains[d.domain];
      var reqs := spec.requirements;
      for i := 0 to |d.removed|
        invariant reqs == WithoutAll(spec.requirements, d.removed[..i])
      {
        assert d.removed[..i + 1][..i] == d.removed[..i];
        reqs := Without(reqs, d.removed[i]);
      }
      assert d.removed[..|d.removed|] == d.removed;
      var edited := EditRequirements(reqs, d);
      if edited.None? || !IsDomainId(spec.id) {
        return false;
      }
      domains := domains[spec.id := spec.(requirements := edited.value, version := NextVersion(d.baseVersion))];
      return true;
    }

    /** delta_rebase */
    method RebaseDelta(milestone: string) returns (ok: bool)
      modifies this`deltas
      ensures ok == Succeeds(old(Contents()), Rebase(milestone))
      ensures Contents() == Apply(old(Contents()), Rebase(milestone))
    {
      if milestone !in deltas {
        return false;
      }
      var d := deltas[milestone];
      if !d.IsDeltaKind() || d.domain == "" || d.domain !in domains || !IsDomainId(d.domain) {
        return false;
      }
      deltas := deltas[milestone := d.(baseVersion := domains[d.domain].version)];
      return true;
    }
  }
}
