/** What a delta does to the requirements of a domain spec (crates/mp/src/delta.rs). */
module DeltaEdits {
  import opened Prelude
  import opened Text

  datatype Requirement = Requirement(id: string, statement: string, scenarios: seq<string>)

  datatype DomainSpec = DomainSpec(id: string, version: nat, requirements: seq<Requirement>)

  datatype Modified = Modified(target: string, after: string)

  datatype Delta = Delta(
    changeKind: string, domain: string, baseVersion: nat,
    added: seq<Requirement>, modified: seq<Modified>, removed: seq<string>)
  {
    predicate IsDeltaKind() {
      changeKind == "delta" || domain != ""
    }
  }

  predicate IsDomainId(s: string) {
    s != "" && 'a' <= s[0] <= 'z' && forall c :: c in s ==> 'a' <= c <= 'z' || IsDigit(c) || c == '-'
  }

  // ---------- Requirement ids ----------

  function ReqNumber(id: string): Option<nat> {
    if "REQ-" <= id then ParseU32(id[4..]) else None
  }

  function MaxReqNumber(reqs: seq<Requirement>): (m: nat)
    ensures m <= U32_MAX
    ensures forall i :: 0 <= i < |reqs| && ReqNumber(reqs[i].id).Some? ==> ReqNumber(reqs[i].id).value <= m
  {
    if reqs == [] then 0
    else
      var front, last := MaxReqNumber(reqs[..|reqs| - 1]), ReqNumber(reqs[|reqs| - 1].id);
      assert forall i :: 0 <= i < |reqs| - 1 ==> reqs[i] == reqs[..|reqs| - 1][i];
      if last.Some? && last.value > front then last.value else front
  }

  /** next_req_id, with the addition wrapping as in a release build. */
  function NextReqId(reqs: seq<Requirement>): string {
    "REQ-" + PadTwo(WrappingIncrement(MaxReqNumber(reqs)))
  }

  function WrappingIncrement(n: nat): nat {
    if n == U32_MAX then 0 else n + 1
  }

  predicate HasId(reqs: seq<Requirement>, id: string) {
    exists i :: 0 <= i < |reqs| && reqs[i].id == id
  }

  lemma GeneratedNumber(n: nat)
    requires n <= U32_MAX
    ensures ReqNumber("REQ-" + PadTwo(n)) == Some(n)
    ensures n == 0 ==> "REQ-" + PadTwo(n) == "REQ-00"
  {
    PadTwoParses(n);
    assert ("REQ-" + PadTwo(n))[4..] == PadTwo(n);
    if n == 0 {
      assert Decimal(0) == [DigitChar(0)] == "0";
      assert PadTwo(0) == "00";
    }
  }

  lemma LargerNumberIsNew(reqs: seq<Requirement>, id: string)
    requires ReqNumber(id).Some? && ReqNumber(id).value > MaxReqNumber(reqs)
    ensures !HasId(reqs, id)
  {}

  lemma NumbersLeft(reqs: seq<Requirement>)
    requires MaxReqNumber(reqs) < U32_MAX
    ensures !HasId(reqs, NextReqId(reqs))
  {
    GeneratedNumber(MaxReqNumber(reqs) + 1);
    LargerNumberIsNew(reqs, "REQ-" + PadTwo(MaxReqNumber(reqs) + 1));
  }

  lemma NumbersUsedUp(reqs: seq<Requirement>)
    requires MaxReqNumber(reqs) == U32_MAX
    ensures NextReqId(reqs) == "REQ-00"
  {
    GeneratedNumber(0);
  }

  lemma {:induction false} LargestNumberOccurs(reqs: seq<Requirement>)
    ensures MaxReqNumber(reqs) > 0 ==>
      exists i :: 0 <= i < |reqs| && ReqNumber(reqs[i].id) == Some(MaxReqNumber(reqs))
  {
    if reqs != [] {
      var front := reqs[..|reqs| - 1];
      LargestNumberOccurs(front);
      if MaxReqNumber(reqs) == MaxReqNumber(front) > 0 {
        var i :| 0 <= i < |front| && ReqNumber(front[i].id) == Some(MaxReqNumber(front));
        assert reqs[i] == front[i];
      } else if MaxReqNumber(reqs) > 0 {
        assert ReqNumber(reqs[|reqs| - 1].id) == Some(MaxReqNumber(reqs));
      }
    }
  }

  /** The generated number is the next after all numbers in use, and the first one is 1. */
  lemma NextReqIdIsNext(reqs: seq<Requirement>)
    requires forall i :: 0 <= i < |reqs| ==> ReqNumber(reqs[i].id) != Some(U32_MAX)
    ensures ReqNumber(NextReqId(reqs)).Some?
    ensures var n := ReqNumber(NextReqId(reqs)).value;
      && n > 0
      && (forall i :: 0 <= i < |reqs| && ReqNumber(reqs[i].id).Some? ==> ReqNumber(reqs[i].id).value < n)
      && (n > 1 ==> exists i :: 0 <= i < |reqs| && ReqNumber(reqs[i].id) == Some(n - 1))
  {
    LargestNumberOccurs(reqs);
    GeneratedNumber(WrappingIncrement(MaxReqNumber(reqs)));
  }

  /** A generated id is new unless the numbers are used up and "REQ-00" is taken. */
  lemma NextReqIdIsFresh(reqs: seq<Requirement>)
    ensures HasId(reqs, NextReqId(reqs)) <==> MaxReqNumber(reqs) == U32_MAX && HasId(reqs, "REQ-00")
  {
    if MaxReqNumber(reqs) < U32_MAX {
      NumbersLeft(reqs);
    } else {
      NumbersUsedUp(reqs);
    }
  }

  // ---------- The edits as functions ----------

  /** `retain(|r| r.id != target)` */
  function Without(reqs: seq<Requirement>, target: string): seq<Requirement> {
    if reqs == [] then []
    else
      var front := Without(reqs[..|reqs| - 1], target);
      if reqs[|reqs| - 1].id != target then front + [reqs[|reqs| - 1]] else front
  }

  function WithoutAll(reqs: seq<Requirement>, removed: seq<string>): seq<Requirement> {
    if removed == [] then reqs
    else Without(WithoutAll(reqs, removed[..|removed| - 1]), removed[|removed| - 1])
  }

  /** The first requirement with the id, as `iter_mut().find` finds it. */
  function FirstWithId(reqs: seq<Requirement>, id: string): (r: Option<nat>)
    ensures r.None? <==> !HasId(reqs, id)
    ensures r.Some? ==> r.value < |reqs| && reqs[r.value].id == id && forall i :: 0 <= i < r.value ==> reqs[i].id != id
  {
    if reqs == [] then None
    else if reqs[0].id == id then
      assert HasId(reqs, id);
      Some(0)
    else match FirstWithId(reqs[1..], id)
      case None =>
        assert forall i :: 0 < i < |reqs| ==> reqs[i] == reqs[1..][i - 1];
        None
      case Some(i) =>
        assert reqs[i + 1].id == id;
        Some(i + 1)
  }

  function SetStatement(reqs: seq<Requirement>, m: Modified): Option<seq<Requirement>> {
    match FirstWithId(reqs, m.target)
    case None => None
    case Some(i) => Some(reqs[i := reqs[i].(statement := m.after)])
  }

  function SetStatements(reqs: seq<Requirement>, mods: seq<Modified>): Option<seq<Requirement>> {
    if mods == [] then Some(reqs)
    else match SetStatements(reqs, mods[..|mods| - 1])
      case None => None
      case Some(r) => SetStatement(r, mods[|mods| - 1])
  }

  function WithId(reqs: seq<Requirement>, a: Requirement): Requirement {
    if a.id == "" then a.(id := NextReqId(reqs)) else a
  }

  function AddOne(reqs: seq<Requirement>, a: Requirement): Option<seq<Requirement>> {
    if HasId(reqs, WithId(reqs, a).id) then None else Some(reqs + [WithId(reqs, a)])
  }

  function AddAll(reqs: seq<Requirement>, added: seq<Requirement>): Option<seq<Requirement>> {
    if added == [] then Some(reqs)
    else match AddAll(reqs, added[..|added| - 1])
      case None => None
      case Some(r) => AddOne(r, added[|added| - 1])
  }

  function MergedRequirements(reqs: seq<Requirement>, d: Delta): Option<seq<Requirement>> {
    match SetStatements(WithoutAll(reqs, d.removed), d.modified)
    case None => None
    case Some(r) => AddAll(r, d.added)
  }

  // ---------- What the edits mean ----------

  predicate DistinctIds(reqs: seq<Requirement>) {
    forall i, j :: 0 <= i < j < |reqs| ==> reqs[i].id != reqs[j].id
  }

  /** The last statement that `mods` gives to `r`, or its own. */
  function Amended(r: Requirement, mods: seq<Modified>): Requirement {
    if mods == [] then r
    else if mods[|mods| - 1].target == r.id then r.(statement := mods[|mods| - 1].after)
    else Amended(r, mods[..|mods| - 1])
  }

  /** The requirements that are not removed, in their order. */
  function Kept(reqs: seq<Requirement>, removed: seq<string>): seq<Requirement> {
    if reqs == [] then []
    else
      var front := Kept(reqs[..|reqs| - 1], removed);
      if reqs[|reqs| - 1].id in removed then front else front + [reqs[|reqs| - 1]]
  }

  lemma {:induction false} WithoutOne(reqs: seq<Requirement>, removed: seq<string>, target: string)
    ensures Without(Kept(reqs, removed), target) == Kept(reqs, removed + [target])
  {
    if reqs != [] {
      var front, last := Kept(reqs[..|reqs| - 1], removed), reqs[|reqs| - 1];
      WithoutOne(reqs[..|reqs| - 1], removed, target);
      assert (front + [last])[..|front|] == front;
    }
  }

  lemma {:induction false} KeptAll(reqs: seq<Requirement>)
    ensures Kept(reqs, []) == reqs
  {
    if reqs != [] {
      KeptAll(reqs[..|reqs| - 1]);
    }
  }

  lemma {:induction false} WithoutAllIsKept(reqs: seq<Requirement>, removed: seq<string>)
    ensures WithoutAll(reqs, removed) == Kept(reqs, removed)
  {
    if removed == [] {
      KeptAll(reqs);
    } else {
      var front, last := removed[..|removed| - 1], removed[|removed| - 1];
      WithoutAllIsKept(reqs, front);
      WithoutOne(reqs, front, last);
      assert front + [last] == removed;
    }
  }

  /** No earlier requirement has the same id. */
  predicate IsFirst(reqs: seq<Requirement>, i: nat)
    requires i < |reqs|
  {
    forall j :: 0 <= j < i ==> reqs[j].id != reqs[i].id
  }

  /** Of each id the first requirement is amended. */
  function AmendedAll(reqs: seq<Requirement>, mods: seq<Modified>): (r: seq<Requirement>)
    ensures |r| == |reqs|
    ensures forall i :: 0 <= i < |r| ==> r[i] == if IsFirst(reqs, i) then Amended(reqs[i], mods) else reqs[i]
  {
    seq(|reqs|, i requires 0 <= i < |reqs| => if IsFirst(reqs, i) then Amended(reqs[i], mods) else reqs[i])
  }

  lemma {:induction false} AmendedKeepsId(r: Requirement, mods: seq<Modified>)
    ensures Amended(r, mods).id == r.id && Amended(r, mods).scenarios == r.scenarios
    ensures (forall m :: m in mods ==> m.target != r.id) ==> Amended(r, mods) == r
  {
    if mods != [] {
      AmendedKeepsId(r, mods[..|mods| - 1]);
      assert mods[|mods| - 1] in mods;
    }
  }

  lemma AmendedAllKeepsIds(reqs: seq<Requirement>, mods: seq<Modified>)
    ensures forall i :: 0 <= i < |reqs| ==> AmendedAll(reqs, mods)[i].id == reqs[i].id
    ensures forall id :: HasId(AmendedAll(reqs, mods), id) <==> HasId(reqs, id)
    ensures DistinctIds(AmendedAll(reqs, mods)) <==> DistinctIds(reqs)
  {
    var t := AmendedAll(reqs, mods);
    forall i | 0 <= i < |reqs| ensures t[i].id == reqs[i].id {
      AmendedKeepsId(reqs[i], mods);
    }
    forall id ensures HasId(t, id) <==> HasId(reqs, id) {
      SameIdsFound(reqs, t, id);
    }
    SameIdsFound(reqs, t, "");
    SameIdsFound(t, reqs, "");
  }

  /** The modifications succeed exactly when every target is there, and then give the first
      requirement of each id its last statement and leave everything else in place. */
  lemma {:induction false} SetStatementsMeans(reqs: seq<Requirement>, mods: seq<Modified>)
    ensures SetStatements(reqs, mods).Some? <==> forall m :: m in mods ==> HasId(reqs, m.target)
    ensures SetStatements(reqs, mods).Some? ==> SetStatements(reqs, mods).value == AmendedAll(reqs, mods)
  {
    if mods == [] {
      assert AmendedAll(reqs, mods) == reqs;
    } else {
      var front, last := mods[..|mods| - 1], mods[|mods| - 1];
      SetStatementsMeans(reqs, front);
      assert forall m :: m in mods <==> m in front || m == last;
      if SetStatements(reqs, front).Some? {
        AmendedAllKeepsIds(reqs, front);
        var t := AmendedAll(reqs, front);
        var at := FirstWithId(t, last.target);
        if at.Some? {
          OneMoreAmended(reqs, mods, at.value);
        }
      }
    }
  }

  lemma OneMoreAmended(reqs: seq<Requirement>, mods: seq<Modified>, at: nat)
    requires mods != [] && at < |reqs| && IsFirst(reqs, at) && reqs[at].id == mods[|mods| - 1].target
    ensures var t := AmendedAll(reqs, mods[..|mods| - 1]);
      t[at := t[at].(statement := mods[|mods| - 1].after)] == AmendedAll(reqs, mods)
  {
    var front, last := mods[..|mods| - 1], mods[|mods| - 1];
    var t := AmendedAll(reqs, front);
    AmendedKeepsId(reqs[at], front);
    var r := t[at := t[at].(statement := last.after)];
    forall i | 0 <= i < |reqs| ensures r[i] == AmendedAll(reqs, mods)[i] {
      assert i != at && IsFirst(reqs, i) ==> reqs[i].id != last.target;
    }
  }

  lemma SameIdsFound(a: seq<Requirement>, b: seq<Requirement>, id: string)
    requires |a| == |b| && forall i :: 0 <= i < |a| ==> a[i].id == b[i].id
    ensures HasId(a, id) <==> HasId(b, id)
    ensures DistinctIds(a) ==> DistinctIds(b)
  {
    if HasId(a, id) {
      var i :| 0 <= i < |a| && a[i].id == id;
      assert b[i].id == id;
    }
    if HasId(b, id) {
      var i :| 0 <= i < |b| && b[i].id == id;
      assert a[i].id == id;
    }
  }

  /** `out` is `r` with the statement that the last modification of its id gives it, if any does. */
  ghost predicate IsAmended(r: Requirement, mods: seq<Modified>, out: Requirement) {
    && out.id == r.id && out.scenarios == r.scenarios
    && if forall m :: m in mods ==> m.target != r.id then out.statement == r.statement
       else exists j :: 0 <= j < |mods| && LastFor(mods, j, r.id) && out.statement == mods[j].after
  }

  predicate LastFor(mods: seq<Modified>, j: nat, id: string)
    requires j < |mods|
  {
    mods[j].target == id && forall k :: j < k < |mods| ==> mods[k].target != id
  }

  lemma {:induction false} AmendedIff(r: Requirement, mods: seq<Modified>, out: Requirement)
    ensures IsAmended(r, mods, out) <==> out == Amended(r, mods)
  {
    if mods == [] {
      SameFields(r, out);
    } else if mods[|mods| - 1].target == r.id {
      LastDecides(r, mods, out);
    } else {
      AmendedIff(r, mods[..|mods| - 1], out);
      SameLast(r, mods, out);
    }
  }

  lemma SameFields(r: Requirement, out: Requirement)
    ensures IsAmended(r, [], out) <==> out == r
  {}

  lemma LastDecides(r: Requirement, mods: seq<Modified>, out: Requirement)
    requires mods != [] && mods[|mods| - 1].target == r.id
    ensures IsAmended(r, mods, out) <==> out == r.(statement := mods[|mods| - 1].after)
  {
    LastOne(mods, r.id);
  }

  lemma LastOne(mods: seq<Modified>, id: string)
    requires mods != [] && mods[|mods| - 1].target == id
    ensures forall j :: 0 <= j < |mods| ==> (LastFor(mods, j, id) <==> j == |mods| - 1)
    ensures exists m :: m in mods && m.target == id
  {
    assert mods[|mods| - 1] in mods;
  }

  lemma SameLast(r: Requirement, mods: seq<Modified>, out: Requirement)
    requires mods != [] && mods[|mods| - 1].target != r.id
    ensures IsAmended(r, mods, out) <==> IsAmended(r, mods[..|mods| - 1], out)
  {
    var n := |mods| - 1;
    var front := mods[..n];
    assert mods == front + [mods[n]];
    forall j | 0 <= j < n ensures LastFor(mods, j, r.id) <==> LastFor(front, j, r.id) {
      assert mods[j] == front[j];
      if LastFor(front, j, r.id) {
        forall k | j < k < |mods| ensures mods[k].target != r.id {
          assert k < n ==> mods[k] == front[k];
        }
      }
      if LastFor(mods, j, r.id) {
        forall k | j < k < n ensures front[k].target != r.id {
          assert mods[k] == front[k];
        }
      }
    }
  }

  /** `item` is `a`, under its id or else the next free one, and that id is new. */
  predicate IsAddition(before: seq<Requirement>, a: Requirement, item: Requirement) {
    && item.statement == a.statement && item.scenarios == a.scenarios
    && item.id == (if a.id == "" then NextReqId(before) else a.id)
    && !HasId(before, item.id)
  }

  /** The additions follow one by one. */
  ghost predicate IsExtension(reqs: seq<Requirement>, added: seq<Requirement>, r: seq<Requirement>) {
    && reqs <= r && |r| == |reqs| + |added|
    && forall i :: 0 <= i < |added| ==> IsAddition(r[..|reqs| + i], added[i], r[|reqs| + i])
  }

  lemma {:induction false} AddAllIff(reqs: seq<Requirement>, added: seq<Requirement>, r: seq<Requirement>)
    ensures AddAll(reqs, added) == Some(r) <==> IsExtension(reqs, added, r)
    decreases |added|
  {
    if added != [] {
      var n := |added| - 1;
      if IsExtension(reqs, added, r) {
        ExtensionShrinks(reqs, added, r);
        AddAllIff(reqs, added[..n], r[..|r| - 1]);
        assert r == r[..|r| - 1] + [r[|r| - 1]];
      }
      if AddAll(reqs, added) == Some(r) {
        AddAllIff(reqs, added[..n], AddAll(reqs, added[..n]).value);
        ExtensionGrows(reqs, added, AddAll(reqs, added[..n]).value, r);
      }
    } else {
      assert reqs <= r && |r| == |reqs| ==> r == reqs;
    }
  }

  lemma ExtensionShrinks(reqs: seq<Requirement>, added: seq<Requirement>, r: seq<Requirement>)
    requires added != [] && IsExtension(reqs, added, r)
    ensures IsExtension(reqs, added[..|added| - 1], r[..|r| - 1])
    ensures IsAddition(r[..|r| - 1], added[|added| - 1], r[|r| - 1])
  {
    var front, n := r[..|r| - 1], |added| - 1;
    forall i | 0 <= i < n ensures IsAddition(front[..|reqs| + i], added[..n][i], front[|reqs| + i]) {
      assert front[..|reqs| + i] == r[..|reqs| + i];
    }
    assert IsAddition(r[..|reqs| + n], added[n], r[|reqs| + n]);
  }

  lemma ExtensionGrows(reqs: seq<Requirement>, added: seq<Requirement>, front: seq<Requirement>, r: seq<Requirement>)
    requires added != [] && IsExtension(reqs, added[..|added| - 1], front)
    requires |r| == |front| + 1 && r[..|front|] == front && IsAddition(front, added[|added| - 1], r[|front|])
    ensures IsExtension(reqs, added, r)
  {
    var n := |added| - 1;
    forall i | 0 <= i < |added| ensures IsAddition(r[..|reqs| + i], added[i], r[|reqs| + i]) {
      if i < n {
        assert r[..|reqs| + i] == front[..|reqs| + i] && added[..n][i] == added[i];
        assert IsAddition(front[..|reqs| + i], added[..n][i], front[|reqs| + i]);
      }
    }
  }

  ghost predicate Increasing(at: seq<nat>) {
    forall i, j :: 0 <= i < j < |at| ==> at[i] < at[j]
  }

  /** `at` holds the places of the requirements whose id is not removed. */
  ghost predicate ArePlaces(reqs: seq<Requirement>, removed: seq<string>, at: seq<nat>) {
    forall j: nat :: j in at <==> j < |reqs| && reqs[j].id !in removed
  }

  ghost predicate HoldsThose(reqs: seq<Requirement>, kept: seq<Requirement>, at: seq<nat>) {
    |at| == |kept| && forall i :: 0 <= i < |at| ==> at[i] < |reqs| && kept[i] == reqs[at[i]]
  }

  /** `kept` is what is left of `reqs`, in order. */
  ghost predicate IsRemainder(reqs: seq<Requirement>, removed: seq<string>, kept: seq<Requirement>, at: seq<nat>) {
    Increasing(at) && ArePlaces(reqs, removed, at) && HoldsThose(reqs, kept, at)
  }

  lemma {:induction false} KeptIsRemainder(reqs: seq<Requirement>, removed: seq<string>) returns (at: seq<nat>)
    ensures IsRemainder(reqs, removed, Kept(reqs, removed), at)
  {
    if reqs == [] {
      at := [];
    } else {
      var n := |reqs| - 1;
      var front := KeptIsRemainder(reqs[..n], removed);
      PlacesOfFront(reqs, removed, front);
      KeptOfFront(reqs, Kept(reqs[..n], removed), front);
      at := if reqs[n].id in removed then front else front + [n];
    }
  }

  lemma KeptOfFront(reqs: seq<Requirement>, kept: seq<Requirement>, at: seq<nat>)
    requires reqs != [] && HoldsThose(reqs[..|reqs| - 1], kept, at)
    ensures HoldsThose(reqs, kept, at) && HoldsThose(reqs, kept + [reqs[|reqs| - 1]], at + [|reqs| - 1])
  {
    forall i | 0 <= i < |at| ensures at[i] < |reqs| && kept[i] == reqs[at[i]] {}
  }

  lemma PlacesOfFront(reqs: seq<Requirement>, removed: seq<string>, at: seq<nat>)
    requires reqs != [] && Increasing(at) && ArePlaces(reqs[..|reqs| - 1], removed, at)
    ensures var n := |reqs| - 1;
      if reqs[n].id in removed then ArePlaces(reqs, removed, at)
      else ArePlaces(reqs, removed, at + [n]) && Increasing(at + [n])
  {
    var n := |reqs| - 1;
    forall i | 0 <= i < |at| ensures at[i] < n {
      assert at[i] in at;
    }
    forall j: nat ensures j in at + [n] <==> j in at || j == n {}
    forall j: nat ensures j in at <==> j < n && reqs[j].id !in removed {
      assert j < n ==> reqs[..n][j] == reqs[j];
    }
  }

  lemma {:induction false} RemainderIsKept(reqs: seq<Requirement>, removed: seq<string>, kept: seq<Requirement>,
      at: seq<nat>)
    requires IsRemainder(reqs, removed, kept, at)
    ensures kept == Kept(reqs, removed)
    decreases |reqs|
  {
    assert at != [] ==> at[0] in at;
    if reqs == [] {
      assert kept == [];
    } else if reqs[|reqs| - 1].id in removed {
      SamePlaces(reqs, removed, kept, at);
      RemainderIsKept(reqs[..|reqs| - 1], removed, kept, at);
    } else {
      LastPlace(reqs, removed, kept, at);
      RemainderIsKept(reqs[..|reqs| - 1], removed, kept[..|kept| - 1], at[..|at| - 1]);
      assert kept == kept[..|kept| - 1] + [reqs[|reqs| - 1]];
    }
  }

  lemma SamePlaces(reqs: seq<Requirement>, removed: seq<string>, kept: seq<Requirement>, at: seq<nat>)
    requires reqs != [] && IsRemainder(reqs, removed, kept, at) && reqs[|reqs| - 1].id in removed
    ensures IsRemainder(reqs[..|reqs| - 1], removed, kept, at)
  {
    var n := |reqs| - 1;
    forall i | 0 <= i < |at| ensures at[i] < n && kept[i] == reqs[..n][at[i]] {
      assert at[i] in at;
    }
    forall j: nat ensures j in at <==> j < n && reqs[..n][j].id !in removed {}
  }

  lemma LastPlace(reqs: seq<Requirement>, removed: seq<string>, kept: seq<Requirement>, at: seq<nat>)
    requires reqs != [] && IsRemainder(reqs, removed, kept, at) && reqs[|reqs| - 1].id !in removed
    ensures at != [] && at[|at| - 1] == |reqs| - 1 && kept[|kept| - 1] == reqs[|reqs| - 1]
    ensures IsRemainder(reqs[..|reqs| - 1], removed, kept[..|kept| - 1], at[..|at| - 1])
  {
    var n := |reqs| - 1;
    assert n in at && at[|at| - 1] in at;
    var k :| 0 <= k < |at| && at[k] == n;
    assert k == |at| - 1;
    var front := at[..k];
    forall j: nat ensures j in front <==> j < n && reqs[..n][j].id !in removed {
      InFront(at, j);
    }
    forall i | 0 <= i < k ensures at[i] < n && kept[i] == reqs[..n][at[i]] {}
  }

  lemma InFront(at: seq<nat>, j: nat)
    requires at != [] && Increasing(at)
    ensures j in at[..|at| - 1] <==> j in at && j < at[|at| - 1]
  {
    if j in at {
      var i :| 0 <= i < |at| && at[i] == j;
      assert i < |at| - 1 ==> at[..|at| - 1][i] == j;
    }
  }

  /** What a merge makes of `reqs`: those not removed, in their order, the first of each id as
      amended; then the additions, each under a new id. */
  ghost predicate IsMerge(reqs: seq<Requirement>, d: Delta, r: seq<Requirement>) {
    exists kept, at ::
      && IsRemainder(reqs, d.removed, kept, at)
      && (forall m :: m in d.modified ==> HasId(kept, m.target))
      && IsAmendedAndExtended(kept, d, r)
  }

  ghost predicate IsAmendedAndExtended(kept: seq<Requirement>, d: Delta, r: seq<Requirement>) {
    && |kept| <= |r|
    && (forall i :: 0 <= i < |kept| ==>
         if IsFirst(kept, i) then IsAmended(kept[i], d.modified, r[i]) else r[i] == kept[i])
    && IsExtension(r[..|kept|], d.added, r)
  }

  lemma AmendedAllIff(kept: seq<Requirement>, mods: seq<Modified>, r: seq<Requirement>)
    requires |r| == |kept|
    ensures r == AmendedAll(kept, mods) <==> forall i :: 0 <= i < |kept| ==>
      if IsFirst(kept, i) then IsAmended(kept[i], mods, r[i]) else r[i] == kept[i]
  {
    forall i | 0 <= i < |kept| ensures IsAmended(kept[i], mods, r[i]) <==> r[i] == Amended(kept[i], mods) {
      AmendedIff(kept[i], mods, r[i]);
    }
  }

  lemma AmendedAndExtendedIff(kept: seq<Requirement>, d: Delta, r: seq<Requirement>)
    ensures IsAmendedAndExtended(kept, d, r) <==> AddAll(AmendedAll(kept, d.modified), d.added) == Some(r)
  {
    var amended := AmendedAll(kept, d.modified);
    AddAllIff(amended, d.added, r);
    if IsExtension(amended, d.added, r) {
      assert r[..|kept|] == amended;
      AmendedAllIff(kept, d.modified, amended);
    }
    if IsAmendedAndExtended(kept, d, r) {
      AmendedAllIff(kept, d.modified, r[..|kept|]);
    }
  }

  /** The program's merge succeeds exactly if there is a list that is the merge, and yields it. */
  lemma MergeIff(reqs: seq<Requirement>, d: Delta, r: seq<Requirement>)
    ensures MergedRequirements(reqs, d) == Some(r) <==> IsMerge(reqs, d, r)
  {
    var kept := Kept(reqs, d.removed);
    WithoutAllIsKept(reqs, d.removed);
    SetStatementsMeans(kept, d.modified);
    AmendedAndExtendedIff(kept, d, r);
    if MergedRequirements(reqs, d) == Some(r) {
      var at := KeptIsRemainder(reqs, d.removed);
      assert IsMerge(reqs, d, r);
    }
    if IsMerge(reqs, d, r) {
      MergeIsOfKept(reqs, d, r);
    }
  }

  lemma MergeIsOfKept(reqs: seq<Requirement>, d: Delta, r: seq<Requirement>)
    requires IsMerge(reqs, d, r)
    ensures forall m :: m in d.modified ==> HasId(Kept(reqs, d.removed), m.target)
    ensures IsAmendedAndExtended(Kept(reqs, d.removed), d, r)
  {
    var kept: seq<Requirement>, at: seq<nat> :|
      && IsRemainder(reqs, d.removed, kept, at)
      && (forall m :: m in d.modified ==> HasId(kept, m.target))
      && IsAmendedAndExtended(kept, d, r);
    RemainderIsKept(reqs, d.removed, kept, at);
  }

  lemma RemainderKeepsDistinct(reqs: seq<Requirement>, removed: seq<string>, kept: seq<Requirement>, at: seq<nat>)
    requires IsRemainder(reqs, removed, kept, at) && DistinctIds(reqs)
    ensures DistinctIds(kept)
  {
    forall i, j | 0 <= i < j < |kept| ensures kept[i].id != kept[j].id {
      assert kept[i] == reqs[at[i]] && kept[j] == reqs[at[j]] && at[i] < at[j];
    }
  }

  /** Distinct ids stay distinct. */
  lemma MergeKeepsDistinct(reqs: seq<Requirement>, d: Delta, r: seq<Requirement>)
    requires IsMerge(reqs, d, r) && DistinctIds(reqs)
    ensures DistinctIds(r)
  {
    var kept: seq<Requirement>, at: seq<nat> :|
      IsRemainder(reqs, d.removed, kept, at) && IsAmendedAndExtended(kept, d, r);
    RemainderKeepsDistinct(reqs, d.removed, kept, at);
    forall i | 0 <= i < |kept| ensures r[i].id == kept[i].id {}
    forall i, j | 0 <= i < j < |r| ensures r[i].id != r[j].id {
      if j >= |kept| {
        NewIdDiffers(r, |kept|, d.added, i, j);
      }
    }
  }

  lemma NewIdDiffers(r: seq<Requirement>, n: nat, added: seq<Requirement>, i: nat, j: nat)
    requires n <= |r| && IsExtension(r[..n], added, r) && i < j < |r| && n <= j
    ensures r[i].id != r[j].id
  {
    assert IsAddition(r[..n + (j - n)], added[j - n], r[n + (j - n)]);
    assert r[..j][i] == r[i];
  }

  // ---------- The loops ----------

  /** The modification and addition loops of the merge. */
  method EditRequirements(kept: seq<Requirement>, d: Delta) returns (r: Option<seq<Requirement>>)
    ensures r == match SetStatements(kept, d.modified) case None => None case Some(t) => AddAll(t, d.added)
  {
    r := Modify(kept, d.modified);
    if r.Some? {
      r := Append(r.value, d.added);
    }
  }

  method Modify(kept: seq<Requirement>, mods: seq<Modified>) returns (r: Option<seq<Requirement>>)
    ensures r == SetStatements(kept, mods)
  {
    var reqs := kept;
    for i := 0 to |mods|
      invariant SetStatements(kept, mods[..i]) == Some(reqs)
    {
      assert mods[..i + 1][..i] == mods[..i];
      var next := SetStatement(reqs, mods[i]);
      if next.None? {
        SetStatementsStuck(kept, mods, i + 1);
        return None;
      }
      reqs := next.value;
    }
    assert mods[..|mods|] == mods;
    return Some(reqs);
  }

  method Append(amended: seq<Requirement>, added: seq<Requirement>) returns (r: Option<seq<Requirement>>)
    ensures r == AddAll(amended, added)
  {
    var reqs := amended;
    for i := 0 to |added|
      invariant AddAll(amended, added[..i]) == Some(reqs)
    {
      assert added[..i + 1][..i] == added[..i];
      var item := WithId(reqs, added[i]);
      if HasId(reqs, item.id) {
        AddAllStuck(amended, added, i + 1);
        return None;
      }
      reqs := reqs + [item];
    }
    assert added[..|added|] == added;
    return Some(reqs);
  }

  lemma {:induction false} SetStatementsStuck(reqs: seq<Requirement>, mods: seq<Modified>, i: nat)
    requires i <= |mods| && SetStatements(reqs, mods[..i]).None?
    ensures SetStatements(reqs, mods).None?
    decreases |mods|
  {
    if i == |mods| {
      assert mods[..i] == mods;
    } else {
      assert mods[..|mods| - 1][..i] == mods[..i];
      SetStatementsStuck(reqs, mods[..|mods| - 1], i);
    }
  }

  lemma {:induction false} AddAllStuck(reqs: seq<Requirement>, added: seq<Requirement>, i: nat)
    requires i <= |added| && AddAll(reqs, added[..i]).None?
    ensures AddAll(reqs, added).None?
    decreases |added|
  {
    if i == |added| {
      assert added[..i] == added;
    } else {
      assert added[..|added| - 1][..i] == added[..i];
      AddAllStuck(reqs, added[..|added| - 1], i);
    }
  }
}
