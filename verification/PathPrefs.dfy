/** The order of ready milestones: a stable sort, the pins, the focus
    (crates/mp/src/path_prefs.rs).

    The program has these steps twice, on cloned milestones and on indices into the list of
    milestones. Here they are written once, over any item type with a view of the milestone
    that an item stands for; the two forms are the instances `m => m` and `i => milestones[i]`. */
module PathPrefs {
  import opened Prelude
  import opened MilestoneIds
  import opened Sorting

  datatype MilestoneFile = MilestoneFile(id: string, executionStatus: string, priority: string)

  datatype AdoptionOrder = AdoptionOrder(milestone: string, before: string)

  datatype ExecutionConfig = ExecutionConfig(
    strategy: string, adoptionOrder: seq<AdoptionOrder>, focusMilestone: string)

  const USIZE_MAX := 0xFFFF_FFFF_FFFF_FFFF

  // ---------- The comparator ----------

  function PriorityRank(priority: string): nat {
    match priority
    case "urgent" => 4
    case "high" => 3
    case "normal" => 2
    case "low" => 1
    case _ => 2
  }

  predicate IsActive(m: MilestoneFile) {
    m.executionStatus == "in-progress"
  }

  /** The first index at which `key` yields `wanted`. */
  function FirstIndex<T>(s: seq<T>, key: T -> string, wanted: string): (r: Option<nat>)
    ensures r.Some? ==> r.value < |s| && key(s[r.value]) == wanted
    ensures r.Some? ==> forall i :: 0 <= i < r.value ==> key(s[i]) != wanted
    ensures r.None? ==> forall i :: 0 <= i < |s| ==> key(s[i]) != wanted
  {
    if s == [] then None
    else if key(s[0]) == wanted then Some(0)
    else match FirstIndex(s[1..], key, wanted)
      case None => None
      case Some(i) => Some(i + 1)
  }

  function BaselinePosition(id: string, baseline: seq<string>): nat {
    match FirstIndex(baseline, x => x, id)
    case Some(i) => i
    case None => USIZE_MAX
  }

  /** compare_milestones(a, b) is not Greater. */
  predicate CompareLe(a: MilestoneFile, b: MilestoneFile, baseline: seq<string>, strategy: string) {
    if IsActive(a) != IsActive(b) then IsActive(a)
    else if strategy in {"priority_first", "resume_then_ready"} && PriorityRank(a.priority) != PriorityRank(b.priority)
    then PriorityRank(a.priority) > PriorityRank(b.priority)
    else BaselinePosition(Normalize(a.id), baseline) <= BaselinePosition(Normalize(b.id), baseline)
  }

  ghost function Comparator(baseline: seq<string>, strategy: string): (MilestoneFile, MilestoneFile) -> bool {
    (a, b) => CompareLe(a, b, baseline, strategy)
  }

  /** What the sort relies on. */
  lemma ComparatorIsTotalPreorder(baseline: seq<string>, strategy: string)
    ensures TotalPreorder(Comparator(baseline, strategy))
  {
    var le := Comparator(baseline, strategy);
    forall a, b, c | le(a, b) && le(b, c) ensures le(a, c) {
      CompareTransitive(a, b, c, baseline, strategy);
    }
  }

  lemma CompareTransitive(a: MilestoneFile, b: MilestoneFile, c: MilestoneFile,
      baseline: seq<string>, strategy: string)
    requires CompareLe(a, b, baseline, strategy) && CompareLe(b, c, baseline, strategy)
    ensures CompareLe(a, c, baseline, strategy)
  {}

  /** The priorities from first to last; whatever is none of them counts as normal. */
  const PRIORITIES: seq<string> := ["urgent", "high", "normal", "low"]

  predicate Outranks(a: string, b: string) {
    exists i, j :: 0 <= i < j < |PRIORITIES| && a == PRIORITIES[i] && b == PRIORITIES[j]
  }

  /** `a` is in the baseline, and `b` does not come at or before its first place. */
  ghost predicate ListedBefore(baseline: seq<string>, a: string, b: string) {
    exists i :: 0 <= i < |baseline| && baseline[i] == a && b !in baseline[..i + 1]
  }

  predicate ByPriority(strategy: string) {
    strategy == "priority_first" || strategy == "resume_then_ready"
  }

  /** `a` comes strictly before `b`. */
  predicate Precedes(a: MilestoneFile, b: MilestoneFile, baseline: seq<string>, strategy: string) {
    CompareLe(a, b, baseline, strategy) && !CompareLe(b, a, baseline, strategy)
  }

  /** What is in progress comes first; then, under the two strategies by priority, the more urgent;
      the baseline decides the rest. */
  lemma ComparatorOrder(a: MilestoneFile, b: MilestoneFile, baseline: seq<string>, strategy: string)
    requires |baseline| <= USIZE_MAX
    ensures a.executionStatus == "in-progress" && b.executionStatus != "in-progress" ==>
      Precedes(a, b, baseline, strategy)
    ensures IsActive(a) == IsActive(b) && ByPriority(strategy) && Outranks(a.priority, b.priority) ==>
      Precedes(a, b, baseline, strategy)
    ensures IsActive(a) == IsActive(b) && (!ByPriority(strategy) || a.priority == b.priority) ==>
      (Precedes(a, b, baseline, strategy) <==> ListedBefore(baseline, Normalize(a.id), Normalize(b.id)))
    ensures a.priority !in PRIORITIES ==>
      (CompareLe(a, b, baseline, strategy) <==> CompareLe(a.(priority := "normal"), b, baseline, strategy))
  {
    OutranksIsRanked(a.priority, b.priority);
    OtherIsNormal(a.priority);
    if IsActive(a) == IsActive(b) && (!ByPriority(strategy) || a.priority == b.priority) {
      ListedIff(baseline, Normalize(a.id), Normalize(b.id));
    }
  }

  lemma OutranksIsRanked(p: string, q: string)
    ensures Outranks(p, q) ==> PriorityRank(p) > PriorityRank(q)
  {
    if Outranks(p, q) {
      var i, j :| 0 <= i < j < |PRIORITIES| && p == PRIORITIES[i] && q == PRIORITIES[j];
      RankAt(i);
      RankAt(j);
    }
  }

  lemma RankAt(i: nat)
    requires i < |PRIORITIES|
    ensures PriorityRank(PRIORITIES[i]) == 4 - i
  {}

  lemma OtherIsNormal(p: string)
    ensures p !in PRIORITIES ==> PriorityRank(p) == PriorityRank("normal")
  {
    assert PRIORITIES[0] == "urgent" && PRIORITIES[1] == "high" && PRIORITIES[2] == "normal" && PRIORITIES[3] == "low";
  }

  lemma ListedIff(baseline: seq<string>, a: string, b: string)
    requires |baseline| <= USIZE_MAX
    ensures ListedBefore(baseline, a, b) <==> BaselinePosition(a, baseline) < BaselinePosition(b, baseline)
  {
    var i, j := FirstIndex(baseline, x => x, a), FirstIndex(baseline, x => x, b);
    if ListedBefore(baseline, a, b) {
      var k :| 0 <= k < |baseline| && baseline[k] == a && b !in baseline[..k + 1];
      assert i.Some? && i.value <= k;
      forall m | 0 <= m <= k ensures baseline[m] != b {
        assert baseline[m] in baseline[..k + 1];
      }
    }
    if BaselinePosition(a, baseline) < BaselinePosition(b, baseline) {
      assert i.Some?;
      forall k | 0 <= k <= i.value ensures baseline[k] != b {
        assert j.None? || k < j.value;
      }
      assert b !in baseline[..i.value + 1];
    }
  }

  // ---------- The list operations ----------

  function RemoveAt<T>(s: seq<T>, i: nat): seq<T>
    requires i < |s|
  {
    s[..i] + s[i + 1..]
  }

  function InsertAt<T>(s: seq<T>, i: nat, x: T): seq<T>
    requires i <= |s|
  {
    s[..i] + [x] + s[i..]
  }

  /** One pin: nothing happens unless both milestones are in the list and differ. */
  function ApplyPin<T>(s: seq<T>, key: T -> string, mid: string, before: string): seq<T> {
    var from, to := FirstIndex(s, key, mid), FirstIndex(s, key, before);
    if before == "" || from.None? || to.None? || from == to then s
    else
      var at := if from.value < to.value then to.value - 1 else to.value;
      InsertAt(RemoveAt(s, from.value), at, s[from.value])
  }

  function ApplyPins<T>(s: seq<T>, key: T -> string, orders: seq<AdoptionOrder>, norm: string -> string): seq<T> {
    if orders == [] then s
    else
      var last := orders[|orders| - 1];
      ApplyPin(ApplyPins(s, key, orders[..|orders| - 1], norm), key, norm(last.milestone), norm(last.before))
  }

  function CountIf<T>(s: seq<T>, p: T -> bool): (n: nat)
    ensures n <= |s|
  {
    if s == [] then 0 else (if p(s[0]) then 1 else 0) + CountIf(s[1..], p)
  }

  function ApplyFocus<T>(s: seq<T>, key: T -> string, active: T -> bool, focus: string, norm: string -> string): seq<T>
  {
    if focus == "" then s
    else match FirstIndex(s, key, norm(focus))
      case None => []
      case Some(i) =>
        var rest := RemoveAt(s, i);
        var activeCount := CountIf(rest[..if i < |rest| then i else |rest|], active);
        InsertAt(rest, activeCount, s[i])
  }

  /** How the steps see an item. */
  datatype View<!T> = View(file: T -> MilestoneFile) {
    function Key(): T -> string { (x: T) => Normalize(file(x).id) }
    function Active(): T -> bool { (x: T) => IsActive(file(x)) }
    function Le(baseline: seq<string>, strategy: string): (T, T) -> bool {
      (x: T, y: T) => CompareLe(file(x), file(y), baseline, strategy)
    }

    function Sorted(ready: seq<T>, baseline: seq<string>, exec: ExecutionConfig): seq<T> {
      var sorted := StableSort(ready, Le(baseline, exec.strategy));
      var pinned := ApplyPins(sorted, Key(), exec.adoptionOrder, Normalize);
      ApplyFocus(pinned, Key(), Active(), exec.focusMilestone, Normalize)
    }
  }

  /** The vector that is sorted in place. */
  class ReadyList<T(0)> {
    var items: seq<T>

    constructor (items: seq<T>)
      ensures this.items == items
    {
      this.items := items;
    }

    /** sort_ready_milestones and sort_ready_milestone_indices */
    method SortReady(view: View<T>, baseline: seq<string>, exec: ExecutionConfig)
      modifies this
      ensures items == view.Sorted(old(items), baseline, exec)
    {
      items := StableSort(items, view.Le(baseline, exec.strategy));
      ApplyAdoptionOrder(view.Key(), exec.adoptionOrder, Normalize);
      ApplyFocusTo(view.Key(), view.Active(), exec.focusMilestone, Normalize);
    }

    /** apply_adoption_order: the list is taken out, edited pin by pin, and put back. */
    method ApplyAdoptionOrder(key: T -> string, orders: seq<AdoptionOrder>, norm: string -> string)
      modifies this
      ensures items == ApplyPins(old(items), key, orders, norm)
    {
      var vec := items;
      items := [];
      for n := 0 to |orders|
        invariant vec == ApplyPins(old(items), key, orders[..n], norm)
      {
        assert orders[..n + 1][..n] == orders[..n];
        vec := MoveBefore(vec, key, norm(orders[n].milestone), norm(orders[n].before));
      }
      assert orders[..|orders|] == orders;
      items := vec;
    }

    /** apply_focus: the list is put back only when the focused milestone was found. */
    method ApplyFocusTo(key: T -> string, active: T -> bool, focus: string, norm: string -> string)
      modifies this
      ensures items == ApplyFocus(old(items), key, active, focus, norm)
    {
      if focus == "" {
        return;
      }
      var focusId := norm(focus);
      var vec := items;
      items := [];
      var idx := FirstIndex(vec, key, focusId);
      if idx.Some? {
        var item := vec[idx.value];
        vec := RemoveAt(vec, idx.value);
        var activeCount, k := 0, 0;
        while k < idx.value && k < |vec|
          invariant 0 <= k <= idx.value && k <= |vec|
          invariant activeCount == CountIf(vec[..k], active)
        {
          CountNext(vec, k, active);
          if active(vec[k]) {
            activeCount := activeCount + 1;
          }
          k := k + 1;
        }
        items := InsertAt(vec, activeCount, item);
      }
    }
  }

  /** The body of the pin loop. */
  method MoveBefore<T>(items: seq<T>, key: T -> string, mid: string, before: string) returns (vec: seq<T>)
    ensures vec == ApplyPin(items, key, mid, before)
  {
    vec := items;
    if before == "" {
      return;
    }
    var fromIdx, beforeIdx := FirstIndex(vec, key, mid), FirstIndex(vec, key, before);
    if fromIdx.Some? && beforeIdx.Some? && fromIdx != beforeIdx {
      var from, to := fromIdx.value, beforeIdx.value;
      var item := vec[from];
      vec := RemoveAt(vec, from);
      vec := InsertAt(vec, if from < to then to - 1 else to, item);
    }
  }

  lemma {:induction false} CountNext<T>(s: seq<T>, k: nat, p: T -> bool)
    requires k < |s|
    ensures CountIf(s[..k + 1], p) == CountIf(s[..k], p) + if p(s[k]) then 1 else 0
  {
    if k > 0 {
      CountNext(s[1..], k - 1, p);
      assert s[..k + 1][1..] == s[1..][..k] && s[..k][1..] == s[1..][..k - 1];
    }
  }

  // ---------- What the steps do ----------

  lemma InsertCounts<T>(s: seq<T>, at: nat, x: T)
    requires at <= |s|
    ensures multiset(InsertAt(s, at, x)) == multiset(s) + multiset{x}
    ensures RemoveAt(InsertAt(s, at, x), at) == s
  {
    var front, back := s[..at], s[at..];
    assert s == front + back;
    assert multiset(front + [x] + back) == multiset(front) + multiset{x} + multiset(back);
    assert InsertAt(s, at, x)[..at] == front && InsertAt(s, at, x)[at + 1..] == back;
  }

  lemma MoveKeepsItems<T>(s: seq<T>, from: nat, at: nat)
    requires from < |s| && at < |s|
    ensures multiset(InsertAt(RemoveAt(s, from), at, s[from])) == multiset(s)
    ensures RemoveAt(InsertAt(RemoveAt(s, from), at, s[from]), at) == RemoveAt(s, from)
  {
    InsertCounts(RemoveAt(s, from), at, s[from]);
    InsertCounts(RemoveAt(s, from), from, s[from]);
    ReinsertRemoved(s, from);
  }

  /** An applied pin lands directly before its target, and all others keep their order. */
  lemma PinLands<T>(s: seq<T>, key: T -> string, mid: string, before: string) returns (from: nat, at: nat)
    requires before != "" && mid != before
    requires FirstIndex(s, key, mid).Some? && FirstIndex(s, key, before).Some?
    ensures from < |s| && key(s[from]) == mid && forall j :: 0 <= j < from ==> key(s[j]) != mid
    ensures at < |s| && forall j :: 0 <= j < at ==> key(RemoveAt(s, from)[j]) != before
    ensures var r := ApplyPin(s, key, mid, before);
      && at + 1 < |r| == |s| && r[at] == s[from]
      && r[at + 1] == s[FirstIndex(s, key, before).value] && key(r[at + 1]) == before
      && RemoveAt(r, at) == RemoveAt(s, from)
  {
    var to := FirstIndex(s, key, before).value;
    from := FirstIndex(s, key, mid).value;
    at := if from < to then to - 1 else to;
    MoveKeepsItems(s, from, at);
    var r := InsertAt(RemoveAt(s, from), at, s[from]);
    assert r[at + 1] == RemoveAt(s, from)[at] == s[to];
    forall j | 0 <= j < at ensures key(RemoveAt(s, from)[j]) != before {
      assert RemoveAt(s, from)[j] == s[if j < from then j else j + 1];
    }
  }

  lemma {:induction false} PinsPermute<T>(s: seq<T>, key: T -> string, orders: seq<AdoptionOrder>,
      norm: string -> string)
    ensures multiset(ApplyPins(s, key, orders, norm)) == multiset(s)
  {
    if orders != [] {
      var front, last := orders[..|orders| - 1], orders[|orders| - 1];
      PinsPermute(s, key, front, norm);
      var t := ApplyPins(s, key, front, norm);
      var from, to := FirstIndex(t, key, norm(last.milestone)), FirstIndex(t, key, norm(last.before));
      if norm(last.before) != "" && from.Some? && to.Some? && from != to {
        MoveKeepsItems(t, from.value, if from.value < to.value then to.value - 1 else to.value);
      }
    }
  }

  /** The focus step keeps the items exactly when no focus is set, the focused milestone is
      in the list, or the list was empty; otherwise it drops them all. */
  lemma FocusPermutes<T>(s: seq<T>, key: T -> string, active: T -> bool, focus: string, norm: string -> string)
    ensures multiset(ApplyFocus(s, key, active, focus, norm)) == multiset(s) <==>
      focus == "" || s == [] || FirstIndex(s, key, norm(focus)).Some?
    ensures focus != "" && FirstIndex(s, key, norm(focus)).None? ==> ApplyFocus(s, key, active, focus, norm) == []
  {
    if focus != "" {
      var i := FirstIndex(s, key, norm(focus));
      if i.Some? {
        var rest := RemoveAt(s, i.value);
        MoveKeepsItems(s, i.value, CountIf(rest[..if i.value < |rest| then i.value else |rest|], active));
      } else if s != [] {
        assert s[0] in multiset(s);
      }
    }
  }

  ghost predicate ActiveFirst<T>(s: seq<T>, active: T -> bool) {
    forall i, j :: 0 <= i < j < |s| && active(s[j]) ==> active(s[i])
  }

  lemma {:induction false} CountPrefix<T>(s: seq<T>, p: T -> bool, k: nat)
    requires ActiveFirst(s, p) && k <= |s|
    requires forall i :: 0 <= i < k ==> p(s[i])
    requires k < |s| ==> !p(s[k])
    ensures CountIf(s, p) == k
  {
    if s != [] {
      if k == 0 {
        CountPrefix(s[1..], p, 0);
      } else {
        CountPrefix(s[1..], p, k - 1);
      }
    }
  }

  /** The focus moves up to the place that counts the active milestones before it, and the rest
      keep their order. Where the active milestones come first an active focus stays; an inactive
      one then lands directly behind all of them, and exactly then. */
  lemma FocusLands<T>(s: seq<T>, key: T -> string, active: T -> bool, focus: string, norm: string -> string)
    returns (i: nat, k: nat)
    requires focus != "" && FirstIndex(s, key, norm(focus)).Some?
    ensures i < |s| && key(s[i]) == norm(focus) && forall j :: 0 <= j < i ==> key(s[j]) != norm(focus)
    ensures k == CountIf(s[..i], active) <= i
    ensures var r := ApplyFocus(s, key, active, focus, norm);
      && |r| == |s| && r[k] == s[i] && RemoveAt(r, k) == RemoveAt(s, i)
      && (active(s[i]) && ActiveFirst(s, active) ==> r == s)
      && (!active(s[i]) ==> (ActiveFirst(s, active) <==> forall j :: 0 <= j < |r| ==> (active(r[j]) <==> j < k)))
  {
    i := FirstIndex(s, key, norm(focus)).value;
    var rest := RemoveAt(s, i);
    assert rest[..i] == s[..i];
    k := CountIf(s[..i], active);
    MoveKeepsItems(s, i, k);
    if ActiveFirst(s, active) {
      var first := 0;
      while first < i && active(s[first])
        invariant 0 <= first <= i
        invariant forall j :: 0 <= j < first ==> active(s[j])
      {
        first := first + 1;
      }
      CountPrefix(s[..i], active, first);
      MovedBehindActive(s, active, i, k);
    } else if !active(s[i]) {
      MovedApart(s, active, i, k);
    }
  }

  lemma MovedApart<T>(s: seq<T>, active: T -> bool, i: nat, k: nat)
    requires !ActiveFirst(s, active) && k <= i < |s|
    requires !active(s[i])
    ensures var r := InsertAt(RemoveAt(s, i), k, s[i]);
      |r| == |s| && exists j :: 0 <= j < |r| && (active(r[j]) <==> j >= k)
  {
    var r := InsertAt(RemoveAt(s, i), k, s[i]);
    assert r == s[..k] + [s[i]] + s[k..i] + s[i + 1..];
    if forall j :: 0 <= j < |r| ==> (active(r[j]) <==> j < k) {
      forall j | 0 <= j < |s| ensures active(s[j]) <==> j < k {
        assert j < k ==> s[j] == r[j];
        assert k <= j < i ==> s[j] == r[j + 1];
        assert j > i ==> s[j] == r[j];
      }
      assert false;
    }
  }

  lemma FirstIndexIs<T>(s: seq<T>, key: T -> string, i: nat)
    requires i < |s| && forall j :: 0 <= j < i ==> key(s[j]) != key(s[i])
    ensures FirstIndex(s, key, key(s[i])) == Some(i)
  {}

  /** A pin can put an inactive milestone "p" before the active one "a"; the focus "f" then
      lands between them. */
  lemma FocusBeforeActive(key: string -> string, active: string -> bool, sorted: seq<string>)
    requires sorted == ["a", "p", "f"] && key == (x => x) && active == (x => x == "a")
    ensures ActiveFirst(sorted, active)
    ensures ApplyPin(sorted, key, "p", "a") == ["p", "a", "f"]
    ensures ApplyFocus(["p", "a", "f"], key, active, "f", key) == ["p", "f", "a"]
  {
    FirstIndexIs(sorted, key, 0);
    FirstIndexIs(sorted, key, 1);
    var pinned := ["p", "a", "f"];
    FirstIndexIs(pinned, key, 2);
    var rest := RemoveAt(pinned, 2);
    assert rest[..2] == ["p", "a"];
    CountNext(rest, 1, active);
    CountNext(rest, 0, active);
    assert InsertAt(rest, 1, "f") == ["p", "f", "a"];
  }

  lemma MovedBehindActive<T>(s: seq<T>, active: T -> bool, i: nat, k: nat)
    requires ActiveFirst(s, active) && k <= i < |s|
    requires (forall j :: 0 <= j < k ==> active(s[j])) && (k < i ==> !active(s[k]))
    ensures var r := InsertAt(RemoveAt(s, i), k, s[i]);
      && |r| == |s| && r[k] == s[i]
      && (active(s[i]) ==> r == s)
      && (!active(s[i]) ==> forall j :: 0 <= j < |r| ==> (active(r[j]) <==> j < k))
  {
    var r := InsertAt(RemoveAt(s, i), k, s[i]);
    assert r == s[..k] + [s[i]] + s[k..i] + s[i + 1..];
    if !active(s[i]) {
      forall j | 0 <= j < |r| ensures active(r[j]) <==> j < k {
        if k < j <= i {
          assert r[j] == s[j - 1];
        } else if j > i {
          assert r[j] == s[j];
        }
      }
    }
  }

  lemma ComparatorPutsActiveFirst(s: seq<MilestoneFile>, baseline: seq<string>, strategy: string)
    ensures ActiveFirst(StableSort(s, Comparator(baseline, strategy)), IsActive)
  {
    ComparatorIsTotalPreorder(baseline, strategy);
    StableSortSorted(s, Comparator(baseline, strategy));
  }

  // ---------- The whole step ----------

  lemma LeIsTotalPreorder<T(!new)>(view: View<T>, baseline: seq<string>, strategy: string)
    ensures TotalPreorder(view.Le(baseline, strategy))
  {
    ComparatorIsTotalPreorder(baseline, strategy);
    var le, c := view.Le(baseline, strategy), Comparator(baseline, strategy);
    forall x, y ensures le(x, y) || le(y, x) {
      assert c(view.file(x), view.file(y)) || c(view.file(y), view.file(x));
    }
    forall x, y, z | le(x, y) && le(y, z) ensures le(x, z) {
      assert c(view.file(x), view.file(y)) && c(view.file(y), view.file(z));
    }
  }

  ghost predicate Lists<T>(s: seq<T>, key: T -> string, id: string) {
    exists i :: 0 <= i < |s| && key(s[i]) == id
  }

  /** Item `from`, the first milestone `mid`, has moved to directly before the first milestone
      `before`, at `at`; all others keep their order. */
  ghost predicate MovedBefore<T>(s: seq<T>, r: seq<T>, key: T -> string, mid: string, before: string,
      from: nat, at: nat)
  {
    && from < |s| && key(s[from]) == mid && (forall j :: 0 <= j < from ==> key(s[j]) != mid)
    && at + 1 < |r| == |s| && r[at] == s[from]
    && key(r[at + 1]) == before && (forall j :: 0 <= j < at ==> key(r[j]) != before)
    && RemoveAt(r, at) == RemoveAt(s, from)
  }

  /** A pin between two different listed milestones moves the one; any other changes nothing. */
  ghost predicate PinApplied<T>(s: seq<T>, r: seq<T>, key: T -> string, mid: string, before: string) {
    if before != "" && mid != before && Lists(s, key, mid) && Lists(s, key, before)
    then exists from, at :: MovedBefore(s, r, key, mid, before, from, at)
    else r == s
  }

  lemma PinIsApplied<T>(s: seq<T>, key: T -> string, mid: string, before: string)
    ensures PinApplied(s, ApplyPin(s, key, mid, before), key, mid, before)
  {
    if before != "" && mid != before && Lists(s, key, mid) && Lists(s, key, before) {
      var from, at := PinLands(s, key, mid, before);
      MovedAsPinned(s, ApplyPin(s, key, mid, before), key, mid, before, from, at);
    } else if Lists(s, key, mid) && Lists(s, key, before) {
      assert before == "" || FirstIndex(s, key, mid) == FirstIndex(s, key, before);
    }
  }

  lemma MovedAsPinned<T>(s: seq<T>, r: seq<T>, key: T -> string, mid: string, before: string, from: nat, at: nat)
    requires from < |s| && key(s[from]) == mid && forall j :: 0 <= j < from ==> key(s[j]) != mid
    requires at < |s| && forall j :: 0 <= j < at ==> key(RemoveAt(s, from)[j]) != before
    requires at + 1 < |r| == |s| && r[at] == s[from] && key(r[at + 1]) == before
    requires RemoveAt(r, at) == RemoveAt(s, from)
    ensures MovedBefore(s, r, key, mid, before, from, at)
  {
    forall j | 0 <= j < at ensures key(r[j]) != before {
      assert r[j] == RemoveAt(r, at)[j];
    }
  }

  /** The focused milestone, item `i`, has moved up to the place that counts the active ones
      before it; an absent focus empties the list. */
  ghost predicate FocusApplied<T>(s: seq<T>, r: seq<T>, key: T -> string, active: T -> bool, focus: string) {
    if Lists(s, key, focus)
    then exists i: nat, k: nat :: i < |s| && FocusMoved(s, r, key, active, focus, i, k)
    else r == []
  }

  ghost function ActiveBelow<T>(s: seq<T>, k: nat, active: T -> bool): set<nat>
    requires k <= |s|
  {
    set j: nat | j < k && active(s[j])
  }

  ghost predicate FocusMoved<T>(s: seq<T>, r: seq<T>, key: T -> string, active: T -> bool, focus: string,
      i: nat, k: nat)
    requires i < |s|
  {
    && key(s[i]) == focus && (forall j :: 0 <= j < i ==> key(s[j]) != focus)
    && k == |ActiveBelow(s, i, active)| && k < |r| == |s|
    && r[k] == s[i] && RemoveAt(r, k) == RemoveAt(s, i)
  }

  lemma {:induction false} CountIsSize<T>(s: seq<T>, k: nat, p: T -> bool)
    requires k <= |s|
    ensures CountIf(s[..k], p) == |ActiveBelow(s, k, p)|
  {
    if k == 0 {
      assert ActiveBelow(s, k, p) == {};
    } else {
      CountIsSize(s, k - 1, p);
      CountNext(s, k - 1, p);
      var front := ActiveBelow(s, k - 1, p);
      assert ActiveBelow(s, k, p) == if p(s[k - 1]) then front + {k - 1} else front;
    }
  }

  lemma FocusIsApplied<T>(s: seq<T>, key: T -> string, active: T -> bool, focus: string, norm: string -> string)
    requires focus != ""
    ensures FocusApplied(s, ApplyFocus(s, key, active, focus, norm), key, active, norm(focus))
  {
    if Lists(s, key, norm(focus)) {
      var i, k := FocusLands(s, key, active, focus, norm);
      CountIsSize(s, i, active);
      assert FocusMoved(s, ApplyFocus(s, key, active, focus, norm), key, active, norm(focus), i, k);
    }
  }

  /** The lists that the pins lead through, one by one in their order. */
  ghost predicate PinsApplied<T>(lists: seq<seq<T>>, key: T -> string, orders: seq<AdoptionOrder>) {
    && |lists| == |orders| + 1
    && forall n :: 0 <= n < |orders| ==>
         PinApplied(lists[n], lists[n + 1], key, Normalize(orders[n].milestone), Normalize(orders[n].before))
  }

  lemma PinsExtend<T>(lists: seq<seq<T>>, next: seq<T>, key: T -> string, orders: seq<AdoptionOrder>)
    requires orders != [] && PinsApplied(lists, key, orders[..|orders| - 1])
    requires var last := orders[|orders| - 1];
      PinApplied(lists[|orders| - 1], next, key, Normalize(last.milestone), Normalize(last.before))
    ensures PinsApplied(lists + [next], key, orders)
  {
    var longer, front := lists + [next], orders[..|orders| - 1];
    forall n | 0 <= n < |orders|
      ensures PinApplied(longer[n], longer[n + 1], key, Normalize(orders[n].milestone), Normalize(orders[n].before))
    {
      assert n < |front| ==> front[n] == orders[n];
    }
  }

  lemma {:induction false} PinsAreApplied<T>(s: seq<T>, key: T -> string, orders: seq<AdoptionOrder>)
    returns (lists: seq<seq<T>>)
    ensures PinsApplied(lists, key, orders)
    ensures lists[0] == s && lists[|orders|] == ApplyPins(s, key, orders, Normalize)
  {
    if orders == [] {
      lists := [s];
    } else {
      var n := |orders| - 1;
      var last := orders[n];
      var front := PinsAreApplied(s, key, orders[..n]);
      var next := ApplyPin(front[n], key, Normalize(last.milestone), Normalize(last.before));
      PinIsApplied(front[n], key, Normalize(last.milestone), Normalize(last.before));
      PinsExtend(front, next, key, orders);
      lists := front + [next];
    }
  }

  /** The whole step: a stable sort by the comparator, then each pin in its order, then the focus. */
  lemma SortedSteps<T(!new)>(view: View<T>, ready: seq<T>, baseline: seq<string>, exec: ExecutionConfig)
    returns (lists: seq<seq<T>>)
    ensures PinsApplied(lists, view.Key(), exec.adoptionOrder)
    ensures SortsStably(ready, lists[0], view.Le(baseline, exec.strategy))
    ensures var pinned, r := lists[|exec.adoptionOrder|], view.Sorted(ready, baseline, exec);
      if exec.focusMilestone == "" then r == pinned
      else FocusApplied(pinned, r, view.Key(), view.Active(), Normalize(exec.focusMilestone))
  {
    var le := view.Le(baseline, exec.strategy);
    LeIsTotalPreorder(view, baseline, exec.strategy);
    StableSortSorts(ready, le);
    lists := PinsAreApplied(StableSort(ready, le), view.Key(), exec.adoptionOrder);
    if exec.focusMilestone != "" {
      FocusIsApplied(lists[|exec.adoptionOrder|], view.Key(), view.Active(), exec.focusMilestone, Normalize);
    }
  }

  lemma FilterInsert<T>(s: seq<T>, at: nat, x: T, keep: T -> bool)
    requires at <= |s| && !keep(x)
    ensures Filter(InsertAt(s, at, x), keep) == Filter(s, keep)
  {
    var front, back := s[..at], s[at..];
    assert s == front + back && InsertAt(s, at, x) == front + ([x] + back);
    FilterJoins(front, [x] + back, keep);
    FilterHead(x, back, keep);
    FilterJoins(front, back, keep);
  }

  lemma ReinsertRemoved<T>(s: seq<T>, from: nat)
    requires from < |s|
    ensures InsertAt(RemoveAt(s, from), from, s[from]) == s
  {
    assert RemoveAt(s, from)[..from] == s[..from] && RemoveAt(s, from)[from..] == s[from + 1..];
  }

  lemma FilterMove<T>(s: seq<T>, from: nat, at: nat, keep: T -> bool)
    requires from < |s| && at < |s| && !keep(s[from])
    ensures Filter(InsertAt(RemoveAt(s, from), at, s[from]), keep) == Filter(s, keep)
  {
    FilterInsert(RemoveAt(s, from), at, s[from], keep);
    FilterInsert(RemoveAt(s, from), from, s[from], keep);
    ReinsertRemoved(s, from);
  }

  lemma {:induction false} FilterPins<T>(s: seq<T>, key: T -> string, orders: seq<AdoptionOrder>,
      norm: string -> string, keep: T -> bool)
    requires forall x :: (exists o :: o in orders && key(x) == norm(o.milestone)) ==> !keep(x)
    ensures Filter(ApplyPins(s, key, orders, norm), keep) == Filter(s, keep)
  {
    if orders != [] {
      var front, last := orders[..|orders| - 1], orders[|orders| - 1];
      FilterPins(s, key, front, norm, keep);
      var t := ApplyPins(s, key, front, norm);
      var from, to := FirstIndex(t, key, norm(last.milestone)), FirstIndex(t, key, norm(last.before));
      if norm(last.before) != "" && from.Some? && to.Some? && from != to {
        assert last in orders && !keep(t[from.value]);
        FilterMove(t, from.value, if from.value < to.value then to.value - 1 else to.value, keep);
      }
    }
  }

  /** Neither the milestone of a pin nor the focus. */
  predicate IsUnmoved(id: string, exec: ExecutionConfig) {
    && (forall o :: o in exec.adoptionOrder ==> id != Normalize(o.milestone))
    && (exec.focusMilestone != "" ==> id != Normalize(exec.focusMilestone))
  }

  /** All milestones that no pin and no focus moves stand in the order of the comparator, and
      those that compare equal in the order in which they were ready. */
  lemma UnmovedInOrder<T(!new)>(view: View<T>, ready: seq<T>, baseline: seq<string>, exec: ExecutionConfig)
    requires exec.focusMilestone == "" || Lists(ready, view.Key(), Normalize(exec.focusMilestone))
    ensures var unmoved, le := (x: T) => IsUnmoved(Normalize(view.file(x).id), exec), view.Le(baseline, exec.strategy);
      var r := Filter(view.Sorted(ready, baseline, exec), unmoved);
      SortedBy(r, le) && forall x :: EqualTo(r, x, le) == EqualTo(Filter(ready, unmoved), x, le)
  {
    var unmoved, le := (x: T) => IsUnmoved(Normalize(view.file(x).id), exec), view.Le(baseline, exec.strategy);
    LeIsTotalPreorder(view, baseline, exec.strategy);
    var sorted := StableSort(ready, le);
    StableSortSorts(ready, le);
    FilterSortsStably(ready, sorted, unmoved, le);
    FilterPins(sorted, view.Key(), exec.adoptionOrder, Normalize, unmoved);
    if exec.focusMilestone != "" {
      var pinned := ApplyPins(sorted, view.Key(), exec.adoptionOrder, Normalize);
      PinsPermute(sorted, view.Key(), exec.adoptionOrder, Normalize);
      StillListed(ready, pinned, view.Key(), Normalize(exec.focusMilestone));
      FilterFocus(pinned, view.Key(), view.Active(), exec.focusMilestone, Normalize, unmoved);
    }
  }

  lemma StillListed<T>(s: seq<T>, r: seq<T>, key: T -> string, id: string)
    requires multiset(s) == multiset(r) && Lists(s, key, id)
    ensures Lists(r, key, id)
  {
    var i :| 0 <= i < |s| && key(s[i]) == id;
    assert s[i] in multiset(r);
    var j :| 0 <= j < |r| && r[j] == s[i];
  }

  lemma FilterFocus<T>(s: seq<T>, key: T -> string, active: T -> bool, focus: string, norm: string -> string,
      keep: T -> bool)
    requires focus != "" && Lists(s, key, norm(focus)) && forall x :: key(x) == norm(focus) ==> !keep(x)
    ensures Filter(ApplyFocus(s, key, active, focus, norm), keep) == Filter(s, keep)
  {
    var i := FirstIndex(s, key, norm(focus)).value;
    var rest := RemoveAt(s, i);
    FilterMove(s, i, CountIf(rest[..if i < |rest| then i else |rest|], active), keep);
  }

  // ---------- The index form refines the cloning form ----------

  function Mapped<T, U>(s: seq<T>, h: T -> U): (r: seq<U>)
    ensures |r| == |s| && forall i :: 0 <= i < |s| ==> r[i] == h(s[i])
  {
    seq(|s|, i requires 0 <= i < |s| => h(s[i]))
  }

  lemma {:induction false} MappedFirstIndex<T(!new), U>(s: seq<T>, h: T -> U, key: T -> string, key': U -> string,
      wanted: string)
    requires forall x :: key(x) == key'(h(x))
    ensures FirstIndex(Mapped(s, h), key', wanted) == FirstIndex(s, key, wanted)
  {
    if s != [] {
      MappedFirstIndex(s[1..], h, key, key', wanted);
      assert Mapped(s, h)[1..] == Mapped(s[1..], h);
    }
  }

  lemma {:induction false} MappedCountIf<T(!new), U>(s: seq<T>, h: T -> U, p: T -> bool, p': U -> bool)
    requires forall x :: p(x) == p'(h(x))
    ensures CountIf(Mapped(s, h), p') == CountIf(s, p)
  {
    if s != [] {
      MappedCountIf(s[1..], h, p, p');
      assert Mapped(s, h)[1..] == Mapped(s[1..], h);
    }
  }

  lemma MappedTail<T, U>(s: seq<T>, h: T -> U)
    requires s != []
    ensures Mapped(s, h) != [] && Mapped(s, h)[0] == h(s[0]) && Mapped(s, h)[1..] == Mapped(s[1..], h)
  {}

  lemma MappedHead<T, U>(x: T, s: seq<T>, h: T -> U)
    ensures Mapped([x] + s, h) == [h(x)] + Mapped(s, h)
  {}

  lemma {:induction false} MappedInsert<T(!new), U>(x: T, s: seq<T>, h: T -> U, le: (T, T) -> bool, le': (U, U) -> bool)
    requires forall y, z :: le(y, z) == le'(h(y), h(z))
    ensures Mapped(Insert(x, s, le), h) == Insert(h(x), Mapped(s, h), le')
  {
    if s != [] && !le(x, s[0]) {
      MappedInsert(x, s[1..], h, le, le');
      MappedTail(s, h);
      MappedHead(s[0], Insert(x, s[1..], le), h);
    } else {
      MappedHead(x, s, h);
    }
  }

  lemma {:induction false} MappedStableSort<T(!new), U>(s: seq<T>, h: T -> U, le: (T, T) -> bool, le': (U, U) -> bool)
    requires forall y, z :: le(y, z) == le'(h(y), h(z))
    ensures Mapped(StableSort(s, le), h) == StableSort(Mapped(s, h), le')
  {
    if s != [] {
      MappedStableSort(s[1..], h, le, le');
      MappedInsert(s[0], StableSort(s[1..], le), h, le, le');
      MappedTail(s, h);
    }
  }

  lemma MappedMove<T, U>(s: seq<T>, h: T -> U, from: nat, at: nat)
    requires from < |s| && at < |s|
    ensures Mapped(InsertAt(RemoveAt(s, from), at, s[from]), h)
         == InsertAt(RemoveAt(Mapped(s, h), from), at, h(s[from]))
  {
    var rest := RemoveAt(s, from);
    assert Mapped(rest, h) == RemoveAt(Mapped(s, h), from);
    assert Mapped(InsertAt(rest, at, s[from]), h) == InsertAt(Mapped(rest, h), at, h(s[from]));
  }

  lemma {:induction false} MappedPins<T(!new), U>(s: seq<T>, h: T -> U, key: T -> string, key': U -> string,
      orders: seq<AdoptionOrder>, norm: string -> string)
    requires forall x :: key(x) == key'(h(x))
    ensures Mapped(ApplyPins(s, key, orders, norm), h) == ApplyPins(Mapped(s, h), key', orders, norm)
  {
    if orders != [] {
      var front, last := orders[..|orders| - 1], orders[|orders| - 1];
      MappedPins(s, h, key, key', front, norm);
      var t := ApplyPins(s, key, front, norm);
      MappedFirstIndex(t, h, key, key', norm(last.milestone));
      MappedFirstIndex(t, h, key, key', norm(last.before));
      var from, to := FirstIndex(t, key, norm(last.milestone)), FirstIndex(t, key, norm(last.before));
      if norm(last.before) != "" && from.Some? && to.Some? && from != to {
        MappedMove(t, h, from.value, if from.value < to.value then to.value - 1 else to.value);
      }
    }
  }

  lemma MappedFocus<T(!new), U>(s: seq<T>, h: T -> U, key: T -> string, key': U -> string,
      active: T -> bool, active': U -> bool, focus: string, norm: string -> string)
    requires forall x :: key(x) == key'(h(x)) && active(x) == active'(h(x))
    ensures Mapped(ApplyFocus(s, key, active, focus, norm), h) == ApplyFocus(Mapped(s, h), key', active', focus, norm)
  {
    if focus != "" {
      MappedFirstIndex(s, h, key, key', norm(focus));
      var i := FirstIndex(s, key, norm(focus));
      if i.Some? {
        var rest := RemoveAt(s, i.value);
        var prefix := rest[..if i.value < |rest| then i.value else |rest|];
        MappedCountIf(prefix, h, active, active');
        assert Mapped(rest, h) == RemoveAt(Mapped(s, h), i.value);
        assert Mapped(prefix, h) == Mapped(rest, h)[..|prefix|];
        MappedMove(s, h, i.value, CountIf(prefix, active));
      }
    }
  }

  /** Whatever the items are, the milestones they stand for come out in the order in which
      the cloning form puts the milestones themselves. */
  lemma IndexFormSelects<T(!new)>(view: View<T>, ready: seq<T>, baseline: seq<string>, exec: ExecutionConfig)
    ensures Mapped(view.Sorted(ready, baseline, exec), view.file)
         == View(m => m).Sorted(Mapped(ready, view.file), baseline, exec)
  {
    var clone: View<MilestoneFile>, h := View(m => m), view.file;
    var sorted := StableSort(ready, view.Le(baseline, exec.strategy));
    MappedStableSort(ready, h, view.Le(baseline, exec.strategy), clone.Le(baseline, exec.strategy));
    MappedPins(sorted, h, view.Key(), clone.Key(), exec.adoptionOrder, Normalize);
    var pinned := ApplyPins(sorted, view.Key(), exec.adoptionOrder, Normalize);
    MappedFocus(pinned, h, view.Key(), clone.Key(), view.Active(), clone.Active(), exec.focusMilestone, Normalize);
  }

  /** Sorting the ready list permutes it exactly when no focus is set, the focused milestone
      is ready, or nothing is; otherwise the program forgets every ready milestone. */
  lemma SortedPermutes<T(!new)>(view: View<T>, ready: seq<T>, baseline: seq<string>, exec: ExecutionConfig)
    ensures multiset(view.Sorted(ready, baseline, exec)) == multiset(ready) <==>
      exec.focusMilestone == "" || ready == [] ||
      exists x :: x in ready && view.Key()(x) == Normalize(exec.focusMilestone)
  {
    var sorted := StableSort(ready, view.Le(baseline, exec.strategy));
    PinsPermute(sorted, view.Key(), exec.adoptionOrder, Normalize);
    var pinned := ApplyPins(sorted, view.Key(), exec.adoptionOrder, Normalize);
    FocusPermutes(pinned, view.Key(), view.Active(), exec.focusMilestone, Normalize);
    SameElements(pinned, ready);
    assert forall x :: x in pinned <==> x in Elements(pinned);
    assert forall x :: x in ready <==> x in Elements(ready);
    var i := FirstIndex(pinned, view.Key(), Normalize(exec.focusMilestone));
    if i.Some? {
      assert pinned[i.value] in pinned;
    }
  }

  // ---------- The index form ----------

  /** Indices into the list of milestones, seen as the milestones there. */
  function IndexView(milestones: seq<MilestoneFile>): View<nat> {
    View((i: nat) => if i < |milestones| then milestones[i] else MilestoneFile("", "", ""))
  }

  predicate InRange(milestones: seq<MilestoneFile>, indices: seq<nat>) {
    forall k :: 0 <= k < |indices| ==> indices[k] < |milestones|
  }

  function Picked(milestones: seq<MilestoneFile>, indices: seq<nat>): (r: seq<MilestoneFile>)
    requires InRange(milestones, indices)
    ensures |r| == |indices|
  {
    seq(|indices|, k requires 0 <= k < |indices| => milestones[indices[k]])
  }

  lemma PickedIsMapped(milestones: seq<MilestoneFile>, indices: seq<nat>)
    requires InRange(milestones, indices)
    ensures Picked(milestones, indices) == Mapped(indices, IndexView(milestones).file)
  {}

  lemma SortedKeepsElements<T(!new)>(view: View<T>, ready: seq<T>, baseline: seq<string>, exec: ExecutionConfig)
    ensures forall x :: x in view.Sorted(ready, baseline, exec) ==> x in ready
  {
    var sorted := StableSort(ready, view.Le(baseline, exec.strategy));
    PinsPermute(sorted, view.Key(), exec.adoptionOrder, Normalize);
    var pinned := ApplyPins(sorted, view.Key(), exec.adoptionOrder, Normalize);
    FocusPermutes(pinned, view.Key(), view.Active(), exec.focusMilestone, Normalize);
    var r := view.Sorted(ready, baseline, exec);
    assert multiset(pinned) == multiset(ready);
    forall x | x in r ensures x in ready {
      if multiset(r) == multiset(pinned) {
        assert x in multiset(r);
        assert x in multiset(ready);
      }
    }
  }

  /** Sorting indices yields indices again, and the milestones there are, element by element,
      what sorting the cloned milestones yields. */
  lemma IndicesSelect(milestones: seq<MilestoneFile>, ready: seq<nat>, baseline: seq<string>, exec: ExecutionConfig)
    requires InRange(milestones, ready)
    ensures var r := IndexView(milestones).Sorted(ready, baseline, exec);
      && InRange(milestones, r)
      && Picked(milestones, r) == View(m => m).Sorted(Picked(milestones, ready), baseline, exec)
  {
    var view := IndexView(milestones);
    var r := view.Sorted(ready, baseline, exec);
    SortedKeepsElements(view, ready, baseline, exec);
    assert InRange(milestones, r) by {
      forall k | 0 <= k < |r| ensures r[k] < |milestones| {
        assert r[k] in ready;
      }
    }
    IndexFormSelects(view, ready, baseline, exec);
    PickedIsMapped(milestones, ready);
    PickedIsMapped(milestones, r);
  }
}
