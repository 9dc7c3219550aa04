/** Milestone ids and their order (crates/mp/src/paths.rs). */
module MilestoneIds {
  import opened Prelude
  import opened Text

  /** normalize_milestone_id */
  function Normalize(id: string): string {
    var id := TrimM(Trim(id));
    match SplitAtDot(id)
    case Some((base, suffix)) => NormalizeTopLevel(base) + "." + suffix
    case None => NormalizeTopLevel(id)
  }

  function TrimM(s: string): string {
    if s != "" && (s[0] == 'M' || s[0] == 'm') then TrimM(s[1..]) else s
  }

  function DigitsOf(s: string): (r: string)
    ensures forall c :: c in r ==> IsDigit(c)
  {
    if s == "" then "" else (if IsDigit(s[0]) then [s[0]] else "") + DigitsOf(s[1..])
  }

  function NormalizeTopLevel(id: string): string {
    var digits := DigitsOf(id);
    if digits == "" then id
    else match ParseU32(digits)
      case Some(n) => PadTwo(n)
      case None => PadTwo(0)
  }

  type SortKey = seq<nat>

  /** milestone_sort_key: the dot-separated parts that are numbers. */
  function MilestoneSortKey(id: string): SortKey {
    Numbers(SplitDots(Normalize(id)))
  }

  function Numbers(parts: seq<string>): SortKey {
    if parts == [] then []
    else
      (match ParseU32(parts[0]) case Some(n) => [n] case None => []) + Numbers(parts[1..])
  }

  /** The lexicographic order of vectors. */
  predicate KeyLe(a: SortKey, b: SortKey) {
    a == [] || (b != [] && (a[0] < b[0] || (a[0] == b[0] && KeyLe(a[1..], b[1..]))))
  }

  /** compare_milestone_ids(a, b) is not Greater. */
  predicate IdLe(a: string, b: string) {
    KeyLe(MilestoneSortKey(a), MilestoneSortKey(b))
  }

  lemma {:induction false} KeyTotal(a: SortKey, b: SortKey)
    ensures KeyLe(a, b) || KeyLe(b, a)
    ensures KeyLe(a, b) && KeyLe(b, a) <==> a == b
  {
    if a != [] && b != [] && a[0] == b[0] {
      KeyTotal(a[1..], b[1..]);
      assert a == [a[0]] + a[1..] && b == [b[0]] + b[1..];
    }
  }

  /** At the first place where they differ `a` has the smaller number. */
  ghost predicate FirstLess(a: SortKey, b: SortKey) {
    exists i :: LessAt(a, b, i)
  }

  ghost predicate LessAt(a: SortKey, b: SortKey, i: nat) {
    i < |a| && i < |b| && a[..i] == b[..i] && a[i] < b[i]
  }

  lemma LessBelow(x: nat, a: SortKey, b: SortKey)
    ensures FirstLess([x] + a, [x] + b) <==> FirstLess(a, b)
  {
    var c, d := [x] + a, [x] + b;
    if i: nat :| LessAt(a, b, i) {
      assert c[..i + 1] == [x] + a[..i] && d[..i + 1] == [x] + b[..i];
      assert LessAt(c, d, i + 1);
    }
    if i: nat :| LessAt(c, d, i) {
      assert i > 0;
      assert a[..i - 1] == c[..i][1..] && b[..i - 1] == d[..i][1..];
      assert LessAt(a, b, i - 1);
    }
  }

  /** Numbers are compared place by place; a key that is used up comes first. */
  lemma {:induction false} KeyLeIff(a: SortKey, b: SortKey)
    ensures KeyLe(a, b) <==> a <= b || FirstLess(a, b)
  {
    if a != [] && b != [] && a[0] == b[0] {
      KeyLeIff(a[1..], b[1..]);
      assert a == [a[0]] + a[1..] && b == [b[0]] + b[1..];
      LessBelow(a[0], a[1..], b[1..]);
    } else if a != [] && b != [] {
      HeadDecides(a, b);
    }
  }

  lemma HeadDecides(a: SortKey, b: SortKey)
    requires a != [] && b != [] && a[0] != b[0]
    ensures FirstLess(a, b) <==> a[0] < b[0]
    ensures !(a <= b)
  {
    assert a[..0] == b[..0];
    if a[0] < b[0] {
      assert LessAt(a, b, 0);
    }
    assert forall i: nat :: 0 < i <= |a| && i <= |b| ==> a[..i][0] == a[0] && b[..i][0] == b[0];
  }

  lemma {:induction false} KeyTransitive(a: SortKey, b: SortKey, c: SortKey)
    requires KeyLe(a, b) && KeyLe(b, c)
    ensures KeyLe(a, c)
  {
    if a != [] && b != [] && c != [] && a[0] == b[0] == c[0] {
      KeyTransitive(a[1..], b[1..], c[1..]);
    }
  }

  // ---------- What numbers become ----------

  predicate AllDigits(s: string) {
    forall c :: c in s ==> IsDigit(c)
  }

  lemma DigitIsNoWhitespace(c: char)
    requires IsDigit(c)
    ensures !IsWhitespace(c) && c != 'M' && c != 'm' && c != '.'
  {}

  lemma DigitsStand(s: string)
    requires s != "" && AllDigits(s)
    ensures Trim(s) == s && TrimM(s) == s && SplitAtDot(s) == None && DigitsOf(s) == s
  {
    DigitIsNoWhitespace(s[0]);
    DigitIsNoWhitespace(s[|s| - 1]);
    NoDot(s);
    AllKept(s);
  }

  lemma {:induction false} NoDot(s: string)
    requires AllDigits(s)
    ensures SplitAtDot(s) == None
  {
    if s != "" {
      DigitIsNoWhitespace(s[0]);
      NoDot(s[1..]);
    }
  }

  lemma {:induction false} AllKept(s: string)
    requires AllDigits(s)
    ensures DigitsOf(s) == s
  {
    if s != "" {
      AllKept(s[1..]);
      assert s == [s[0]] + s[1..];
    }
  }

  lemma DigitsNormalize(s: string)
    requires s != "" && AllDigits(s) && DigitsValue(s) <= U32_MAX
    ensures Normalize(s) == PadTwo(DigitsValue(s))
  {
    DigitsStand(s);
    NumberOfDigits(s);
  }

  lemma PrefixedNormalize(c: char, s: string)
    requires (c == 'M' || c == 'm') && s != "" && AllDigits(s) && DigitsValue(s) <= U32_MAX
    ensures Normalize([c] + s) == PadTwo(DigitsValue(s))
  {
    var id := [c] + s;
    DigitsStand(s);
    DigitIsNoWhitespace(s[|s| - 1]);
    assert id[0] == c && id[|id| - 1] == s[|s| - 1] && id[1..] == s;
    TrimKeeps(id);
    assert TrimM(id) == TrimM(s) == s;
    NumberOfDigits(s);
  }

  lemma TrimKeeps(s: string)
    requires s != "" && !IsWhitespace(s[0]) && !IsWhitespace(s[|s| - 1])
    ensures Trim(s) == s
  {}

  lemma NumberOfDigits(s: string)
    requires s != "" && AllDigits(s) && DigitsValue(s) <= U32_MAX
    ensures NormalizeTopLevel(s) == PadTwo(DigitsValue(s))
  {
    AllKept(s);
    assert s[0] in s && IsDigit(s[0]);
  }

  /** A number reads alike with or without the letter and with any leading zeros: all spellings
      become the one with at least two digits. */
  lemma NumbersNormalize(n: nat, s: string)
    requires n <= U32_MAX && s != "" && AllDigits(s) && DigitsValue(s) == n
    ensures Normalize(s) == Normalize("M" + s) == Normalize("m" + s) == PadTwo(n)
    ensures Normalize(PadTwo(n)) == PadTwo(n)
  {
    DigitsNormalize(s);
    PrefixedNormalize('M', s);
    PrefixedNormalize('m', s);
    PadTwoParses(n);
    PadTwoDigits(n);
    DigitsNormalize(PadTwo(n));
  }

  lemma PadTwoDigits(n: nat)
    requires n <= U32_MAX
    ensures AllDigits(PadTwo(n)) && DigitsValue(PadTwo(n)) == n
  {
    PadTwoParses(n);
    assert PadTwo(n)[0] in PadTwo(n);
  }

  lemma NumberKey(n: nat)
    requires n <= U32_MAX
    ensures MilestoneSortKey(PadTwo(n)) == [n]
  {
    PadTwoDigits(n);
    DigitsNormalize(PadTwo(n));
    NoDot(PadTwo(n));
    PadTwoParses(n);
    assert SplitDots(PadTwo(n)) == [PadTwo(n)];
    assert [PadTwo(n)][1..] == [] && Numbers([]) == [];
    assert Numbers([PadTwo(n)]) == [n] + Numbers([PadTwo(n)][1..]);
  }

  /** Milestones are ordered by their numbers. */
  lemma SmallerNumberFirst(m: nat, n: nat)
    requires m <= U32_MAX && n <= U32_MAX
    ensures IdLe(PadTwo(m), PadTwo(n)) <==> m <= n
  {
    NumberKey(m);
    NumberKey(n);
    KeyLeIff([m], [n]);
    if m != n {
      HeadDecides([m], [n]);
    }
  }
}
