/** The validator (crates/mp/src/mini_schema.rs): an accepted schema, the recursion that
    collects errors, and what those errors are. */
module SchemaValidator {
  import opened Prelude
  import opened Digraph
  import opened JsonSchema
  import opened RefGraph
  import opened Text

  datatype Keyword =
    | Type | Required(name: string) | Enum | Pattern | MinLength | MinItems | Minimum | AnyOf

  datatype ValidationError = ValidationError(instancePath: string, keyword: Keyword)

  /** The vector of errors that `validate` and the checks push to. */
  class ErrorList {
    var items: seq<ValidationError>

    constructor ()
      ensures items == []
    {
      items := [];
    }

    method Push(e: ValidationError)
      modifies this
      ensures items == old(items) + [e]
    {
      items := items + [e];
    }
  }

  // ---------- Keywords that look at one value only ----------

  predicate IsJsonInteger(v: Json) {
    v.Number? && (v.n.Int? || v.n.r == v.n.r.Floor as real)
  }

  predicate TypeMatches(v: Json, t: string) {
    match t
    case "object" => v.Object?
    case "array" => v.Array?
    case "string" => v.String?
    case "integer" => IsJsonInteger(v)
    case "number" => v.Number?
    case "boolean" => v.Bool?
    case "null" => v.Null?
    case _ => true
  }

  /** What a keyword of `s` other than the applicators forbids. */
  predicate Violates(re: Regex, v: Json, s: Schema, k: Keyword) {
    match k
    case Type => s.types.Some? && forall t :: t in s.types.value ==> !TypeMatches(v, t)
    case Required(name) => s.required.Some? && v.Object? && name in s.required.value && name !in v.fields
    case Enum => s.enumValues.Some? && v !in s.enumValues.value
    case Pattern => s.pattern.Some? && v.String? && !re.matches(s.pattern.value, v.s)
    case MinLength => s.minLength.Some? && v.String? && |v.s| < s.minLength.value
    case MinItems => s.minItems.Some? && v.Array? && |v.elems| < s.minItems.value
    case Minimum => s.minimum.Some? && v.Number? && AsReal(v.n) < s.minimum.value
    case AnyOf => false
  }

  function KeyPath(path: string, key: string): string {
    path + "/" + key
  }

  function IndexPath(path: string, i: nat): string {
    path + "/" + Decimal(i)
  }

  // ---------- The termination measure ----------

  ghost function Height(names: seq<string>, order: seq<string>): nat {
    if names == [] then 0
    else
      var first := if names[0] in order then Position(order, names[0]) + 1 else 0;
      var rest := Height(names[1..], order);
      if first < rest then rest else first
  }

  lemma {:induction false} HeightAtLeast(names: seq<string>, order: seq<string>, i: nat)
    requires i < |names| && names[i] in order
    ensures Height(names, order) > Position(order, names[i])
  {
    if i > 0 {
      HeightAtLeast(names[1..], order, i - 1);
    }
  }

  lemma {:induction false} HeightAtMost(names: seq<string>, order: seq<string>, bound: nat)
    requires forall n :: n in names && n in order ==> Position(order, n) < bound
    ensures Height(names, order) <= bound
  {
    if names != [] {
      HeightAtMost(names[1..], order, bound);
    }
  }

  lemma {:induction false} HeightMonotone(a: seq<string>, b: seq<string>, order: seq<string>)
    requires forall n :: n in a ==> n in b
    ensures Height(a, order) <= Height(b, order)
  {
    forall n | n in a && n in order ensures Position(order, n) < Height(b, order) {
      var i :| 0 <= i < |b| && b[i] == n;
      HeightAtLeast(b, order, i);
    }
    HeightAtMost(a, order, Height(b, order));
  }

  datatype Validator = Validator(re: Regex, root: Schema, defs: map<string, Schema>) {

    /** What `Validator::new` establishes and every lookup in `validate` relies on. */
    ghost predicate Sound() {
      && Acyclic(ZeroCostGraph(defs))
      && RefsResolve(root, defs.Keys)
      && forall n :: n in defs ==> RefsResolve(defs[n], defs.Keys)
    }

    /** An order of the definitions in which each comes after its zero-cost targets. */
    ghost function Order(): (order: seq<string>)
      requires Sound()
      ensures Ranks(ZeroCostGraph(defs), order)
    {
      AcyclicIffRanked(ZeroCostGraph(defs));
      var order :| Ranks(ZeroCostGraph(defs), order);
      order
    }

    /** How many references in a row a validation against `s` can still follow
        before it must descend into the instance. */
    ghost function Rank(s: Schema): nat
      requires Sound()
    {
      Height(ZeroCostTargets(s), Order())
    }

    lemma ReferenceDescends(s: Schema)
      requires Sound() && RefsResolve(s, defs.Keys) && s.reference.Some?
      ensures Rank(defs[s.reference.value]) < Rank(s)
    {
      var g, order, name := ZeroCostGraph(defs), Order(), s.reference.value;
      assert name in g;
      HeightAtLeast(ZeroCostTargets(s), order, 0);
      var p := Position(order, name);
      forall n | n in ZeroCostTargets(defs[name]) ensures n in order && Position(order, n) < p {
        assert n in Next(g, order[p]);
        var j :| 0 <= j < p && order[j] == n;
        PositionUnique(order, n, j);
      }
      HeightAtMost(ZeroCostTargets(defs[name]), order, p);
    }

    lemma BranchesDescend(s: Schema)
      requires Sound() && s.reference.None?
      ensures forall i :: 0 <= i < |s.anyOf| ==> Rank(s.anyOf[i]) <= Rank(s)
    {
      forall i | 0 <= i < |s.anyOf| ensures Rank(s.anyOf[i]) <= Rank(s) {
        BranchTargetsContain(s.anyOf, i);
        HeightMonotone(ZeroCostTargets(s.anyOf[i]), ZeroCostTargets(s), Order());
      }
    }

    // ---------- What validation means ----------

    /** `v` satisfies the compiled schema `s`. */
    ghost predicate Satisfies(v: Json, s: Schema)
      requires Sound() && RefsResolve(s, defs.Keys)
      decreases v, Rank(s), s, 1
    {
      if s.reference.Some? then
        ReferenceDescends(s);
        Satisfies(v, defs[s.reference.value])
      else
        && (forall k: Keyword :: !Violates(re, v, s, k))
        && PropertiesSatisfied(v, s)
        && ItemsSatisfied(v, s)
        && (s.anyOf == [] || SomeBranchSatisfied(v, s))
    }

    ghost predicate PropertiesSatisfied(v: Json, s: Schema)
      requires Sound() && RefsResolve(s, defs.Keys)
      decreases v, Rank(s), s, 0
    {
      v.Object? ==> forall k :: k in s.properties && k in v.fields ==> Satisfies(v.fields[k], s.properties[k])
    }

    ghost predicate ItemsSatisfied(v: Json, s: Schema)
      requires Sound() && RefsResolve(s, defs.Keys)
      decreases v, Rank(s), s, 0
    {
      v.Array? && s.items.Some? ==> forall i :: 0 <= i < |v.elems| ==> Satisfies(v.elems[i], s.items.value)
    }

    ghost predicate SomeBranchSatisfied(v: Json, s: Schema)
      requires Sound() && RefsResolve(s, defs.Keys) && s.reference.None?
      decreases v, Rank(s), s, 0
    {
      BranchesDescend(s);
      exists i :: 0 <= i < |s.anyOf| && Satisfies(v, s.anyOf[i])
    }

    /** `e` is one of the errors of validating `v`, found at `path`, against `s`. */
    ghost predicate Reported(v: Json, s: Schema, path: string, e: ValidationError)
      requires Sound() && RefsResolve(s, defs.Keys)
      decreases v, Rank(s), s, 1
    {
      if s.reference.Some? then
        ReferenceDescends(s);
        Reported(v, defs[s.reference.value], path, e)
      else
        || (e.instancePath == path && Violates(re, v, s, e.keyword))
        || ReportedInProperties(v, s, path, e)
        || ReportedInItems(v, s, path, e)
        || (e == ValidationError(path, AnyOf) && NoBranch(v, s))
    }

    ghost predicate ReportedInProperties(v: Json, s: Schema, path: string, e: ValidationError)
      requires Sound() && RefsResolve(s, defs.Keys)
      decreases v, Rank(s), s, 0
    {
      v.Object? &&
      exists k :: k in s.properties && k in v.fields && Reported(v.fields[k], s.properties[k], KeyPath(path, k), e)
    }

    ghost predicate ReportedInItems(v: Json, s: Schema, path: string, e: ValidationError)
      requires Sound() && RefsResolve(s, defs.Keys)
      decreases v, Rank(s), s, 0
    {
      v.Array? && s.items.Some? &&
      exists i :: 0 <= i < |v.elems| && Reported(v.elems[i], s.items.value, IndexPath(path, i), e)
    }

    ghost predicate NoBranch(v: Json, s: Schema)
      requires Sound() && RefsResolve(s, defs.Keys)
    {
      s.anyOf != [] && forall i :: 0 <= i < |s.anyOf| ==> !Satisfies(v, s.anyOf[i])
    }

    ghost predicate Silent(v: Json, s: Schema, path: string)
      requires Sound() && RefsResolve(s, defs.Keys)
    {
      forall e :: !Reported(v, s, path, e)
    }

    /** No error is reported exactly when the value satisfies the schema. */
    lemma {:induction false} SilentIffSatisfied(v: Json, s: Schema, path: string)
      requires Sound() && RefsResolve(s, defs.Keys)
      ensures Satisfies(v, s) <==> Silent(v, s, path)
      decreases v, Rank(s), s
    {
      if s.reference.Some? {
        ReferenceDescends(s);
        SilentIffSatisfied(v, defs[s.reference.value], path);
        assert forall e :: Reported(v, s, path, e) <==> Reported(v, defs[s.reference.value], path, e);
      } else {
        forall k | v.Object? && k in s.properties && k in v.fields
          ensures Satisfies(v.fields[k], s.properties[k]) <==> Silent(v.fields[k], s.properties[k], KeyPath(path, k))
        {
          SilentIffSatisfied(v.fields[k], s.properties[k], KeyPath(path, k));
        }
        forall i | v.Array? && s.items.Some? && 0 <= i < |v.elems|
          ensures Satisfies(v.elems[i], s.items.value) <==> Silent(v.elems[i], s.items.value, IndexPath(path, i))
        {
          SilentIffSatisfied(v.elems[i], s.items.value, IndexPath(path, i));
        }
        if Satisfies(v, s) {
          SatisfiedIsSilent(v, s, path);
        } else {
          UnsatisfiedIsReported(v, s, path);
        }
      }
    }

    lemma SatisfiedIsSilent(v: Json, s: Schema, path: string)
      requires Sound() && RefsResolve(s, defs.Keys) && s.reference.None?
      requires forall k ::
        v.Object? && k in s.properties && k in v.fields && Satisfies(v.fields[k], s.properties[k]) ==>
        Silent(v.fields[k], s.properties[k], KeyPath(path, k))
      requires forall i :: v.Array? && s.items.Some? && 0 <= i < |v.elems| && Satisfies(v.elems[i], s.items.value) ==>
        Silent(v.elems[i], s.items.value, IndexPath(path, i))
      requires Satisfies(v, s)
      ensures Silent(v, s, path)
    {
      forall e ensures !Reported(v, s, path, e) {
        assert !ReportedInProperties(v, s, path, e);
        assert !ReportedInItems(v, s, path, e);
      }
    }

    lemma UnsatisfiedIsReported(v: Json, s: Schema, path: string)
      requires Sound() && RefsResolve(s, defs.Keys) && s.reference.None?
      requires forall k ::
        v.Object? && k in s.properties && k in v.fields && !Satisfies(v.fields[k], s.properties[k]) ==>
        !Silent(v.fields[k], s.properties[k], KeyPath(path, k))
      requires forall i :: v.Array? && s.items.Some? && 0 <= i < |v.elems| && !Satisfies(v.elems[i], s.items.value) ==>
        !Silent(v.elems[i], s.items.value, IndexPath(path, i))
      requires !Satisfies(v, s)
      ensures !Silent(v, s, path)
    {
      if k: Keyword :| Violates(re, v, s, k) {
        assert Reported(v, s, path, ValidationError(path, k));
      } else if NoBranch(v, s) {
        assert Reported(v, s, path, ValidationError(path, AnyOf));
      } else if k :| v.Object? && k in s.properties && k in v.fields && !Satisfies(v.fields[k], s.properties[k]) {
        assert !Silent(v.fields[k], s.properties[k], KeyPath(path, k));
        var e :| Reported(v.fields[k], s.properties[k], KeyPath(path, k), e);
        assert ReportedInProperties(v, s, path, e);
        assert Reported(v, s, path, e);
      } else {
        var i :| 0 <= i < |v.elems| && !Satisfies(v.elems[i], s.items.value);
        assert !Silent(v.elems[i], s.items.value, IndexPath(path, i));
        var e :| Reported(v.elems[i], s.items.value, IndexPath(path, i), e);
        assert ReportedInItems(v, s, path, e);
        assert Reported(v, s, path, e);
      }
    }

    // ---------- The recursion that collects them ----------

    /** iter_errors: all errors, and none exactly when the value satisfies the schema. */
    method IterErrors(v: Json) returns (r: seq<ValidationError>)
      requires Sound()
      ensures forall e :: e in r <==> Reported(v, root, "", e)
      ensures r == [] <==> Satisfies(v, root)
    {
      var errs := new ErrorList();
      Validate(v, root, "", errs);
      r := errs.items;
      SilentIffSatisfied(v, root, "");
      if r != [] {
        assert r[0] in r;
      }
    }

    /** Terminates because the instance shrinks, or else the rank of the reference, or
        else the schema. Pushes exactly the reported errors after those already there. */
    method Validate(v: Json, s: Schema, path: string, errs: ErrorList)
      requires Sound() && RefsResolve(s, defs.Keys)
      modifies errs
      ensures old(errs.items) <= errs.items
      ensures forall e :: e in errs.items <==> e in old(errs.items) || Reported(v, s, path, e)
      decreases v, Rank(s), s, 1
    {
      if s.reference.Some? {
        ReferenceDescends(s);
        Validate(v, defs[s.reference.value], path, errs);
        return;
      }
      CheckAssertions(re, v, s, path, errs);
      if s.properties != map[] {
        CheckProperties(v, s, path, errs);
      }
      if s.items.Some? {
        CheckItems(v, s, path, errs);
      }
      if s.anyOf != [] {
        CheckAnyOf(v, s, path, errs);
      }
    }

    method CheckProperties(v: Json, s: Schema, path: string, errs: ErrorList)
      requires Sound() && RefsResolve(s, defs.Keys)
      modifies errs
      ensures old(errs.items) <= errs.items
      ensures forall e :: e in errs.items <==> e in old(errs.items) || ReportedInProperties(v, s, path, e)
      decreases v, Rank(s), s, 0
    {
      if !v.Object? {
        return;
      }
      var keys := s.properties.Keys;
      while keys != {}
        invariant keys <= s.properties.Keys
        invariant old(errs.items) <= errs.items
        invariant forall e :: e in errs.items <==>
          e in old(errs.items) ||
          exists k :: k in s.properties.Keys - keys && k in v.fields &&
            Reported(v.fields[k], s.properties[k], KeyPath(path, k), e)
      {
        var k :| k in keys;
        if k in v.fields {
          Validate(v.fields[k], s.properties[k], KeyPath(path, k), errs);
        }
        keys := keys - {k};
      }
    }

    method CheckItems(v: Json, s: Schema, path: string, errs: ErrorList)
      requires Sound() && RefsResolve(s, defs.Keys) && s.items.Some?
      modifies errs
      ensures old(errs.items) <= errs.items
      ensures forall e :: e in errs.items <==> e in old(errs.items) || ReportedInItems(v, s, path, e)
      decreases v, Rank(s), s, 0
    {
      if !v.Array? {
        return;
      }
      var i := 0;
      while i < |v.elems|
        invariant 0 <= i <= |v.elems|
        invariant old(errs.items) <= errs.items
        invariant forall e :: e in errs.items <==>
          e in old(errs.items) ||
          exists j :: 0 <= j < i && Reported(v.elems[j], s.items.value, IndexPath(path, j), e)
      {
        Validate(v.elems[i], s.items.value, IndexPath(path, i), errs);
        i := i + 1;
      }
    }

    /** Each branch is tried with a vector of its own, up to the first that stays empty. */
    method CheckAnyOf(v: Json, s: Schema, path: string, errs: ErrorList)
      requires Sound() && RefsResolve(s, defs.Keys) && s.reference.None? && s.anyOf != []
      modifies errs
      ensures errs.items == old(errs.items) + if NoBranch(v, s) then [ValidationError(path, AnyOf)] else []
      decreases v, Rank(s), s, 0
    {
      BranchesDescend(s);
      var anyPass, i := false, 0;
      while i < |s.anyOf| && !anyPass
        invariant 0 <= i <= |s.anyOf|
        invariant errs.items == old(errs.items)
        invariant anyPass ==> exists j :: 0 <= j < |s.anyOf| && Satisfies(v, s.anyOf[j])
        invariant !anyPass ==> forall j :: 0 <= j < i ==> !Satisfies(v, s.anyOf[j])
      {
        var tmp := new ErrorList();
        Validate(v, s.anyOf[i], path, tmp);
        SilentIffSatisfied(v, s.anyOf[i], path);
        if tmp.items == [] {
          anyPass := true;
        } else {
          assert tmp.items[0] in tmp.items;
        }
        i := i + 1;
      }
      if !anyPass {
        errs.Push(ValidationError(path, AnyOf));
      }
    }

    // ---------- Where the errors point ----------

    /** Validating `v` against `s` validates the sub-value at `place` against `t`: references are
        followed, and the properties and items that stand for the steps of the place. */
    ghost predicate Governs(v: Json, s: Schema, place: seq<Segment>, t: Schema)
      requires Sound() && RefsResolve(s, defs.Keys)
      decreases v, Rank(s), s
    {
      if s.reference.Some? then
        ReferenceDescends(s);
        Governs(v, defs[s.reference.value], place, t)
      else if place == [] then t == s
      else
        match place[0]
        case Key(name) =>
          v.Object? && name in v.fields && name in s.properties &&
          Governs(v.fields[name], s.properties[name], place[1..], t)
        case Index(i) =>
          v.Array? && i < |v.elems| && s.items.Some? && Governs(v.elems[i], s.items.value, place[1..], t)
    }

    /** What governs a place of `v` resolves, and the place is there. */
    lemma {:induction false} GovernedExists(v: Json, s: Schema, place: seq<Segment>, t: Schema)
      requires Sound() && RefsResolve(s, defs.Keys) && Governs(v, s, place, t)
      ensures At(v, place).Some? && RefsResolve(t, defs.Keys) && t.reference.None?
      decreases v, Rank(s), s
    {
      if s.reference.Some? {
        ReferenceDescends(s);
        GovernedExists(v, defs[s.reference.value], place, t);
      } else if place != [] {
        match place[0]
        case Key(name) => GovernedExists(v.fields[name], s.properties[name], place[1..], t);
        case Index(i) => GovernedExists(v.elems[i], s.items.value, place[1..], t);
      }
    }

    /** `u` violates the keyword `k` of `t`. */
    ghost predicate Breaks(u: Json, t: Schema, k: Keyword)
      requires Sound() && RefsResolve(t, defs.Keys)
    {
      Violates(re, u, t, k) || (k == AnyOf && NoBranch(u, t))
    }

    /** `e` names, in the program's spelling, the place of a sub-value of `v` and a keyword of
        its schema `t` that this sub-value violates. */
    ghost predicate PointsAt(v: Json, s: Schema, path: string, e: ValidationError, place: seq<Segment>, t: Schema)
      requires Sound() && RefsResolve(s, defs.Keys)
    {
      && Governs(v, s, place, t)
      && e.instancePath == path + Spelled(place)
      && (GovernedExists(v, s, place, t); Breaks(At(v, place).value, t, e.keyword))
    }

    lemma PointsBelow(v: Json, child: Json, s: Schema, sub: Schema, path: string, e: ValidationError,
        here: Segment, place: seq<Segment>, t: Schema)
      requires Sound() && RefsResolve(s, defs.Keys) && RefsResolve(sub, defs.Keys) && s.reference.None?
      requires Below(v, here) == Some(child)
      requires match here
        case Key(name) => name in s.properties && s.properties[name] == sub
        case Index(_) => s.items == Some(sub)
      ensures PointsAt(v, s, path, e, [here] + place, t) <==> PointsAt(child, sub, path + Spelled([here]), e, place, t)
    {
      SpelledJoins(here, place);
      assert ([here] + place)[1..] == place && [here][1..] == [];
      assert path + Spelled([here] + place) == path + Spelled([here]) + Spelled(place);
      assert Governs(v, s, [here] + place, t) <==> Governs(child, sub, place, t);
      assert At(v, [here] + place) == At(child, place);
    }

    /** Every reported error points at a sub-value that violates the keyword of its schema. */
    lemma {:induction false} ReportedAtRealPlace(v: Json, s: Schema, path: string, e: ValidationError)
      returns (place: seq<Segment>, t: Schema)
      requires Sound() && RefsResolve(s, defs.Keys) && Reported(v, s, path, e)
      ensures PointsAt(v, s, path, e, place, t)
      decreases v, Rank(s), s
    {
      if s.reference.Some? {
        ReferenceDescends(s);
        place, t := ReportedAtRealPlace(v, defs[s.reference.value], path, e);
      } else if ReportedInProperties(v, s, path, e) {
        var k :| k in s.properties && k in v.fields && Reported(v.fields[k], s.properties[k], KeyPath(path, k), e);
        place, t := ReportedAtRealPlace(v.fields[k], s.properties[k], KeyPath(path, k), e);
        SpelledOnce(path, Key(k));
        PointsBelow(v, v.fields[k], s, s.properties[k], path, e, Key(k), place, t);
        place := [Key(k)] + place;
      } else if ReportedInItems(v, s, path, e) {
        var i :| 0 <= i < |v.elems| && Reported(v.elems[i], s.items.value, IndexPath(path, i), e);
        place, t := ReportedAtRealPlace(v.elems[i], s.items.value, IndexPath(path, i), e);
        SpelledOnce(path, Index(i));
        PointsBelow(v, v.elems[i], s, s.items.value, path, e, Index(i), place, t);
        place := [Index(i)] + place;
      } else {
        place, t := [], s;
        assert path + Spelled(place) == path;
      }
    }

    /** Conversely, no such violation goes unreported. */
    lemma {:induction false} RealPlaceIsReported(v: Json, s: Schema, path: string, e: ValidationError,
        place: seq<Segment>, t: Schema)
      requires Sound() && RefsResolve(s, defs.Keys) && PointsAt(v, s, path, e, place, t)
      ensures Reported(v, s, path, e)
      decreases v, Rank(s), s
    {
      if s.reference.Some? {
        ReferenceDescends(s);
        RealPlaceIsReported(v, defs[s.reference.value], path, e, place, t);
      } else if place == [] {
        assert path + Spelled(place) == path;
      } else {
        var here, rest := place[0], place[1..];
        assert place == [here] + rest;
        SpelledOnce(path, here);
        match here
        case Key(name) =>
          PointsBelow(v, v.fields[name], s, s.properties[name], path, e, here, rest, t);
          RealPlaceIsReported(v.fields[name], s.properties[name], KeyPath(path, name), e, rest, t);
          assert ReportedInProperties(v, s, path, e);
        case Index(i) =>
          PointsBelow(v, v.elems[i], s, s.items.value, path, e, here, rest, t);
          RealPlaceIsReported(v.elems[i], s.items.value, IndexPath(path, i), e, rest, t);
          assert ReportedInItems(v, s, path, e);
      }
    }

    /** The errors are exactly the violations of the schemas that govern the places of the value. */
    lemma ReportedIffViolated(v: Json, s: Schema, path: string, e: ValidationError)
      requires Sound() && RefsResolve(s, defs.Keys)
      ensures Reported(v, s, path, e) <==> exists place, t :: PointsAt(v, s, path, e, place, t)
    {
      if Reported(v, s, path, e) {
        var place, t := ReportedAtRealPlace(v, s, path, e);
      }
      if place, t :| PointsAt(v, s, path, e, place, t) {
        RealPlaceIsReported(v, s, path, e, place, t);
      }
    }
  }

  datatype Segment = Key(name: string) | Index(i: nat)

  /** The sub-value reached by following `place`, if it exists. */
  function At(v: Json, place: seq<Segment>): Option<Json> {
    if place == [] then Some(v)
    else match Below(v, place[0])
      case None => None
      case Some(child) => At(child, place[1..])
  }

  function Below(v: Json, segment: Segment): Option<Json> {
    match segment
    case Key(name) => if v.Object? && name in v.fields then Some(v.fields[name]) else None
    case Index(i) => if v.Array? && i < |v.elems| then Some(v.elems[i]) else None
  }

  function Token(segment: Segment): string {
    match segment
    case Key(name) => name
    case Index(i) => Decimal(i)
  }

  function Spelled(place: seq<Segment>): string {
    if place == [] then "" else "/" + Token(place[0]) + Spelled(place[1..])
  }

  lemma SpelledOnce(path: string, here: Segment)
    ensures path + Spelled([here]) == if here.Key? then KeyPath(path, here.name) else IndexPath(path, here.i)
  {
    assert [here][1..] == [];
    assert Spelled([here]) == "/" + Token(here);
  }

  lemma SpelledJoins(here: Segment, place: seq<Segment>)
    ensures Spelled([here] + place) == Spelled([here]) + Spelled(place)
  {
    assert ([here] + place)[1..] == place && [here][1..] == [];
  }

  predicate NoSlash(place: seq<Segment>) {
    forall s :: s in place ==> '/' !in Token(s)
  }

  lemma SplitAtSlash(a: string, b: string, restA: string, restB: string)
    requires '/' !in a && '/' !in b && a + restA == b + restB
    requires (restA == "" || restA[0] == '/') && (restB == "" || restB[0] == '/')
    ensures a == b && restA == restB
  {
    assert a == (a + restA)[..|a|] == (b + restB)[..|b|] == b;
    assert restA == (a + restA)[|a|..] == (b + restB)[|b|..] == restB;
  }

  lemma {:induction false} PathIdentifies(v: Json, p: seq<Segment>, q: seq<Segment>)
    requires At(v, p).Some? && At(v, q).Some? && NoSlash(p) && NoSlash(q)
    requires Spelled(p) == Spelled(q)
    ensures p == q
  {
    if p != [] && q != [] {
      SameHead(v, p, q);
      assert Below(v, p[0]).Some?;
      PathIdentifies(Below(v, p[0]).value, p[1..], q[1..]);
      assert p == [p[0]] + p[1..] && q == [q[0]] + q[1..];
    }
  }

  /** No key of `v`, at any depth, holds a slash. */
  predicate PlainKeys(v: Json)
    decreases v
  {
    && (v.Object? ==> forall k :: k in v.fields ==> '/' !in k && PlainKeys(v.fields[k]))
    && (v.Array? ==> forall i :: 0 <= i < |v.elems| ==> PlainKeys(v.elems[i]))
  }

  lemma {:induction false} PlainPlaces(v: Json, p: seq<Segment>)
    requires PlainKeys(v) && At(v, p).Some?
    ensures NoSlash(p)
  {
    if p != [] {
      PlainPlaces(Below(v, p[0]).value, p[1..]);
      assert p == [p[0]] + p[1..];
    }
  }

  /** In an instance without slashes in its keys each path is the spelling of one place at most. */
  lemma PathsIdentify(v: Json)
    requires PlainKeys(v)
    ensures forall p, q :: At(v, p).Some? && At(v, q).Some? && Spelled(p) == Spelled(q) ==> p == q
  {
    forall p, q | At(v, p).Some? && At(v, q).Some? && Spelled(p) == Spelled(q) ensures p == q {
      PlainPlaces(v, p);
      PlainPlaces(v, q);
      PathIdentifies(v, p, q);
    }
  }

  lemma SameHead(v: Json, p: seq<Segment>, q: seq<Segment>)
    requires p != [] && q != [] && Below(v, p[0]).Some? && Below(v, q[0]).Some?
    requires NoSlash(p) && NoSlash(q) && Spelled(p) == Spelled(q)
    ensures p[0] == q[0] && Spelled(p[1..]) == Spelled(q[1..])
  {
    assert p[0] in p && q[0] in q;
    AfterSlash(p);
    AfterSlash(q);
    SplitAtSlash(Token(p[0]), Token(q[0]), Spelled(p[1..]), Spelled(q[1..]));
    SameToken(v, p[0], q[0]);
  }

  lemma StartsWithSlash(p: seq<Segment>)
    ensures Spelled(p) == "" || Spelled(p)[0] == '/'
  {
    if p != [] {
      var rest := Token(p[0]) + Spelled(p[1..]);
      assert Spelled(p) == "/" + Token(p[0]) + Spelled(p[1..]) == ['/'] + rest;
    }
  }

  lemma AfterSlash(p: seq<Segment>)
    requires p != []
    ensures |Spelled(p)| > 0 && Spelled(p)[1..] == Token(p[0]) + Spelled(p[1..])
    ensures Spelled(p[1..]) == "" || Spelled(p[1..])[0] == '/'
  {
    var rest := Token(p[0]) + Spelled(p[1..]);
    assert Spelled(p) == "/" + Token(p[0]) + Spelled(p[1..]) == ['/'] + rest;
    assert (['/'] + rest)[1..] == rest;
    StartsWithSlash(p[1..]);
  }

  lemma SameToken(v: Json, a: Segment, b: Segment)
    requires Below(v, a).Some? && Below(v, b).Some? && Token(a) == Token(b)
    ensures a == b
  {
    if a.Index? && b.Index? {
      DecimalValue(a.i);
      DecimalValue(b.i);
    }
  }

  /** The path "/a/b" is both the member "a/b" and the member "b" of "a". */
  lemma SlashIsAmbiguous() returns (v: Json, p: seq<Segment>, q: seq<Segment>)
    ensures At(v, p) == Some(Bool(true)) && At(v, q) == Some(Bool(false))
    ensures Spelled(p) == Spelled(q) == "/a/b"
  {
    v := Object(map["a/b" := Bool(true), "a" := Object(map["b" := Bool(false)])]);
    p, q := [Key("a/b")], [Key("a"), Key("b")];
    assert q[1..] == [Key("b")] && q[1..][1..] == [] && p[1..] == [];
    assert Spelled(q[1..]) == "/b";
  }

  // ---------- The keyword checks ----------

  predicate IsShape(k: Keyword) {
    k.Type? || k.Required?
  }

  predicate IsContent(k: Keyword) {
    k.Enum? || k.Pattern?
  }

  predicate IsBound(k: Keyword) {
    k.MinLength? || k.MinItems? || k.Minimum?
  }

  /** The checks of `validate` that look at the value alone, in its order. */
  method CheckAssertions(re: Regex, v: Json, s: Schema, path: string, errs: ErrorList)
    modifies errs
    ensures old(errs.items) <= errs.items
    ensures forall e :: e in errs.items <==>
      e in old(errs.items) || (e.instancePath == path && Violates(re, v, s, e.keyword))
  {
    CheckShape(re, v, s, path, errs);
    CheckContent(re, v, s, path, errs);
    CheckBounds(re, v, s, path, errs);
  }

  method CheckShape(re: Regex, v: Json, s: Schema, path: string, errs: ErrorList)
    modifies errs
    ensures old(errs.items) <= errs.items
    ensures forall e :: e in errs.items <==>
      e in old(errs.items) || (e.instancePath == path && IsShape(e.keyword) && Violates(re, v, s, e.keyword))
  {
    if s.types.Some? {
      CheckType(v, s.types.value, path, errs);
    }
    if s.required.Some? {
      CheckRequired(v, s.required.value, path, errs);
    }
  }

  method CheckContent(re: Regex, v: Json, s: Schema, path: string, errs: ErrorList)
    modifies errs
    ensures old(errs.items) <= errs.items
    ensures forall e :: e in errs.items <==>
      e in old(errs.items) || (e.instancePath == path && IsContent(e.keyword) && Violates(re, v, s, e.keyword))
  {
    if s.enumValues.Some? {
      CheckEnum(v, s.enumValues.value, path, errs);
    }
    if s.pattern.Some? {
      CheckPattern(re, v, s.pattern.value, path, errs);
    }
  }

  method CheckBounds(re: Regex, v: Json, s: Schema, path: string, errs: ErrorList)
    modifies errs
    ensures old(errs.items) <= errs.items
    ensures forall e :: e in errs.items <==>
      e in old(errs.items) || (e.instancePath == path && IsBound(e.keyword) && Violates(re, v, s, e.keyword))
  {
    if s.minLength.Some? {
      CheckMinLength(v, s.minLength.value, path, errs);
    }
    if s.minItems.Some? {
      CheckMinItems(v, s.minItems.value, path, errs);
    }
    if s.minimum.Some? {
      CheckMinimum(v, s.minimum.value, path, errs);
    }
  }

  method CheckType(v: Json, types: seq<string>, path: string, errs: ErrorList)
    modifies errs
    ensures old(errs.items) <= errs.items
    ensures forall e :: e in errs.items <==>
      e in old(errs.items) || (e == ValidationError(path, Type) && forall t :: t in types ==> !TypeMatches(v, t))
  {
    var i := 0;
    while i < |types| && !TypeMatches(v, types[i])
      invariant 0 <= i <= |types|
      invariant forall j :: 0 <= j < i ==> !TypeMatches(v, types[j])
    {
      i := i + 1;
    }
    if i == |types| {
      errs.Push(ValidationError(path, Type));
    } else {
      assert types[i] in types;
    }
  }

  method CheckRequired(v: Json, reqs: seq<string>, path: string, errs: ErrorList)
    modifies errs
    ensures old(errs.items) <= errs.items
    ensures forall e :: e in errs.items <==>
      e in old(errs.items) ||
      (e.instancePath == path && e.keyword.Required? && v.Object? &&
       e.keyword.name in reqs && e.keyword.name !in v.fields)
  {
    if !v.Object? {
      return;
    }
    var i := 0;
    while i < |reqs|
      invariant 0 <= i <= |reqs|
      invariant old(errs.items) <= errs.items
      invariant forall e :: e in errs.items <==>
        e in old(errs.items) ||
        (e.instancePath == path && e.keyword.Required? && e.keyword.name in reqs[..i] && e.keyword.name !in v.fields)
    {
      if reqs[i] !in v.fields {
        errs.Push(ValidationError(path, Required(reqs[i])));
      }
      assert reqs[..i + 1] == reqs[..i] + [reqs[i]];
      i := i + 1;
    }
    assert reqs[..i] == reqs;
  }

  method CheckEnum(v: Json, allowed: seq<Json>, path: string, errs: ErrorList)
    modifies errs
    ensures old(errs.items) <= errs.items
    ensures forall e :: e in errs.items <==>
      e in old(errs.items) || (e == ValidationError(path, Enum) && v !in allowed)
  {
    if v !in allowed {
      errs.Push(ValidationError(path, Enum));
    }
  }

  method CheckPattern(re: Regex, v: Json, pattern: string, path: string, errs: ErrorList)
    modifies errs
    ensures old(errs.items) <= errs.items
    ensures forall e :: e in errs.items <==>
      e in old(errs.items) || (e == ValidationError(path, Pattern) && v.String? && !re.matches(pattern, v.s))
  {
    if v.String? && !re.matches(pattern, v.s) {
      errs.Push(ValidationError(path, Pattern));
    }
  }

  method CheckMinLength(v: Json, minLength: nat, path: string, errs: ErrorList)
    modifies errs
    ensures old(errs.items) <= errs.items
    ensures forall e :: e in errs.items <==>
      e in old(errs.items) || (e == ValidationError(path, MinLength) && v.String? && |v.s| < minLength)
  {
    if v.String? && |v.s| < minLength {
      errs.Push(ValidationError(path, MinLength));
    }
  }

  method CheckMinItems(v: Json, minItems: nat, path: string, errs: ErrorList)
    modifies errs
    ensures old(errs.items) <= errs.items
    ensures forall e :: e in errs.items <==>
      e in old(errs.items) || (e == ValidationError(path, MinItems) && v.Array? && |v.elems| < minItems)
  {
    if v.Array? && |v.elems| < minItems {
      errs.Push(ValidationError(path, MinItems));
    }
  }

  method CheckMinimum(v: Json, minimum: real, path: string, errs: ErrorList)
    modifies errs
    ensures old(errs.items) <= errs.items
    ensures forall e :: e in errs.items <==>
      e in old(errs.items) || (e == ValidationError(path, Minimum) && v.Number? && AsReal(v.n) < minimum)
  {
    if v.Number? && AsReal(v.n) < minimum {
      errs.Push(ValidationError(path, Minimum));
    }
  }

  // ---------- Building a validator ----------

  function RawDefinitions(raw: Json): map<string, Json> {
    if raw.Object? && "$defs" in raw.fields && raw.fields["$defs"].Object? then raw.fields["$defs"].fields else map[]
  }

  /** The definitions of a well-formed root, compiled. */
  function CompiledDefinitions(re: Regex, raw: Json): map<string, Schema>
    requires WellFormed(re, raw)
  {
    var definitions := Entries(re, raw, "$defs");
    map n | n in definitions :: Compiled(re, definitions[n])
  }

  /** The raw schemas that `Validator::new` accepts. */
  ghost predicate Acceptable(re: Regex, raw: Json) {
    && WellFormed(re, raw)
    && RawRefsResolve(re, raw, RawDefinitions(raw).Keys)
    && Acyclic(ZeroCostGraph(CompiledDefinitions(re, raw)))
  }

  /** What the raw walk has accepted, neither compiled walk can reject. */
  lemma CompiledWalksAreRedundant(re: Regex, raw: Json)
    requires WellFormed(re, raw) && RawRefsResolve(re, raw, RawDefinitions(raw).Keys)
    ensures var defs := CompiledDefinitions(re, raw);
      && RefsResolve(Compiled(re, raw), defs.Keys)
      && forall n :: n in defs ==> RefsResolve(defs[n], defs.Keys)
  {
    var definitions, defs := Entries(re, raw, "$defs"), CompiledDefinitions(re, raw);
    assert defs.Keys == RawDefinitions(raw).Keys;
    RawWalkCoversCompiledWalk(re, raw, defs.Keys);
    forall n | n in defs ensures RefsResolve(defs[n], defs.Keys) {
      assert RawRefsResolve(re, Entries(re, raw, "$defs")[n], defs.Keys);
      RawWalkCoversCompiledWalk(re, definitions[n], defs.Keys);
    }
  }

  /** Validator::new */
  method NewValidator(re: Regex, raw: Json) returns (r: Option<Validator>)
    ensures r.Some? <==> Acceptable(re, raw)
    ensures r.Some? ==> r.value == Validator(re, Compiled(re, raw), CompiledDefinitions(re, raw)) && r.value.Sound()
  {
    if !raw.Object? {
      return None;
    }
    var defs: map<string, Schema> := map[];
    if "$defs" in raw.fields {
      var definitions := CompileEntries(re, raw.fields["$defs"]);
      if definitions.None? {
        return None;
      }
      defs := definitions.value;
    }
    var root := CompileSchema(re, raw);
    if root.None? {
      return None;
    }
    assert defs == CompiledDefinitions(re, raw);
    var names := defs.Keys;
    if !RawRefsResolve(re, raw, names) {
      return None;
    }
    CompiledWalksAreRedundant(re, raw);
    if !RefsResolve(root.value, names) {
      return None;
    }
    while names != {}
      invariant names <= defs.Keys
    {
      var name :| name in names;
      if !RefsResolve(defs[name], defs.Keys) {
        return None;
      }
      names := names - {name};
    }
    var acyclic := DetectRefCycles(root.value, defs);
    if !acyclic {
      return None;
    }
    return Some(Validator(re, root.value, defs));
  }
}
