/** Equality of JSON values as JSON Schema Core 2020-12, section 4.2.2, has it, against equality
    of their representations, with which the program decides `enum`
    (crates/mp/src/mini_schema.rs). */
module JsonEquality {
  import opened Prelude
  import opened JsonSchema

  /** The order of numbers by their mathematical values. */
  predicate AtMost(a: JsonSchema.Number, b: JsonSchema.Number) {
    match (a, b)
    case (Int(i), Int(j)) => i <= j
    case (Int(i), Float(r)) => i as real <= r
    case (Float(r), Int(j)) => r <= j as real
    case (Float(r), Float(s)) => r <= s
  }

  predicate SameNumber(a: JsonSchema.Number, b: JsonSchema.Number) {
    AtMost(a, b) && AtMost(b, a)
  }

  /** The program's conversion keeps that order. */
  lemma ConversionKeepsOrder(a: JsonSchema.Number, b: JsonSchema.Number)
    ensures AtMost(a, b) <==> AsReal(a) <= AsReal(b)
    ensures SameNumber(a, b) <==> AsReal(a) == AsReal(b)
  {}

  /** Numbers are equal when their mathematical values are; arrays and objects by their parts. */
  ghost predicate Same(a: Json, b: Json)
    decreases a
  {
    match a
    case Number(n) => b.Number? && SameNumber(n, b.n)
    case Array(elems) =>
      b.Array? && |elems| == |b.elems| && forall i :: 0 <= i < |elems| ==> Same(elems[i], b.elems[i])
    case Object(fields) =>
      b.Object? && fields.Keys == b.fields.Keys && forall k :: k in fields ==> Same(fields[k], b.fields[k])
    case _ => a == b
  }

  /** JSON Schema Validation 2020-12, section 6.1.2. */
  ghost predicate Allowed(values: seq<Json>, v: Json) {
    exists a :: a in values && Same(a, v)
  }

  /** The other representation of the same number: an integral number has two. */
  function OtherForm(n: Number): Option<Number> {
    match n
    case Int(i) => Some(Float(i as real))
    case Float(r) => if r == r.Floor as real then Some(Int(r.Floor)) else None
  }

  /** `b` is `a` with one number in it put in its other form. */
  ghost predicate Reformed(a: Json, b: Json)
    decreases a
  {
    match a
    case Number(n) => b.Number? && OtherForm(n) == Some(b.n)
    case Array(elems) =>
      b.Array? && |elems| == |b.elems| &&
      exists i :: 0 <= i < |elems| && Reformed(elems[i], b.elems[i]) && b.elems == elems[i := b.elems[i]]
    case Object(fields) =>
      b.Object? && exists k ::
        k in fields && k in b.fields && Reformed(fields[k], b.fields[k]) && b.fields == fields[k := b.fields[k]]
    case _ => false
  }

  /** With each value the list holds every value that differs in the form of one number. */
  ghost predicate Closed(values: seq<Json>) {
    forall a, b :: a in values && Reformed(a, b) ==> b in values
  }

  lemma {:induction false} SameReflexive(a: Json)
    ensures Same(a, a)
    decreases a
  {
    match a
    case Array(elems) =>
      forall i | 0 <= i < |elems| ensures Same(elems[i], elems[i]) {
        SameReflexive(elems[i]);
      }
    case Object(fields) =>
      forall k | k in fields ensures Same(fields[k], fields[k]) {
        SameReflexive(fields[k]);
      }
    case _ =>
  }

  lemma {:induction false} ReformedIsSame(a: Json, b: Json)
    requires Reformed(a, b)
    ensures Same(a, b)
    decreases a
  {
    match a
    case Array(elems) =>
      var i :| 0 <= i < |elems| && Reformed(elems[i], b.elems[i]) && b.elems == elems[i := b.elems[i]];
      ReformedIsSame(elems[i], b.elems[i]);
      forall j | 0 <= j < |elems| ensures Same(elems[j], b.elems[j]) {
        SameReflexive(elems[j]);
      }
    case Object(fields) =>
      var k :|
        k in fields && k in b.fields && Reformed(fields[k], b.fields[k]) && b.fields == fields[k := b.fields[k]];
      ReformedIsSame(fields[k], b.fields[k]);
      forall l | l in fields ensures Same(fields[l], b.fields[l]) {
        SameReflexive(fields[l]);
      }
    case _ =>
  }

  ghost predicate ClosedSet(s: iset<Json>) {
    forall x, y :: x in s && Reformed(x, y) ==> y in s
  }

  function SetAt(elems: seq<Json>, i: nat, x: Json): Json
    requires i < |elems|
  {
    Array(elems[i := x])
  }

  function SetUnder(fields: map<string, Json>, k: string, x: Json): Json {
    Object(fields[k := x])
  }

  lemma ReformedInside(x: Json, y: Json)
    requires Reformed(x, y)
    ensures forall elems: seq<Json>, i: nat :: i < |elems| ==> Reformed(SetAt(elems, i, x), SetAt(elems, i, y))
    ensures forall fields, k :: Reformed(SetUnder(fields, k, x), SetUnder(fields, k, y))
  {
    forall elems: seq<Json>, i: nat | i < |elems| ensures Reformed(SetAt(elems, i, x), SetAt(elems, i, y)) {
      var a, b := elems[i := x], elems[i := y];
      assert a[i] == x && b[i] == y && b == a[i := b[i]];
    }
    forall fields: map<string, Json>, k ensures Reformed(SetUnder(fields, k, x), SetUnder(fields, k, y)) {
      var a, b := fields[k := x], fields[k := y];
      assert a[k] == x && b[k] == y && b == a[k := b[k]];
    }
  }

  /** The values that may stand at place `i` of the array `elems` for it to be in `s`. */
  ghost function FitsAt(s: iset<Json>, elems: seq<Json>, i: nat): (r: iset<Json>)
    requires i < |elems| && ClosedSet(s)
    ensures ClosedSet(r)
  {
    var r := iset x | SetAt(elems, i, x) in s;
    assert ClosedSet(r) by {
      forall x, y | x in r && Reformed(x, y) ensures y in r {
        ReformedInside(x, y);
      }
    }
    r
  }

  /** The values that `k` may have in the object `fields` for it to be in `s`. */
  ghost function FitsUnder(s: iset<Json>, fields: map<string, Json>, k: string): (r: iset<Json>)
    requires ClosedSet(s)
    ensures ClosedSet(r)
  {
    var r := iset x | SetUnder(fields, k, x) in s;
    assert ClosedSet(r) by {
      forall x, y | x in r && Reformed(x, y) ensures y in r {
        ReformedInside(x, y);
      }
    }
    r
  }

  lemma SameNumberForms(m: JsonSchema.Number, n: JsonSchema.Number)
    requires SameNumber(m, n)
    ensures m == n || OtherForm(m) == Some(n)
  {
    match (m, n)
    case (Float(r), Int(j)) =>
      assert r == j as real && r.Floor == j;
    case _ =>
  }

  /** Equal values are reached from each other by changing the form of one number at a time. */
  lemma {:induction false} ClosedHoldsEquals(s: iset<Json>, a: Json, b: Json)
    requires ClosedSet(s) && a in s && Same(a, b)
    ensures b in s
    decreases a
  {
    match a
    case Number(n) =>
      SameNumberForms(n, b.n);
      assert a == b || Reformed(a, b);
    case Array(elems) =>
      var now := elems;
      for i := 0 to |elems|
        invariant Array(now) in s && |now| == |elems|
        invariant forall j :: 0 <= j < |elems| ==> now[j] == if j < i then b.elems[j] else elems[j]
      {
        assert now[i := elems[i]] == now;
        ClosedHoldsEquals(FitsAt(s, now, i), elems[i], b.elems[i]);
        now := now[i := b.elems[i]];
      }
      assert now == b.elems;
    case Object(fields) =>
      var now, todo := fields, fields.Keys;
      while todo != {}
        invariant Object(now) in s && now.Keys == fields.Keys && todo <= fields.Keys
        invariant forall k :: k in fields ==> now[k] == if k in todo then fields[k] else b.fields[k]
      {
        var k :| k in todo;
        assert now[k := fields[k]] == now;
        ClosedHoldsEquals(FitsUnder(s, now, k), fields[k], b.fields[k]);
        now := now[k := b.fields[k]];
        todo := todo - {k};
      }
      assert now == b.fields;
    case _ =>
  }

  /** What the program allows is always allowed; it allows nothing less, on every instance,
      exactly when the list is closed. */
  lemma EnumAgreesIffClosed(values: seq<Json>)
    ensures forall v :: v in values ==> Allowed(values, v)
    ensures (forall v :: v in values <==> Allowed(values, v)) <==> Closed(values)
  {
    forall v | v in values ensures Allowed(values, v) {
      SameReflexive(v);
    }
    if Closed(values) {
      var s := iset x: Json | x in values;
      forall v | Allowed(values, v) ensures v in values {
        var a :| a in values && Same(a, v);
        ClosedHoldsEquals(s, a, v);
      }
    }
    if forall v :: v in values <==> Allowed(values, v) {
      forall a, b | a in values && Reformed(a, b) ensures b in values {
        ReformedIsSame(a, b);
      }
    }
  }

  /** The list [1] allows 1.0, and the program does not. */
  lemma EnumMissesEqualNumber() returns (values: seq<Json>, v: Json)
    ensures values == [Number(Int(1))] && v == Number(Float(1.0))
    ensures Allowed(values, v) && v !in values
  {
    values, v := [Number(Int(1))], Number(Float(1.0));
    assert Same(values[0], v);
  }
}
