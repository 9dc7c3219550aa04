/** What a raw schema means, keyword by keyword as JSON Schema 2020-12 defines them except that
    the siblings of a reference are ignored, and how compiling and validating relate to it: what
    the validator accepts is valid, and the converse holds where every `enum` is closed. */
module SchemaMeaning {
  import opened Prelude
  import opened JsonSchema
  import opened JsonEquality
  import opened DefinitionNames
  import opened RefGraph
  import opened SchemaValidator

  // ---------- Readings ----------

  /** A verdict on every instance for every raw schema. */
  type Reading = (Json, Json) -> bool

  /** The six primitive types are told apart by the constructor. */
  function PrimitiveType(v: Json): string {
    match v
    case Null => "null"
    case Bool(_) => "boolean"
    case Number(_) => "number"
    case String(_) => "string"
    case Array(_) => "array"
    case Object(_) => "object"
  }

  /** Section 6.1.1: "integer" matches any number with a zero fractional part. */
  ghost predicate TypeHolds(v: Json, t: string) {
    || t == PrimitiveType(v)
    || (t == "integer" && v.Number? && exists i: int :: SameNumber(v.n, Int(i)))
  }

  /** A type keyword is one name or a list of names. */
  ghost predicate TypeKeywordHolds(v: Json, types: Json) {
    || (types.String? && TypeHolds(v, types.s))
    || (types.Array? && exists j :: j in types.elems && j.String? && TypeHolds(v, j.s))
  }

  /** JSON Schema Validation 2020-12, sections 6.1.1, 6.1.2, 6.2.4, 6.3.2, 6.3.3, 6.4.2, 6.5.3. */
  ghost predicate AssertionsHold(re: Regex, v: Json, f: map<string, Json>)
    requires AssertionsOk(re, f)
  {
    EnumHolds(v, f) && OthersHold(re, v, f)
  }

  ghost predicate EnumHolds(v: Json, f: map<string, Json>) {
    "enum" in f && f["enum"].Array? ==> Allowed(f["enum"].elems, v)
  }

  ghost predicate OthersHold(re: Regex, v: Json, f: map<string, Json>)
    requires AssertionsOk(re, f)
  {
    && ("type" in f ==> TypeKeywordHolds(v, f["type"]))
    && ("minimum" in f && v.Number? ==> AtMost(f["minimum"].n, v.n))
    && ("minLength" in f && v.String? ==> f["minLength"].n.i <= |v.s|)
    && ("pattern" in f && v.String? ==> re.matches(f["pattern"].s, v.s))
    && ("minItems" in f && v.Array? ==> f["minItems"].n.i <= |v.elems|)
    && ("required" in f && v.Object? ==> forall j :: j in f["required"].elems ==> j.s in v.fields)
  }

  /** The applicators, JSON Schema Core 2020-12, sections 8.2.3.1, 10.2.1.2, 10.3.1.2 and
      10.3.2.1, except that the siblings of a reference are ignored. */
  ghost predicate Holds(re: Regex, root: Json, sat: Reading, v: Json, raw: Json)
    requires IsNode(re, root, raw)
  {
    var f := raw.fields;
    if "$ref" in f then
      sat(v, Target(re, root, raw))
    else
      && AssertionsHold(re, v, f)
      && ("properties" in f && f["properties"].Object? ==> PropertiesHold(sat, v, f["properties"].fields))
      && ("items" in f ==> ItemsHold(sat, v, f["items"]))
      && ("anyOf" in f && f["anyOf"].Array? ==> SomeBranchHolds(sat, v, f["anyOf"].elems))
  }

  ghost predicate PropertiesHold(sat: Reading, v: Json, properties: map<string, Json>) {
    v.Object? ==> forall k :: k in properties && k in v.fields ==> sat(v.fields[k], properties[k])
  }

  ghost predicate ItemsHold(sat: Reading, v: Json, items: Json) {
    v.Array? ==> forall i :: 0 <= i < |v.elems| ==> sat(v.elems[i], items)
  }

  ghost predicate SomeBranchHolds(sat: Reading, v: Json, branches: seq<Json>) {
    exists i :: 0 <= i < |branches| && sat(v, branches[i])
  }

  /** A schema whose keywords are well shaped and whose references the root defines. Only plain
      names are read, and no reference may lie under an `$id` below the root, where "#/$defs/"
      would denote the definitions of another resource. */
  ghost predicate IsNode(re: Regex, root: Json, raw: Json) {
    && WellFormed(re, raw) && RawRefsResolve(re, raw, RawDefinitions(root).Keys)
    && forall sub :: Within(re, raw, sub) ==> Readable(re, root, sub)
  }

  ghost predicate Readable(re: Regex, root: Json, sub: Json)
    requires WellFormed(re, sub)
  {
    && (sub != root && "$id" in sub.fields ==>
         forall inner :: Within(re, sub, inner) ==> "$ref" !in inner.fields)
    && ("$ref" in sub.fields ==> PlainName(ReferenceName(sub.fields["$ref"])))
  }

  /** The definition that the reference of `raw` denotes. */
  ghost function Target(re: Regex, root: Json, raw: Json): Json
    requires IsNode(re, root, raw) && "$ref" in raw.fields
  {
    assert Within(re, raw, raw);
    LiteralIffPlain(ReferenceName(raw.fields["$ref"]));
    NamedByReference(raw.fields["$ref"]);
    var name :| raw.fields["$ref"].s == "#/$defs/" + name;
    RawDefinitions(root)[KeyOf(name).value]
  }

  /** The program cuts the name out of the reference. */
  lemma NamedByReference(value: Json)
    requires ReferenceOk(value)
    ensures value.s == "#/$defs/" + ReferenceName(value)
    ensures forall name :: value.s == "#/$defs/" + name <==> name == ReferenceName(value)
  {
    assert value.s == "#/$defs/" + ReferenceName(value);
    forall name | value.s == "#/$defs/" + name ensures name == ReferenceName(value) {
      assert name == ("#/$defs/" + name)[|"#/$defs/"|..];
    }
  }

  /** `sat` obeys the meaning of the keywords on every such schema. */
  ghost predicate IsReading(re: Regex, root: Json, sat: Reading) {
    forall v, raw :: IsNode(re, root, raw) ==> (sat(v, raw) <==> Holds(re, root, sat, v, raw))
  }

  ghost predicate InScope(re: Regex, root: Json) {
    Acceptable(re, root) && IsNode(re, root, root)
  }

  // ---------- The parts of a schema are schemas ----------

  /** The validator that `Validator::new` builds from an accepted root. */
  ghost function Built(re: Regex, root: Json): (r: Validator)
    requires Acceptable(re, root)
    ensures r.root == Compiled(re, root) && r.Sound()
  {
    CompiledWalksAreRedundant(re, root);
    Validator(re, Compiled(re, root), CompiledDefinitions(re, root))
  }

  lemma DefinitionsAreEntries(re: Regex, root: Json)
    requires WellFormed(re, root)
    ensures RawDefinitions(root) == Entries(re, root, "$defs")
    ensures RawDefinitions(root).Keys == CompiledDefinitions(re, root).Keys
  {}

  lemma NodeIsSound(re: Regex, root: Json, raw: Json)
    requires Acceptable(re, root) && IsNode(re, root, raw)
    ensures RefsResolve(Compiled(re, raw), Built(re, root).defs.Keys)
  {
    DefinitionsAreEntries(re, root);
    RawWalkCoversCompiledWalk(re, raw, RawDefinitions(root).Keys);
  }

  ghost function RankOf(re: Regex, root: Json, raw: Json): nat
    requires Acceptable(re, root) && WellFormed(re, raw)
  {
    Built(re, root).Rank(Compiled(re, raw))
  }

  /** Following a reference leads to a definition of lower rank. */
  lemma TargetIsNode(re: Regex, root: Json, raw: Json)
    requires InScope(re, root) && IsNode(re, root, raw) && "$ref" in raw.fields
    ensures var target := Target(re, root, raw);
      && IsNode(re, root, target) && RankOf(re, root, target) < RankOf(re, root, raw)
      && Compiled(re, raw).reference.Some? && Compiled(re, raw).reference.value in Built(re, root).defs
      && Compiled(re, target) == Built(re, root).defs[Compiled(re, raw).reference.value]
  {
    NodeIsSound(re, root, raw);
    DefinitionsAreEntries(re, root);
    Built(re, root).ReferenceDescends(Compiled(re, raw));
    assert Within(re, raw, raw);
    var name := ReferenceName(raw.fields["$ref"]);
    LiteralIffPlain(name);
    NamedByReference(raw.fields["$ref"]);
    assert Target(re, root, raw) == RawDefinitions(root)[name];
    assert RawRefsResolve(re, Entries(re, root, "$defs")[name], RawDefinitions(root).Keys);
  }

  lemma PartsAreNodes(re: Regex, root: Json, raw: Json)
    requires InScope(re, root) && IsNode(re, root, raw)
    ensures forall k :: k in Entries(re, raw, "properties") ==> IsNode(re, root, Entries(re, raw, "properties")[k])
    ensures "items" in raw.fields ==> IsNode(re, root, raw.fields["items"])
    ensures forall i :: 0 <= i < |Branches(re, raw)| ==> IsNode(re, root, Branches(re, raw)[i])
    ensures forall i :: "$ref" !in raw.fields && 0 <= i < |Branches(re, raw)| ==>
      RankOf(re, root, Branches(re, raw)[i]) <= RankOf(re, root, raw)
  {
    var names := RawDefinitions(root).Keys;
    forall k | k in Entries(re, raw, "properties")
      ensures IsNode(re, root, Entries(re, raw, "properties")[k])
    {
      assert RawRefsResolve(re, Entries(re, raw, "properties")[k], names);
    }
    if "$ref" !in raw.fields {
      Built(re, root).BranchesDescend(Compiled(re, raw));
      forall i | 0 <= i < |Branches(re, raw)|
        ensures RankOf(re, root, Branches(re, raw)[i]) <= RankOf(re, root, raw)
      {
        assert Compiled(re, raw).anyOf[i] == Compiled(re, Branches(re, raw)[i]);
      }
    }
  }

  lemma RawParts(re: Regex, raw: Json)
    requires WellFormed(re, raw)
    ensures "properties" in raw.fields ==>
      raw.fields["properties"].Object? && Entries(re, raw, "properties") == raw.fields["properties"].fields
    ensures "properties" !in raw.fields ==> Entries(re, raw, "properties") == map[]
    ensures "anyOf" in raw.fields ==>
      raw.fields["anyOf"].Array? && Branches(re, raw) == raw.fields["anyOf"].elems
  {
    if "properties" in raw.fields {
      assert EntriesOk(re, raw.fields["properties"]);
    }
    if "anyOf" in raw.fields {
      assert BranchesOk(re, raw.fields["anyOf"]);
    }
  }

  // ---------- There is exactly one reading ----------

  /** The meaning, by recursion on the instance, then the rank, then the schema. */
  ghost predicate Valid(re: Regex, root: Json, v: Json, raw: Json)
    requires InScope(re, root) && IsNode(re, root, raw)
    decreases v, RankOf(re, root, raw), raw
  {
    PartsAreNodes(re, root, raw);
    if "$ref" in raw.fields then
      TargetIsNode(re, root, raw);
      Valid(re, root, v, Target(re, root, raw))
    else
      var properties, branches := Entries(re, raw, "properties"), Branches(re, raw);
      && AssertionsHold(re, v, raw.fields)
      && (v.Object? ==>
           forall k :: k in properties && k in v.fields ==> Valid(re, root, v.fields[k], properties[k]))
      && ("items" in raw.fields && v.Array? ==>
           forall i :: 0 <= i < |v.elems| ==> Valid(re, root, v.elems[i], raw.fields["items"]))
      && ("anyOf" in raw.fields ==>
           exists i :: 0 <= i < |branches| && Valid(re, root, v, branches[i]))
  }

  ghost function Meaning(re: Regex, root: Json): Reading
    requires InScope(re, root)
  {
    (v, raw) => IsNode(re, root, raw) && Valid(re, root, v, raw)
  }

  /** An accepted root has a reading. */
  lemma ReadingExists(re: Regex, root: Json)
    requires InScope(re, root)
    ensures IsReading(re, root, Meaning(re, root))
  {
    forall v, raw | IsNode(re, root, raw)
      ensures Meaning(re, root)(v, raw) <==> Holds(re, root, Meaning(re, root), v, raw)
    {
      if "$ref" in raw.fields {
        TargetIsNode(re, root, raw);
      } else {
        MeaningObeysKeywords(re, root, v, raw);
      }
    }
  }

  lemma MeaningObeysKeywords(re: Regex, root: Json, v: Json, raw: Json)
    requires InScope(re, root) && IsNode(re, root, raw) && "$ref" !in raw.fields
    ensures Valid(re, root, v, raw) <==> Holds(re, root, Meaning(re, root), v, raw)
  {
    PartsAreNodes(re, root, raw);
    RawParts(re, raw);
    PropertiesMean(re, root, v, raw);
    BranchesMean(re, root, v, raw);
    if "items" in raw.fields {
      ItemsMean(re, root, v, raw.fields["items"]);
    }
  }

  lemma PropertiesMean(re: Regex, root: Json, v: Json, raw: Json)
    requires InScope(re, root) && IsNode(re, root, raw)
    ensures var properties := Entries(re, raw, "properties");
      && (forall k :: k in properties ==> IsNode(re, root, properties[k]))
      && (PropertiesHold(Meaning(re, root), v, properties) <==>
           (v.Object? ==>
             forall k :: k in properties && k in v.fields ==> Valid(re, root, v.fields[k], properties[k])))
  {
    PartsAreNodes(re, root, raw);
  }

  lemma ItemsMean(re: Regex, root: Json, v: Json, items: Json)
    requires InScope(re, root) && IsNode(re, root, items)
    ensures ItemsHold(Meaning(re, root), v, items) <==>
      (v.Array? ==> forall i :: 0 <= i < |v.elems| ==> Valid(re, root, v.elems[i], items))
  {}

  lemma BranchesMean(re: Regex, root: Json, v: Json, raw: Json)
    requires InScope(re, root) && IsNode(re, root, raw)
    ensures var branches := Branches(re, raw);
      && (forall i :: 0 <= i < |branches| ==> IsNode(re, root, branches[i]))
      && (SomeBranchHolds(Meaning(re, root), v, branches) <==>
           exists i :: 0 <= i < |branches| && Valid(re, root, v, branches[i]))
  {
    PartsAreNodes(re, root, raw);
  }

  /** And no more than one. */
  lemma {:induction false} ReadingIsUnique(re: Regex, root: Json, sat: Reading, v: Json, raw: Json)
    requires InScope(re, root) && IsReading(re, root, sat) && IsNode(re, root, raw)
    ensures sat(v, raw) <==> Valid(re, root, v, raw)
    decreases v, RankOf(re, root, raw), raw
  {
    assert sat(v, raw) <==> Holds(re, root, sat, v, raw);
    PartsAreNodes(re, root, raw);
    RawParts(re, raw);
    if "$ref" in raw.fields {
      TargetIsNode(re, root, raw);
      ReadingIsUnique(re, root, sat, v, Target(re, root, raw));
    } else {
      var properties, branches := Entries(re, raw, "properties"), Branches(re, raw);
      forall k | v.Object? && k in properties && k in v.fields
        ensures sat(v.fields[k], properties[k]) <==> Valid(re, root, v.fields[k], properties[k])
      {
        ReadingIsUnique(re, root, sat, v.fields[k], properties[k]);
      }
      forall i | "items" in raw.fields && v.Array? && 0 <= i < |v.elems|
        ensures sat(v.elems[i], raw.fields["items"]) <==> Valid(re, root, v.elems[i], raw.fields["items"])
      {
        ReadingIsUnique(re, root, sat, v.elems[i], raw.fields["items"]);
      }
      forall i | 0 <= i < |branches| ensures sat(v, branches[i]) <==> Valid(re, root, v, branches[i]) {
        ReadingIsUnique(re, root, sat, v, branches[i]);
      }
    }
  }

  // ---------- Keywords that look at one value only ----------

  /** Validity follows from acceptance, and where `exact` acceptance from validity. */
  predicate Follows(exact: bool, accepted: bool, valid: bool) {
    (accepted ==> valid) && (exact && valid ==> accepted)
  }

  ghost predicate EnumClosed(f: map<string, Json>) {
    "enum" in f && f["enum"].Array? ==> Closed(f["enum"].elems)
  }

  lemma RequiredAgrees(re: Regex, v: Json, f: map<string, Json>)
    requires AssertionsOk(re, f) && "required" in f && v.Object?
    ensures (forall j :: j in f["required"].elems ==> j.s in v.fields)
       <==> (forall name :: !Violates(re, v, CompiledAssertions(re, f), Required(name)))
  {
    var s, elems := CompiledAssertions(re, f), f["required"].elems;
    assert s.required == Some(Strings(elems));
    forall j | j in elems ensures j.s in s.required.value {
      var i :| 0 <= i < |elems| && elems[i] == j;
      assert s.required.value[i] == j.s;
    }
    if j :| j in elems && j.s !in v.fields {
      assert Violates(re, v, s, Required(j.s));
    }
  }

  ghost predicate NothingViolated(re: Regex, v: Json, s: Schema) {
    !Violates(re, v, s, Enum) && OthersSilent(re, v, s)
  }

  ghost predicate OthersSilent(re: Regex, v: Json, s: Schema) {
    forall k: Keyword :: k != Enum ==> !Violates(re, v, s, k)
  }

  lemma TypesAgree(v: Json, t: string)
    requires t in ALLOWED_TYPES
    ensures TypeMatches(v, t) <==> TypeHolds(v, t)
  {
    if v.Number? {
      IntegersAgree(v);
    }
  }

  /** The program's test for integers, which looks at the fraction, finds the integral numbers. */
  lemma IntegersAgree(v: Json)
    requires v.Number?
    ensures IsJsonInteger(v) <==> exists i: int :: SameNumber(v.n, Int(i))
  {
    match v.n
    case Int(i) => assert SameNumber(v.n, Int(i));
    case Float(r) =>
      if r == r.Floor as real {
        assert SameNumber(v.n, Int(r.Floor));
      }
      forall i: int | SameNumber(v.n, Int(i)) ensures r == r.Floor as real {
        assert r == i as real;
      }
  }

  /** Every value has exactly one primitive type, and the program finds that one. */
  lemma OnePrimitiveType(v: Json)
    ensures forall t :: t in ALLOWED_TYPES - {"integer"} ==> (TypeMatches(v, t) <==> t == PrimitiveType(v))
    ensures PrimitiveType(v) in ALLOWED_TYPES - {"integer"}
  {
    forall t | t in ALLOWED_TYPES - {"integer"} ensures TypeMatches(v, t) <==> t == PrimitiveType(v) {
      TypesAgree(v, t);
    }
  }

  lemma TypeNamesListed(types: Json)
    requires TypesOk(types) && types.Array?
    ensures forall t :: t in TypeNames(types) <==> exists j :: j in types.elems && j.s == t
  {
    var names := TypeNames(types);
    assert forall i :: 0 <= i < |names| ==> names[i] == types.elems[i].s;
    forall j | j in types.elems ensures j.s in names {
      var i :| 0 <= i < |types.elems| && types.elems[i] == j;
      assert names[i] == j.s;
    }
  }

  lemma TypeNamesAgree(v: Json, types: Json)
    requires TypesOk(types)
    ensures (exists t :: t in TypeNames(types) && TypeMatches(v, t)) <==> TypeKeywordHolds(v, types)
  {
    if types.String? {
      TypesAgree(v, types.s);
    } else {
      TypeNamesListed(types);
      forall j | j in types.elems ensures TypeMatches(v, j.s) <==> TypeHolds(v, j.s) {
        TypesAgree(v, j.s);
      }
    }
  }

  lemma TypeKeywordAgrees(re: Regex, v: Json, f: map<string, Json>)
    requires AssertionsOk(re, f) && "type" in f
    ensures Violates(re, v, CompiledAssertions(re, f), Type) <==> !TypeKeywordHolds(v, f["type"])
  {
    assert CompiledAssertions(re, f).types == Some(TypeNames(f["type"]));
    TypeNamesAgree(v, f["type"]);
  }

  lemma MinimumAgrees(re: Regex, v: Json, f: map<string, Json>)
    requires AssertionsOk(re, f) && "minimum" in f && v.Number?
    ensures Violates(re, v, CompiledAssertions(re, f), Minimum) <==> !AtMost(f["minimum"].n, v.n)
  {
    ConversionKeepsOrder(f["minimum"].n, v.n);
  }

  lemma OthersAgree(re: Regex, v: Json, f: map<string, Json>)
    requires AssertionsOk(re, f)
    ensures OthersHold(re, v, f) <==> OthersSilent(re, v, CompiledAssertions(re, f))
  {
    var s := CompiledAssertions(re, f);
    if "required" in f && v.Object? {
      RequiredAgrees(re, v, f);
    }
    if "type" in f {
      TypeKeywordAgrees(re, v, f);
    }
    if "minimum" in f && v.Number? {
      MinimumAgrees(re, v, f);
    }
    if OthersHold(re, v, f) {
      forall k: Keyword | k != Enum ensures !Violates(re, v, s, k) {}
    }
    if OthersSilent(re, v, s) {
      SilentHolds(re, v, f);
    }
  }

  lemma SilentHolds(re: Regex, v: Json, f: map<string, Json>)
    requires AssertionsOk(re, f) && OthersSilent(re, v, CompiledAssertions(re, f))
    ensures OthersHold(re, v, f)
  {
    var s := CompiledAssertions(re, f);
    if "required" in f && v.Object? {
      RequiredAgrees(re, v, f);
    }
    if "type" in f {
      TypeKeywordAgrees(re, v, f);
    }
    if "minimum" in f && v.Number? {
      MinimumAgrees(re, v, f);
    }
    assert !Violates(re, v, s, Type) && !Violates(re, v, s, Minimum);
    assert !Violates(re, v, s, MinLength) && !Violates(re, v, s, Pattern) && !Violates(re, v, s, MinItems);
  }

  lemma EnumAgrees(re: Regex, v: Json, f: map<string, Json>)
    requires AssertionsOk(re, f)
    ensures Violates(re, v, CompiledAssertions(re, f), Enum) <==> "enum" in f && v !in f["enum"].elems
    ensures Follows(EnumClosed(f), !Violates(re, v, CompiledAssertions(re, f), Enum), EnumHolds(v, f))
  {
    if "enum" in f {
      EnumAgreesIffClosed(f["enum"].elems);
    }
  }

  /** What the compiled assertions let pass satisfies the raw ones, and the converse holds if
      the allowed values, where there are any, are closed. */
  lemma AssertionsAgree(re: Regex, v: Json, f: map<string, Json>)
    requires AssertionsOk(re, f)
    ensures Follows(EnumClosed(f), NothingViolated(re, v, CompiledAssertions(re, f)), AssertionsHold(re, v, f))
  {
    OthersAgree(re, v, f);
    EnumAgrees(re, v, f);
  }

  lemma CompiledKeepsAssertions(re: Regex, v: Json, raw: Json)
    requires WellFormed(re, raw)
    ensures NothingViolated(re, v, Compiled(re, raw)) <==> NothingViolated(re, v, CompiledAssertions(re, raw.fields))
  {
    var s, t := CompiledAssertions(re, raw.fields), Compiled(re, raw);
    forall k: Keyword ensures Violates(re, v, s, k) <==> Violates(re, v, t, k) {}
  }

  lemma CompiledKeepsApplicators(re: Regex, raw: Json)
    requires WellFormed(re, raw)
    ensures var s := Compiled(re, raw);
      && (s.reference.Some? <==> "$ref" in raw.fields)
      && (s.items.Some? <==> "items" in raw.fields)
      && (s.anyOf != [] <==> "anyOf" in raw.fields)
  {
    if "anyOf" in raw.fields {
      assert BranchesOk(re, raw.fields["anyOf"]);
    }
  }

  // ---------- Validation against the meaning ----------

  /** No `enum` anywhere in `raw` tells equal numbers apart. */
  ghost predicate EnumsClosed(re: Regex, raw: Json)
    requires WellFormed(re, raw)
  {
    forall sub :: Within(re, raw, sub) ==> EnumClosed(sub.fields)
  }

  /** The schemas on which the two are claimed to coincide. */
  ghost predicate Exact(re: Regex, root: Json, raw: Json)
    requires WellFormed(re, root) && WellFormed(re, raw)
  {
    EnumsClosed(re, root) && EnumsClosed(re, raw)
  }

  ghost predicate Accepts(re: Regex, root: Json, v: Json, raw: Json)
    requires InScope(re, root) && IsNode(re, root, raw)
  {
    NodeIsSound(re, root, raw);
    Built(re, root).Satisfies(v, Compiled(re, raw))
  }

  /** What the validator accepts is valid; the converse holds where every `enum` is closed. */
  lemma {:induction false} AcceptedIsValid(re: Regex, root: Json, v: Json, raw: Json)
    requires InScope(re, root) && IsNode(re, root, raw)
    ensures Follows(Exact(re, root, raw), Accepts(re, root, v, raw), Valid(re, root, v, raw))
    decreases v, RankOf(re, root, raw), raw, 1
  {
    NodeIsSound(re, root, raw);
    if "$ref" in raw.fields {
      ReferenceFollows(re, root, v, raw);
    } else {
      PropertiesFollow(re, root, v, raw);
      ItemsFollow(re, root, v, raw);
      BranchesFollow(re, root, v, raw);
      KeywordsFollow(re, root, v, raw);
    }
  }

  lemma {:induction false} ReferenceFollows(re: Regex, root: Json, v: Json, raw: Json)
    requires InScope(re, root) && IsNode(re, root, raw) && "$ref" in raw.fields
    ensures Follows(Exact(re, root, raw), Accepts(re, root, v, raw), Valid(re, root, v, raw))
    decreases v, RankOf(re, root, raw), raw, 0
  {
    var target := Target(re, root, raw);
    NodeIsSound(re, root, raw);
    TargetIsNode(re, root, raw);
    AcceptedIsValid(re, root, v, target);
    assert EnumsClosed(re, root) ==> EnumsClosed(re, target) by {
      DefinitionsAreEntries(re, root);
      LiteralIffPlain(ReferenceName(raw.fields["$ref"]));
      NamedByReference(raw.fields["$ref"]);
      assert Within(re, raw, raw);
    }
    assert Accepts(re, root, v, raw) <==> Accepts(re, root, v, target);
    assert Valid(re, root, v, raw) <==> Valid(re, root, v, target);
  }

  lemma ValidUnfolds(re: Regex, root: Json, v: Json, raw: Json)
    requires InScope(re, root) && IsNode(re, root, raw) && "$ref" !in raw.fields
    ensures Valid(re, root, v, raw) <==>
      && AssertionsHold(re, v, raw.fields)
      && PropertiesHold(Meaning(re, root), v, Entries(re, raw, "properties"))
      && ("items" in raw.fields ==> ItemsHold(Meaning(re, root), v, raw.fields["items"]))
      && ("anyOf" in raw.fields ==> SomeBranchHolds(Meaning(re, root), v, Branches(re, raw)))
  {
    ReadingExists(re, root);
    RawParts(re, raw);
    var sat := Meaning(re, root);
    assert sat(v, raw) <==> Holds(re, root, sat, v, raw);
  }

  lemma KeywordsFollow(re: Regex, root: Json, v: Json, raw: Json)
    requires InScope(re, root) && IsNode(re, root, raw) && "$ref" !in raw.fields
    requires RefsResolve(Compiled(re, raw), Built(re, root).defs.Keys)
    requires Follows(Exact(re, root, raw), Built(re, root).PropertiesSatisfied(v, Compiled(re, raw)),
      PropertiesHold(Meaning(re, root), v, Entries(re, raw, "properties")))
    requires Follows(Exact(re, root, raw), Built(re, root).ItemsSatisfied(v, Compiled(re, raw)),
      "items" in raw.fields ==> ItemsHold(Meaning(re, root), v, raw.fields["items"]))
    requires Follows(Exact(re, root, raw), Built(re, root).SomeBranchSatisfied(v, Compiled(re, raw)),
      SomeBranchHolds(Meaning(re, root), v, Branches(re, raw)))
    ensures Follows(Exact(re, root, raw), Built(re, root).Satisfies(v, Compiled(re, raw)), Valid(re, root, v, raw))
  {
    AssertionsAgree(re, v, raw.fields);
    CompiledKeepsAssertions(re, v, raw);
    CompiledKeepsApplicators(re, raw);
    ValidUnfolds(re, root, v, raw);
    assert Within(re, raw, raw);
    SatisfiesUnfolds(re, root, v, Compiled(re, raw));
  }

  lemma SatisfiesUnfolds(re: Regex, root: Json, v: Json, s: Schema)
    requires Acceptable(re, root) && RefsResolve(s, Built(re, root).defs.Keys) && s.reference.None?
    ensures var b := Built(re, root); b.Satisfies(v, s) <==>
      && NothingViolated(re, v, s) && b.PropertiesSatisfied(v, s) && b.ItemsSatisfied(v, s)
      && (s.anyOf == [] || b.SomeBranchSatisfied(v, s))
  {}

  lemma {:induction false} PropertiesFollow(re: Regex, root: Json, v: Json, raw: Json)
    requires InScope(re, root) && IsNode(re, root, raw)
    requires RefsResolve(Compiled(re, raw), Built(re, root).defs.Keys)
    ensures Follows(Exact(re, root, raw), Built(re, root).PropertiesSatisfied(v, Compiled(re, raw)),
      PropertiesHold(Meaning(re, root), v, Entries(re, raw, "properties")))
    decreases v, RankOf(re, root, raw), raw, 0
  {
    PartsAreNodes(re, root, raw);
    var b, s, properties := Built(re, root), Compiled(re, raw), Entries(re, raw, "properties");
    forall k | v.Object? && k in properties && k in v.fields
      ensures Follows(Exact(re, root, raw), b.Satisfies(v.fields[k], s.properties[k]),
        Valid(re, root, v.fields[k], properties[k]))
    {
      AcceptedIsValid(re, root, v.fields[k], properties[k]);
    }
  }

  lemma {:induction false} ItemsFollow(re: Regex, root: Json, v: Json, raw: Json)
    requires InScope(re, root) && IsNode(re, root, raw)
    requires RefsResolve(Compiled(re, raw), Built(re, root).defs.Keys)
    ensures Follows(Exact(re, root, raw), Built(re, root).ItemsSatisfied(v, Compiled(re, raw)),
      "items" in raw.fields ==> ItemsHold(Meaning(re, root), v, raw.fields["items"]))
    decreases v, RankOf(re, root, raw), raw, 0
  {
    PartsAreNodes(re, root, raw);
    var b, s := Built(re, root), Compiled(re, raw);
    forall i | "items" in raw.fields && v.Array? && 0 <= i < |v.elems|
      ensures Follows(Exact(re, root, raw), b.Satisfies(v.elems[i], s.items.value),
        Valid(re, root, v.elems[i], raw.fields["items"]))
    {
      AcceptedIsValid(re, root, v.elems[i], raw.fields["items"]);
    }
  }

  lemma {:induction false} BranchesFollow(re: Regex, root: Json, v: Json, raw: Json)
    requires InScope(re, root) && IsNode(re, root, raw) && "$ref" !in raw.fields
    requires RefsResolve(Compiled(re, raw), Built(re, root).defs.Keys)
    ensures Follows(Exact(re, root, raw), Built(re, root).SomeBranchSatisfied(v, Compiled(re, raw)),
      SomeBranchHolds(Meaning(re, root), v, Branches(re, raw)))
    decreases v, RankOf(re, root, raw), raw, 0
  {
    PartsAreNodes(re, root, raw);
    var b, s, branches := Built(re, root), Compiled(re, raw), Branches(re, raw);
    forall i | 0 <= i < |branches|
      ensures Follows(Exact(re, root, raw), b.Satisfies(v, s.anyOf[i]), Valid(re, root, v, branches[i]))
    {
      assert s.anyOf[i] == Compiled(re, branches[i]);
      AcceptedIsValid(re, root, v, branches[i]);
    }
  }

  /** Any reading of an accepted root, at any schema over its definitions. */
  lemma ReadingIsValidation(re: Regex, root: Json, sat: Reading, v: Json, raw: Json)
    requires InScope(re, root) && IsReading(re, root, sat) && IsNode(re, root, raw)
    ensures Follows(Exact(re, root, raw), Accepts(re, root, v, raw), sat(v, raw))
  {
    ReadingIsUnique(re, root, sat, v, raw);
    AcceptedIsValid(re, root, v, raw);
  }

  /** At the root: acceptance is validity if every `enum` is closed. */
  lemma AcceptedIffRead(re: Regex, root: Json, sat: Reading, v: Json)
    requires InScope(re, root) && IsReading(re, root, sat) && EnumsClosed(re, root)
    ensures Built(re, root).Satisfies(v, Built(re, root).root) <==> sat(v, root)
  {
    ReadingIsValidation(re, root, sat, v, root);
  }

  predicate IsEnumeration(raw: Json) {
    raw.Object? && "enum" in raw.fields && raw.fields["enum"].Array? &&
    raw.fields.Keys <= {"enum", "title", "description", "default", "$schema"}
  }

  lemma EnumerationCompiled(re: Regex, raw: Json)
    requires WellFormed(re, raw) && IsEnumeration(raw)
    ensures Compiled(re, raw)
         == Schema(None, None, None, Some(raw.fields["enum"].elems), None, None, None, None, map[], None, [])
  {
    var f := raw.fields;
    assert "$ref" !in f && "type" !in f && "required" !in f && "pattern" !in f && "minLength" !in f;
    assert "minItems" !in f && "minimum" !in f && "properties" !in f && "items" !in f && "anyOf" !in f;
  }

  lemma EnumerationAccepts(re: Regex, root: Json, v: Json, raw: Json)
    requires InScope(re, root) && IsNode(re, root, raw) && IsEnumeration(raw)
    ensures Accepts(re, root, v, raw) <==> v in raw.fields["enum"].elems
  {
    var s := Compiled(re, raw);
    NodeIsSound(re, root, raw);
    EnumerationCompiled(re, raw);
    SatisfiesUnfolds(re, root, v, s);
    assert OthersSilent(re, v, s);
  }

  lemma EnumerationAllows(re: Regex, root: Json, v: Json, raw: Json)
    requires InScope(re, root) && IsNode(re, root, raw) && IsEnumeration(raw)
    ensures Valid(re, root, v, raw) <==> Allowed(raw.fields["enum"].elems, v)
  {
    var f := raw.fields;
    ValidUnfolds(re, root, v, raw);
    assert "type" !in f && "required" !in f && "pattern" !in f && "minLength" !in f;
    assert "minItems" !in f && "minimum" !in f && "properties" !in f && "items" !in f && "anyOf" !in f;
    assert OthersHold(re, v, f) && EnumHolds(v, f) <==> Allowed(f["enum"].elems, v);
    assert PropertiesHold(Meaning(re, root), v, Entries(re, raw, "properties"));
  }

  /** For a schema that only enumerates values, acceptance is validity on every instance
      exactly if its list is closed. */
  lemma EnumerationExactIffClosed(re: Regex, root: Json, raw: Json)
    requires InScope(re, root) && IsNode(re, root, raw) && IsEnumeration(raw)
    ensures (forall v :: Accepts(re, root, v, raw) <==> Valid(re, root, v, raw)) <==> EnumClosed(raw.fields)
  {
    EnumAgreesIffClosed(raw.fields["enum"].elems);
    forall v
      ensures Accepts(re, root, v, raw) <==> v in raw.fields["enum"].elems
      ensures Valid(re, root, v, raw) <==> Allowed(raw.fields["enum"].elems, v)
    {
      EnumerationAccepts(re, root, v, raw);
      EnumerationAllows(re, root, v, raw);
    }
  }
}
