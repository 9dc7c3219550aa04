/** JSON values, raw schemas and their compiled form (crates/mp/src/mini_schema.rs).

    Numbers are exact: `Int` is a number without a fraction part in the text, `Float`
    one that has it. Floating-point rounding is not part of this model. Regular
    expressions are an oracle, and error messages are reduced to the keyword. */
module JsonSchema {
  import opened Prelude

  datatype Number = Int(i: int) | Float(r: real)

  datatype Json =
    | Null
    | Bool(b: bool)
    | Number(n: Number)
    | String(s: string)
    | Array(elems: seq<Json>)
    | Object(fields: map<string, Json>)

  /** The regular-expression engine: which sources compile, and what they match. */
  datatype Regex = Regex(compiles: string -> bool, matches: (string, string) -> bool)

  datatype Schema = Schema(
    reference: Option<string>,
    types: Option<seq<string>>,
    required: Option<seq<string>>,
    enumValues: Option<seq<Json>>,
    pattern: Option<string>,
    minLength: Option<nat>,
    minItems: Option<nat>,
    minimum: Option<real>,
    properties: map<string, Schema>,
    items: Option<Schema>,
    anyOf: seq<Schema>)

  const ALLOWED_KEYWORDS: set<string> := {
    "$defs", "$id", "$ref", "$schema", "anyOf", "default", "description", "enum", "items",
    "minItems", "minLength", "minimum", "pattern", "properties", "required", "title", "type" }

  const ALLOWED_TYPES: set<string> := {
    "object", "array", "string", "integer", "number", "boolean", "null" }

  const DEFS_PREFIX := "#/$defs/"

  function AsReal(n: Number): real {
    match n
    case Int(i) => i as real
    case Float(r) => r
  }

  function StripPrefix(s: string, prefix: string): Option<string> {
    if prefix <= s then Some(s[|prefix|..]) else None
  }

  // ---------- Which raw schemas compile ----------

  predicate ReferenceOk(value: Json) {
    value.String? &&
    var name := StripPrefix(value.s, DEFS_PREFIX);
    name.Some? && name.value != "" && '/' !in name.value
  }

  predicate StringsOk(values: seq<Json>) {
    (forall j :: j in values ==> j.String?) && Distinct(values)
  }

  predicate TypesOk(value: Json) {
    match value
    case String(t) => t in ALLOWED_TYPES
    case Array(values) => values != [] && StringsOk(values) && (forall j :: j in values ==> j.s in ALLOWED_TYPES)
    case _ => false
  }

  predicate CountOk(value: Json) {
    value.Number? && value.n.Int? && value.n.i >= 0
  }

  /** The keywords that hold no subschema are well shaped. */
  predicate AssertionsOk(re: Regex, f: map<string, Json>) {
    && ("$ref" in f ==> ReferenceOk(f["$ref"]))
    && ("type" in f ==> TypesOk(f["type"]))
    && ("required" in f ==> f["required"].Array? && StringsOk(f["required"].elems))
    && ("enum" in f ==> f["enum"].Array? && f["enum"].elems != [])
    && ("pattern" in f ==> f["pattern"].String? && re.compiles(f["pattern"].s))
    && ("minLength" in f ==> CountOk(f["minLength"]))
    && ("minItems" in f ==> CountOk(f["minItems"]))
    && ("minimum" in f ==> f["minimum"].Number?)
  }

  predicate EntriesOk(re: Regex, entries: Json)
    decreases entries, 0
  {
    entries.Object? && forall k :: k in entries.fields ==> WellFormed(re, entries.fields[k])
  }

  predicate BranchesOk(re: Regex, branches: Json)
    decreases branches, 0
  {
    branches.Array? && branches.elems != [] && forall j :: j in branches.elems ==> WellFormed(re, j)
  }

  /** The raw schemas that `compile_schema` accepts. */
  predicate WellFormed(re: Regex, raw: Json)
    decreases raw, 1
  {
    raw.Object? &&
    var f := raw.fields;
    && f.Keys <= ALLOWED_KEYWORDS
    && AssertionsOk(re, f)
    && ("properties" in f ==> EntriesOk(re, f["properties"]))
    && ("items" in f ==> WellFormed(re, f["items"]))
    && ("anyOf" in f ==> BranchesOk(re, f["anyOf"]))
    && ("$defs" in f ==> EntriesOk(re, f["$defs"]))
  }

  /** The subschemas under a keyword that maps names to schemas. */
  function Entries(re: Regex, raw: Json, keyword: string): (r: map<string, Json>)
    requires WellFormed(re, raw) && keyword in {"properties", "$defs"}
    ensures forall k :: k in r ==> WellFormed(re, r[k]) && r[k] < raw
  {
    if keyword in raw.fields then
      assert EntriesOk(re, raw.fields[keyword]);
      raw.fields[keyword].fields
    else map[]
  }

  function Branches(re: Regex, raw: Json): (r: seq<Json>)
    requires WellFormed(re, raw)
    ensures forall i :: 0 <= i < |r| ==> WellFormed(re, r[i]) && r[i] < raw
  {
    if "anyOf" in raw.fields then
      assert BranchesOk(re, raw.fields["anyOf"]);
      raw.fields["anyOf"].elems
    else []
  }

  /** `sub` is `raw` or a schema somewhere below it, definitions included. */
  ghost predicate Within(re: Regex, raw: Json, sub: Json): (r: bool)
    requires WellFormed(re, raw)
    ensures r ==> WellFormed(re, sub)
    decreases raw
  {
    || sub == raw
    || (exists keyword, k :: keyword in {"properties", "$defs"} && k in Entries(re, raw, keyword) &&
         Within(re, Entries(re, raw, keyword)[k], sub))
    || ("items" in raw.fields && Within(re, raw.fields["items"], sub))
    || (exists i :: 0 <= i < |Branches(re, raw)| && Within(re, Branches(re, raw)[i], sub))
  }

  // ---------- What they compile to ----------

  function ReferenceName(value: Json): string
    requires ReferenceOk(value)
  {
    StripPrefix(value.s, DEFS_PREFIX).value
  }

  function Strings(values: seq<Json>): seq<string>
    requires StringsOk(values)
  {
    seq(|values|, i requires 0 <= i < |values| => values[i].s)
  }

  function TypeNames(value: Json): seq<string>
    requires TypesOk(value)
  {
    match value
    case String(t) => [t]
    case Array(values) => Strings(values)
  }

  /** The compiled schema before its subschemas are filled in. */
  function CompiledAssertions(re: Regex, f: map<string, Json>): Schema
    requires AssertionsOk(re, f)
  {
    Schema(
      reference := if "$ref" in f then Some(ReferenceName(f["$ref"])) else None,
      types := if "type" in f then Some(TypeNames(f["type"])) else None,
      required := if "required" in f then Some(Strings(f["required"].elems)) else None,
      enumValues := if "enum" in f then Some(f["enum"].elems) else None,
      pattern := if "pattern" in f then Some(f["pattern"].s) else None,
      minLength := if "minLength" in f then Some(f["minLength"].n.i) else None,
      minItems := if "minItems" in f then Some(f["minItems"].n.i) else None,
      minimum := if "minimum" in f then Some(AsReal(f["minimum"].n)) else None,
      properties := map[],
      items := None,
      anyOf := [])
  }

  function Compiled(re: Regex, raw: Json): Schema
    requires WellFormed(re, raw)
    decreases raw
  {
    var properties, branches := Entries(re, raw, "properties"), Branches(re, raw);
    CompiledAssertions(re, raw.fields).(
      properties := map k | k in properties :: Compiled(re, properties[k]),
      items := if "items" in raw.fields then Some(Compiled(re, raw.fields["items"])) else None,
      anyOf := seq(|branches|, i requires 0 <= i < |branches| => Compiled(re, branches[i])))
  }

  // ---------- The compiler ----------

  /** compile_schema: checks the keywords one by one and fills the compiled schema. */
  method CompileSchema(re: Regex, raw: Json) returns (r: Option<Schema>)
    ensures r == if WellFormed(re, raw) then Some(Compiled(re, raw)) else None
    decreases raw, 1
  {
    if !raw.Object? {
      return None;
    }
    var f := raw.fields;
    var keywords := f.Keys;
    while keywords != {}
      invariant keywords <= f.Keys
      invariant forall k :: k in f.Keys - keywords ==> k in ALLOWED_KEYWORDS
    {
      var k :| k in keywords;
      if k !in ALLOWED_KEYWORDS {
        return None;
      }
      keywords := keywords - {k};
    }
    r := CompileAssertions(re, f);
    if r.None? {
      return;
    }
    var properties: map<string, Schema>, items: Option<Schema>, branches: seq<Schema> := map[], None, [];
    if "properties" in f {
      var entries := CompileEntries(re, f["properties"]);
      if entries.None? {
        return None;
      }
      properties := entries.value;
    }
    if "items" in f {
      items := CompileSchema(re, f["items"]);
      if items.None? {
        return None;
      }
    }
    if "anyOf" in f {
      var schemas := CompileBranches(re, f["anyOf"]);
      if schemas.None? {
        return None;
      }
      branches := schemas.value;
    }
    if "$defs" in f {
      var definitions := CompileEntries(re, f["$defs"]);
      if definitions.None? {
        return None;
      }
    }
    Assembled(re, raw, properties, items, branches);
    return Some(r.value.(properties := properties, items := items, anyOf := branches));
  }

  /** The parts make the whole. */
  lemma Assembled(re: Regex, raw: Json, properties: map<string, Schema>, items: Option<Schema>, branches: seq<Schema>)
    requires WellFormed(re, raw)
    requires properties.Keys == Entries(re, raw, "properties").Keys
    requires forall k :: k in properties ==> properties[k] == Compiled(re, Entries(re, raw, "properties")[k])
    requires items == if "items" in raw.fields then Some(Compiled(re, raw.fields["items"])) else None
    requires |branches| == |Branches(re, raw)|
    requires forall i :: 0 <= i < |branches| ==> branches[i] == Compiled(re, Branches(re, raw)[i])
    ensures CompiledAssertions(re, raw.fields).(properties := properties, items := items, anyOf := branches)
         == Compiled(re, raw)
  {
    SameProperties(re, raw, properties);
    SameBranches(re, raw, branches);
  }

  lemma SameProperties(re: Regex, raw: Json, properties: map<string, Schema>)
    requires WellFormed(re, raw) && properties.Keys == Entries(re, raw, "properties").Keys
    requires forall k :: k in properties ==> properties[k] == Compiled(re, Entries(re, raw, "properties")[k])
    ensures properties == Compiled(re, raw).properties
  {}

  lemma SameBranches(re: Regex, raw: Json, branches: seq<Schema>)
    requires WellFormed(re, raw) && |branches| == |Branches(re, raw)|
    requires forall i :: 0 <= i < |branches| ==> branches[i] == Compiled(re, Branches(re, raw)[i])
    ensures branches == Compiled(re, raw).anyOf
  {}

  method CompileAssertions(re: Regex, f: map<string, Json>) returns (r: Option<Schema>)
    ensures r == if AssertionsOk(re, f) then Some(CompiledAssertions(re, f)) else None
  {
    var compiled := Schema(None, None, None, None, None, None, None, None, map[], None, []);
    if "$ref" in f {
      if !ReferenceOk(f["$ref"]) {
        return None;
      }
      compiled := compiled.(reference := Some(ReferenceName(f["$ref"])));
    }
    if "type" in f {
      var types := CompileTypes(f["type"]);
      if types.None? {
        return None;
      }
      compiled := compiled.(types := types);
    }
    if "required" in f {
      var required := CompileStringArray(f["required"]);
      if required.None? {
        return None;
      }
      compiled := compiled.(required := required);
    }
    if "enum" in f {
      if !f["enum"].Array? || f["enum"].elems == [] {
        return None;
      }
      compiled := compiled.(enumValues := Some(f["enum"].elems));
    }
    if "pattern" in f {
      if !f["pattern"].String? || !re.compiles(f["pattern"].s) {
        return None;
      }
      compiled := compiled.(pattern := Some(f["pattern"].s));
    }
    if "minLength" in f {
      if !CountOk(f["minLength"]) {
        return None;
      }
      compiled := compiled.(minLength := Some(f["minLength"].n.i));
    }
    if "minItems" in f {
      if !CountOk(f["minItems"]) {
        return None;
      }
      compiled := compiled.(minItems := Some(f["minItems"].n.i));
    }
    if "minimum" in f {
      if !f["minimum"].Number? {
        return None;
      }
      compiled := compiled.(minimum := Some(AsReal(f["minimum"].n)));
    }
    return Some(compiled);
  }

  method CompileTypes(value: Json) returns (r: Option<seq<string>>)
    ensures r == if TypesOk(value) then Some(TypeNames(value)) else None
  {
    match value
    case String(t) =>
      return if t in ALLOWED_TYPES then Some([t]) else None;
    case Array(values) =>
      if values == [] {
        return None;
      }
      var strings := CompileStringArray(value);
      if strings.None? {
        return None;
      }
      for i := 0 to |values|
        invariant forall j :: 0 <= j < i ==> values[j].s in ALLOWED_TYPES
      {
        if strings.value[i] !in ALLOWED_TYPES {
          return None;
        }
      }
      return strings;
    case _ =>
      return None;
  }

  method CompileStringArray(value: Json) returns (r: Option<seq<string>>)
    ensures r == if value.Array? && StringsOk(value.elems) then Some(Strings(value.elems)) else None
  {
    if !value.Array? {
      return None;
    }
    var values := value.elems;
    var result: seq<string>, seen: set<string> := [], {};
    for i := 0 to |values|
      invariant |result| == i
      invariant forall j :: 0 <= j < i ==> values[j].String? && values[j].s == result[j]
      invariant Distinct(values[..i])
      invariant forall t :: t in seen <==> t in result
    {
      if !values[i].String? {
        return None;
      }
      if values[i].s in seen {
        var j :| 0 <= j < i && result[j] == values[i].s;
        assert values[j] == values[i];
        return None;
      }
      seen := seen + {values[i].s};
      result := result + [values[i].s];
    }
    assert values == values[..|values|];
    assert result == Strings(values);
    return Some(result);
  }

  method CompileEntries(re: Regex, entries: Json) returns (r: Option<map<string, Schema>>)
    ensures r.Some? <==> EntriesOk(re, entries)
    ensures r.Some? ==> r.value.Keys == entries.fields.Keys
    ensures r.Some? ==> forall k :: k in r.value ==> r.value[k] == Compiled(re, entries.fields[k])
    decreases entries, 0
  {
    if !entries.Object? {
      return None;
    }
    var names, result := entries.fields.Keys, map[];
    while names != {}
      invariant names <= entries.fields.Keys
      invariant result.Keys == entries.fields.Keys - names
      invariant forall k :: k in result ==>
        WellFormed(re, entries.fields[k]) && result[k] == Compiled(re, entries.fields[k])
    {
      var k :| k in names;
      var sub := CompileSchema(re, entries.fields[k]);
      if sub.None? {
        return None;
      }
      result := result[k := sub.value];
      names := names - {k};
    }
    return Some(result);
  }

  method CompileBranches(re: Regex, branches: Json) returns (r: Option<seq<Schema>>)
    ensures r.Some? <==> BranchesOk(re, branches)
    ensures r.Some? ==> |r.value| == |branches.elems|
    ensures r.Some? ==> forall i :: 0 <= i < |r.value| ==> r.value[i] == Compiled(re, branches.elems[i])
    decreases branches, 0
  {
    if !branches.Array? || branches.elems == [] {
      return None;
    }
    var elems, result := branches.elems, [];
    for i := 0 to |elems|
      invariant |result| == i
      invariant forall j :: 0 <= j < i ==> WellFormed(re, elems[j]) && result[j] == Compiled(re, elems[j])
    {
      var sub := CompileSchema(re, elems[i]);
      if sub.None? {
        return None;
      }
      result := result + [sub.value];
    }
    return Some(result);
  }
}
