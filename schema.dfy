/** Schemas of the versioned binary format: typed, tagged field definitions, the values
    records carry, validation, a registry keyed by (name, version), and the
    compatibility check between two versions of a schema. */
module Schemas {
  import opened Common

  /** The field types; which one a field has decides its wire form, and the type
      itself is never written. */
  datatype FieldType = Int32 | Int64 | Float32 | Float64 | String | Bytes | Bool | Array | Map | Nested

  /** The Python values a record can hold. A dict appears in two roles: a record
      (top-level data, NESTED values, decoded results) is keyed by field name and
      order-free; a MAP field's value is encoded in its iteration order, so it keeps
      its entries in that order. A float is its IEEE 754 bit pattern, big-endian. */
  datatype Value =
    | Null
    | IntV(i: int)
    | FloatV(bits: seq<byte>)
    | BoolV(b: bool)
    | StrV(s: string)
    | BytesV(bytes: seq<byte>)
    | ListV(items: seq<Value>)
    | DictV(entries: seq<(Value, Value)>)
    | RecordV(fields: map<string, Value>)

  /** `defaultValue == Null` is a field without a default. */
  datatype FieldDef = FieldDef(
    tag: int,
    name: string,
    fieldType: FieldType,
    required: bool,
    defaultValue: Value,
    elementType: Option<FieldType>,
    nestedSchema: Option<Schema>)

  datatype Schema = Schema(name: string, version: int, fields: seq<FieldDef>)

  /** The type an array field's items are written and read as: the declared element
      type, STRING when none is declared. */
  function ElementTypeOf(f: FieldDef): FieldType
  {
    if f.elementType.Some? then f.elementType.value else String
  }

  /** `add_field`: the new definition goes after all existing ones. */
  function AddField(s: Schema, f: FieldDef): (r: Schema)
    ensures r.name == s.name && r.version == s.version
    ensures |r.fields| == |s.fields| + 1 && r.fields[..|s.fields|] == s.fields && r.fields[|s.fields|] == f
  {
    s.(fields := s.fields + [f])
  }

  /** Position of the first field with `tag`, in declaration order. */
  function TagIndex(fs: seq<FieldDef>, tag: int): (r: Option<nat>)
    ensures r.Some? ==> r.value < |fs| && fs[r.value].tag == tag
    ensures r.Some? ==> forall j :: 0 <= j < r.value ==> fs[j].tag != tag
    ensures r.None? <==> forall j :: 0 <= j < |fs| ==> fs[j].tag != tag
  {
    if |fs| == 0 then None
    else if fs[0].tag == tag then Some(0)
    else match TagIndex(fs[1..], tag)
      case None => None
      case Some(j) => Some(j + 1)
  }

  /** Position of the first field called `name`, in declaration order. */
  function NameIndex(fs: seq<FieldDef>, name: string): (r: Option<nat>)
    ensures r.Some? ==> r.value < |fs| && fs[r.value].name == name
    ensures r.Some? ==> forall j :: 0 <= j < r.value ==> fs[j].name != name
    ensures r.None? <==> forall j :: 0 <= j < |fs| ==> fs[j].name != name
  {
    if |fs| == 0 then None
    else if fs[0].name == name then Some(0)
    else match NameIndex(fs[1..], name)
      case None => None
      case Some(j) => Some(j + 1)
  }

  function FieldAt(fs: seq<FieldDef>, i: Option<nat>): Option<FieldDef>
    requires i.Some? ==> i.value < |fs|
  {
    if i.Some? then Some(fs[i.value]) else None
  }

  method GetFieldByTag(s: Schema, tag: int) returns (r: Option<FieldDef>)
    ensures r == FieldAt(s.fields, TagIndex(s.fields, tag))
  {
    var i := 0;
    while i < |s.fields|
      invariant 0 <= i <= |s.fields|
      invariant forall j :: 0 <= j < i ==> s.fields[j].tag != tag
    {
      if s.fields[i].tag == tag {
        return Some(s.fields[i]);
      }
      i := i + 1;
    }
    return None;
  }

  method GetFieldByName(s: Schema, name: string) returns (r: Option<FieldDef>)
    ensures r == FieldAt(s.fields, NameIndex(s.fields, name))
  {
    var i := 0;
    while i < |s.fields|
      invariant 0 <= i <= |s.fields|
      invariant forall j :: 0 <= j < i ==> s.fields[j].name != name
    {
      if s.fields[i].name == name {
        return Some(s.fields[i]);
      }
      i := i + 1;
    }
    return None;
  }

  /** A field added under a tag that is already taken is never the one found by tag. */
  lemma AddFieldLookup(s: Schema, f: FieldDef)
    ensures var r := AddField(s, f);
      TagIndex(r.fields, f.tag) == (if TagIndex(s.fields, f.tag).Some? then TagIndex(s.fields, f.tag) else Some(|s.fields|))
    ensures forall t :: t != f.tag ==> TagIndex(AddField(s, f).fields, t) == TagIndex(s.fields, t)
  {
    var r := AddField(s, f);
    forall t
      ensures TagIndex(r.fields, t) == (if TagIndex(s.fields, t).Some? then TagIndex(s.fields, t) else if t == f.tag then Some(|s.fields|) else None)
    {
      TagIndexAppend(s.fields, f, t);
    }
  }

  lemma {:induction false} TagIndexAppend(fs: seq<FieldDef>, f: FieldDef, t: int)
    ensures TagIndex(fs + [f], t) == (if TagIndex(fs, t).Some? then TagIndex(fs, t) else if t == f.tag then Some(|fs|) else None)
  {
    if |fs| > 0 {
      assert (fs + [f])[1..] == fs[1..] + [f];
      TagIndexAppend(fs[1..], f, t);
    }
  }

  /** `_type_check`: None passes every type; an int field accepts bools too, since
      Python's bool is a subclass of int; MAP and NESTED accept any dict. */
  predicate TypeCheck(v: Value, t: FieldType, elementType: Option<FieldType>)
    decreases v
  {
    v.Null? ||
    match t
    case Int32 | Int64 => v.IntV? || v.BoolV?
    case Float32 | Float64 => v.FloatV?
    case String => v.StrV?
    case Bytes => v.BytesV?
    case Bool => v.BoolV?
    case Array =>
      v.ListV? &&
      (elementType.None? || forall i :: 0 <= i < |v.items| ==> TypeCheck(v.items[i], elementType.value, None))
    case Map | Nested => v.DictV? || v.RecordV?
  }

  /** An array is accepted iff it is a list whose elements all pass the element type. */
  lemma ArrayTypeCheckRule(v: Value, et: FieldType)
    requires !v.Null?
    ensures TypeCheck(v, Array, Some(et)) <==> v.ListV? && forall i :: 0 <= i < |v.items| ==> TypeCheck(v.items[i], et, None)
  {
  }

  datatype Validation = Valid | MissingRequired(name: string) | InvalidType(name: string)

  /** The first problem `validate` raises for, scanning fields in declaration order. */
  function FirstProblem(fs: seq<FieldDef>, data: map<string, Value>): Validation
  {
    if |fs| == 0 then Valid
    else
      var f := fs[0];
      if f.required && f.name !in data then MissingRequired(f.name)
      else if f.name in data && !TypeCheck(data[f.name], f.fieldType, f.elementType) then InvalidType(f.name)
      else FirstProblem(fs[1..], data)
  }

  method Validate(s: Schema, data: map<string, Value>) returns (r: Validation)
    ensures r == FirstProblem(s.fields, data)
  {
    var i := 0;
    while i < |s.fields|
      invariant 0 <= i <= |s.fields|
      invariant FirstProblem(s.fields, data) == FirstProblem(s.fields[i..], data)
    {
      var f := s.fields[i];
      assert s.fields[i..][1..] == s.fields[i + 1..];
      if f.required && f.name !in data {
        return MissingRequired(f.name);
      }
      if f.name in data && !TypeCheck(data[f.name], f.fieldType, f.elementType) {
        return InvalidType(f.name);
      }
      i := i + 1;
    }
    return Valid;
  }

  predicate FieldOk(f: FieldDef, data: map<string, Value>) {
    (f.required ==> f.name in data) && (f.name in data ==> TypeCheck(data[f.name], f.fieldType, f.elementType))
  }

  /** Validation passes iff every field is present when required and type-checks when
      present; otherwise it names a field that breaks one of the two. */
  lemma {:induction false} ValidateRule(fs: seq<FieldDef>, data: map<string, Value>)
    ensures FirstProblem(fs, data) == Valid <==> forall i :: 0 <= i < |fs| ==> FieldOk(fs[i], data)
    ensures FirstProblem(fs, data).MissingRequired? ==>
      exists i :: 0 <= i < |fs| && fs[i].name == FirstProblem(fs, data).name && fs[i].required && fs[i].name !in data
    ensures FirstProblem(fs, data).InvalidType? ==>
      exists i :: 0 <= i < |fs| && fs[i].name == FirstProblem(fs, data).name && !FieldOk(fs[i], data)
  {
    if |fs| > 0 {
      ValidateRule(fs[1..], data);
      assert forall i :: 1 <= i < |fs| ==> fs[i] == fs[1..][i - 1];
      var r := FirstProblem(fs, data);
      if r.MissingRequired? && r != FirstProblem(fs[1..], data) {
        assert fs[0].name == r.name;
      }
      if r.InvalidType? && r != FirstProblem(fs[1..], data) {
        assert fs[0].name == r.name && !FieldOk(fs[0], data);
      }
      if r == FirstProblem(fs[1..], data) && r.MissingRequired? {
        var i :| 0 <= i < |fs[1..]| && fs[1..][i].name == r.name && fs[1..][i].required && fs[1..][i].name !in data;
        assert fs[i + 1] == fs[1..][i];
      }
      if r == FirstProblem(fs[1..], data) && r.InvalidType? {
        var i :| 0 <= i < |fs[1..]| && fs[1..][i].name == r.name && !FieldOk(fs[1..][i], data);
        assert fs[i + 1] == fs[1..][i];
      }
    }
  }

  /** The least element of a non-empty set of versions. */
  function MinOf(vs: set<int>): (m: int)
    requires vs != {}
    ensures m in vs && forall v :: v in vs ==> m <= v
  {
    assert LeastOf(vs) in vs;
    var m :| m in vs && forall v :: v in vs ==> m <= v;
    m
  }

  /** A non-empty set of versions has an element (stated so that `:|` can use it). */
  lemma SomeVersion(vs: set<int>)
    requires vs != {}
    ensures exists v :: v in vs
  {
    if forall v :: v !in vs {
      assert false;
    }
  }

  /** Some least element, by removing elements one at a time. */
  ghost function LeastOf(vs: set<int>): (m: int)
    requires vs != {}
    ensures m in vs && forall v :: v in vs ==> m <= v
    decreases |vs|
  {
    SomeVersion(vs);
    var x :| x in vs;
    var rest := vs - {x};
    assert forall v :: v in vs ==> v == x || v in rest;
    if rest == {} then x
    else
      var m := LeastOf(rest);
      if x < m then x else m
  }

  /** Some greatest element, likewise. */
  ghost function GreatestOf(vs: set<int>): (m: int)
    requires vs != {}
    ensures m in vs && forall v :: v in vs ==> v <= m
    decreases |vs|
  {
    SomeVersion(vs);
    var x :| x in vs;
    var rest := vs - {x};
    assert forall v :: v in vs ==> v == x || v in rest;
    if rest == {} then x
    else
      var m := GreatestOf(rest);
      if x > m then x else m
  }

  /** The versions of a set in ascending order. */
  function Ascending(vs: set<int>): (r: seq<int>)
    ensures forall v :: v in r <==> v in vs
    ensures forall i, j :: 0 <= i < j < |r| ==> r[i] < r[j]
    decreases |vs|
  {
    if vs == {} then []
    else
      var m := MinOf(vs);
      [m] + Ascending(vs - {m})
  }

  class SchemaRegistry {
    var schemas: map<(string, int), Schema>

    constructor()
      ensures schemas == map[]
    {
      schemas := map[];
    }

    /** Registering again under the same (name, version) replaces the schema. */
    method Register(s: Schema) returns (r: Schema)
      modifies this
      ensures schemas == old(schemas)[(s.name, s.version) := s] && r == s
    {
      schemas := schemas[(s.name, s.version) := s];
      return s;
    }

    function Get(name: string, version: int): (r: Option<Schema>)
      reads this
      ensures r.Some? <==> (name, version) in schemas
      ensures r.Some? ==> r.value == schemas[(name, version)]
    {
      if (name, version) in schemas then Some(schemas[(name, version)]) else None
    }

    function Versions(name: string): (vs: set<int>)
      reads this
      ensures forall v :: v in vs <==> (name, v) in schemas
    {
      set k | k in schemas && k.0 == name :: k.1
    }

    /** The schema registered under the greatest version of `name`. */
    function GetLatest(name: string): (r: Option<Schema>)
      reads this
      ensures r.None? <==> forall v :: (name, v) !in schemas
      ensures r.Some? ==> exists v :: ((name, v) in schemas && schemas[(name, v)] == r.value
        && forall w :: (name, w) in schemas ==> w <= v)
    {
      var vs := Versions(name);
      if vs == {} then None
      else
        assert GreatestOf(vs) in vs;
        var v :| v in vs && forall w :: w in vs ==> w <= v;
        Some(schemas[(name, v)])
    }

    function GetVersions(name: string): (r: seq<int>)
      reads this
      ensures forall v :: v in r <==> (name, v) in schemas
      ensures forall i, j :: 0 <= i < j < |r| ==> r[i] < r[j]
    {
      Ascending(Versions(name))
    }

    /** After `register`, `get` finds that schema, and other entries are unchanged. */
    lemma RegisterThenGet(before: map<(string, int), Schema>, s: Schema, name: string, version: int)
      requires schemas == before[(s.name, s.version) := s]
      ensures Get(s.name, s.version) == Some(s)
      ensures (name, version) != (s.name, s.version) ==>
        Get(name, version) == (if (name, version) in before then Some(before[(name, version)]) else None)
    {
    }

    /** The latest schema is the one under the last of the ascending versions. */
    lemma LatestIsLastVersion(name: string)
      ensures GetLatest(name).None? <==> |GetVersions(name)| == 0
      ensures |GetVersions(name)| > 0 ==>
        GetLatest(name) == Some(schemas[(name, GetVersions(name)[|GetVersions(name)| - 1])])
    {
      var r := GetVersions(name);
      if |r| > 0 {
        var last := r[|r| - 1];
        assert r[0] in r;
        forall w | (name, w) in schemas
          ensures w <= last
        {
          assert w in r;
          var i :| 0 <= i < |r| && r[i] == w;
          if i < |r| - 1 {
            assert r[i] < r[|r| - 1];
          }
        }
        var s := GetLatest(name).value;
        var v :| (name, v) in schemas && schemas[(name, v)] == s && forall w :: (name, w) in schemas ==> w <= v;
        assert last in r;
        assert v <= last && last <= v;
      }
    }
  }

  /** The compatibility check's two kinds of issue. */
  datatype Issue =
    | TypeChange(tag: int, oldType: FieldType, newType: FieldType)
    | NewRequiredWithoutDefault(tag: int, name: string)

  /** `{f.tag: f for f in fields}`: a later field with the same tag replaces an earlier
      one's value but keeps the earlier key position. */
  function TagTable(fs: seq<FieldDef>): (t: map<int, FieldDef>)
    ensures forall tag :: tag in t <==> exists i :: 0 <= i < |fs| && fs[i].tag == tag
  {
    if |fs| == 0 then map[]
    else
      var t0 := TagTable(fs[..|fs| - 1]);
      assert forall i :: 0 <= i < |fs| - 1 ==> fs[..|fs| - 1][i] == fs[i];
      t0[fs[|fs| - 1].tag := fs[|fs| - 1]]
  }

  /** The keys of that dict in insertion order: each tag where it first occurs. */
  function TagOrder(fs: seq<FieldDef>): (r: seq<int>)
    ensures forall tag :: tag in r <==> exists i :: 0 <= i < |fs| && fs[i].tag == tag
    ensures forall i, j :: 0 <= i < j < |r| ==> r[i] != r[j]
  {
    if |fs| == 0 then []
    else
      var r0 := TagOrder(fs[..|fs| - 1]);
      var f := fs[|fs| - 1];
      assert forall i :: 0 <= i < |fs| - 1 ==> fs[..|fs| - 1][i] == fs[i];
      if f.tag in r0 then r0 else r0 + [f.tag]
  }

  /** First loop: one issue per old tag, in order, whose type differs in the new schema. */
  function TypeIssues(order: seq<int>, oldTags: map<int, FieldDef>, newTags: map<int, FieldDef>): seq<Issue>
    requires forall t :: t in order ==> t in oldTags
  {
    if |order| == 0 then []
    else
      var rest := TypeIssues(order[..|order| - 1], oldTags, newTags);
      var tag := order[|order| - 1];
      if tag in newTags && oldTags[tag].fieldType != newTags[tag].fieldType
      then rest + [TypeChange(tag, oldTags[tag].fieldType, newTags[tag].fieldType)]
      else rest
  }

  /** Second loop: one issue per new tag, in order, that the old schema lacks and that
      is required without a default. */
  function RequiredIssues(order: seq<int>, oldTags: map<int, FieldDef>, newTags: map<int, FieldDef>): seq<Issue>
    requires forall t :: t in order ==> t in newTags
  {
    if |order| == 0 then []
    else
      var rest := RequiredIssues(order[..|order| - 1], oldTags, newTags);
      var tag := order[|order| - 1];
      var f := newTags[tag];
      if tag !in oldTags && f.required && f.defaultValue.Null?
      then rest + [NewRequiredWithoutDefault(tag, f.name)]
      else rest
  }

  function Issues(oldSchema: Schema, newSchema: Schema): seq<Issue>
  {
    var oldTags := TagTable(oldSchema.fields);
    var newTags := TagTable(newSchema.fields);
    TypeIssues(TagOrder(oldSchema.fields), oldTags, newTags)
      + RequiredIssues(TagOrder(newSchema.fields), oldTags, newTags)
  }

  method CheckCompatibility(oldSchema: Schema, newSchema: Schema) returns (compatible: bool, issues: seq<Issue>)
    ensures issues == Issues(oldSchema, newSchema)
    ensures compatible <==> |issues| == 0
  {
    var oldTags := TagTable(oldSchema.fields);
    var newTags := TagTable(newSchema.fields);
    var oldOrder := TagOrder(oldSchema.fields);
    var newOrder := TagOrder(newSchema.fields);
    var typeIssues := CollectTypeIssues(oldOrder, oldTags, newTags);
    var requiredIssues := CollectRequiredIssues(newOrder, oldTags, newTags);
    issues := typeIssues + requiredIssues;
    compatible := |issues| == 0;
  }

  /** The first loop of `check_compatibility`: a type change for each old tag, in
      order, that the new schema keeps with another type. */
  method CollectTypeIssues(oldOrder: seq<int>, oldTags: map<int, FieldDef>, newTags: map<int, FieldDef>) returns (issues: seq<Issue>)
    requires forall t :: t in oldOrder ==> t in oldTags
    ensures issues == TypeIssues(oldOrder, oldTags, newTags)
  {
    issues := [];
    var i := 0;
    while i < |oldOrder|
      invariant 0 <= i <= |oldOrder|
      invariant issues == TypeIssues(oldOrder[..i], oldTags, newTags)
    {
      var tag := oldOrder[i];
      assert oldOrder[..i + 1][..i] == oldOrder[..i] && oldOrder[..i + 1][i] == tag;
      if tag in newTags && oldTags[tag].fieldType != newTags[tag].fieldType {
        issues := issues + [TypeChange(tag, oldTags[tag].fieldType, newTags[tag].fieldType)];
      }
      i := i + 1;
    }
    assert oldOrder[..i] == oldOrder;
  }

  /** The second loop: an issue for each new tag, in order, that is new, required and
      has no default. */
  method CollectRequiredIssues(newOrder: seq<int>, oldTags: map<int, FieldDef>, newTags: map<int, FieldDef>) returns (issues: seq<Issue>)
    requires forall t :: t in newOrder ==> t in newTags
    ensures issues == RequiredIssues(newOrder, oldTags, newTags)
  {
    issues := [];
    var j := 0;
    while j < |newOrder|
      invariant 0 <= j <= |newOrder|
      invariant issues == RequiredIssues(newOrder[..j], oldTags, newTags)
    {
      var tag := newOrder[j];
      assert newOrder[..j + 1][..j] == newOrder[..j] && newOrder[..j + 1][j] == tag;
      var f := newTags[tag];
      if tag !in oldTags && f.required && f.defaultValue.Null? {
        issues := issues + [NewRequiredWithoutDefault(tag, f.name)];
      }
      j := j + 1;
    }
    assert newOrder[..j] == newOrder;
  }

  lemma {:induction false} TypeIssuesRule(order: seq<int>, oldTags: map<int, FieldDef>, newTags: map<int, FieldDef>, tag: int, a: FieldType, b: FieldType)
    requires forall t :: t in order ==> t in oldTags
    ensures TypeChange(tag, a, b) in TypeIssues(order, oldTags, newTags) <==>
      tag in order && tag in newTags && a == oldTags[tag].fieldType && b == newTags[tag].fieldType && a != b
    ensures forall k :: 0 <= k < |TypeIssues(order, oldTags, newTags)| ==> TypeIssues(order, oldTags, newTags)[k].TypeChange?
  {
    if |order| > 0 {
      TypeIssuesRule(order[..|order| - 1], oldTags, newTags, tag, a, b);
      assert order == order[..|order| - 1] + [order[|order| - 1]];
    }
  }

  lemma {:induction false} RequiredIssuesRule(order: seq<int>, oldTags: map<int, FieldDef>, newTags: map<int, FieldDef>, tag: int, name: string)
    requires forall t :: t in order ==> t in newTags
    ensures NewRequiredWithoutDefault(tag, name) in RequiredIssues(order, oldTags, newTags) <==>
      tag in order && tag !in oldTags && newTags[tag].required && newTags[tag].defaultValue.Null? && newTags[tag].name == name
    ensures forall k :: 0 <= k < |RequiredIssues(order, oldTags, newTags)| ==> RequiredIssues(order, oldTags, newTags)[k].NewRequiredWithoutDefault?
  {
    if |order| > 0 {
      RequiredIssuesRule(order[..|order| - 1], oldTags, newTags, tag, name);
      assert order == order[..|order| - 1] + [order[|order| - 1]];
    }
  }

  predicate HasTag(s: Schema, tag: int) {
    exists i :: 0 <= i < |s.fields| && s.fields[i].tag == tag
  }

  /** `check_compatibility` reports a type change exactly for a tag both schemas use
      whose (last) definitions differ in type, and a missing default exactly for a tag
      only the new schema uses whose (last) definition is required without a default. */
  lemma CompatibilityRule(oldSchema: Schema, newSchema: Schema, tag: int, a: FieldType, b: FieldType, name: string)
    ensures TypeChange(tag, a, b) in Issues(oldSchema, newSchema) <==>
      HasTag(oldSchema, tag) && HasTag(newSchema, tag)
      && a == TagTable(oldSchema.fields)[tag].fieldType && b == TagTable(newSchema.fields)[tag].fieldType && a != b
    ensures NewRequiredWithoutDefault(tag, name) in Issues(oldSchema, newSchema) <==>
      HasTag(newSchema, tag) && !HasTag(oldSchema, tag)
      && var f := TagTable(newSchema.fields)[tag]; f.required && f.defaultValue.Null? && f.name == name
  {
    var oldTags := TagTable(oldSchema.fields);
    var newTags := TagTable(newSchema.fields);
    var ti := TypeIssues(TagOrder(oldSchema.fields), oldTags, newTags);
    var ri := RequiredIssues(TagOrder(newSchema.fields), oldTags, newTags);
    TypeIssuesRule(TagOrder(oldSchema.fields), oldTags, newTags, tag, a, b);
    RequiredIssuesRule(TagOrder(newSchema.fields), oldTags, newTags, tag, name);
    assert TypeChange(tag, a, b) !in ri;
    assert NewRequiredWithoutDefault(tag, name) !in ti;
  }

  /** Every schema is compatible with itself. */
  lemma SelfCompatible(s: Schema)
    ensures Issues(s, s) == []
  {
    var found := Issues(s, s);
    if |found| > 0 {
      assert found[0] in found;
      match found[0]
      case TypeChange(tag, a, b) =>
        CompatibilityRule(s, s, tag, a, b, "");
      case NewRequiredWithoutDefault(tag, name) =>
        CompatibilityRule(s, s, tag, Int32, Int32, name);
    }
  }
}
