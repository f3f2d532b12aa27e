/** `lookForRelation`: what a model field tells about relations. A
    `@relation` attribute with `fields` and `references` lists of the same,
    non-zero length registers one raw relation per reference; any other
    field whose type is not a scalar registers an inverse relation under
    `table.type[.name]`. The two callbacks become the `Registry`, whose
    methods append to the raw relations and set the inverse map. */
module PrismaRelation {
  import opened Common
  import opened JsMap
  import opened PrismaAst
  import opened PrismaField

  /** `scalarFieldType`. */
  const ScalarFieldTypes: set<string> :=
    {"String", "Boolean", "Int", "BigInt", "Float", "Decimal", "DateTime", "Json", "Bytes", "Unsupported"}

  /** What `registerRelation` receives. */
  datatype RawRelation = RawRelation(
    referenceField: Value,
    referenceTable: string,
    table: string,
    field: Value,
    name: Option<string>)

  /** One callback invocation. */
  datatype Registration = RegisterRaw(relation: RawRelation) | RegisterInverse(key: string, kind: string)

  /** The three `let`s of the argument loops. */
  datatype RelState = RelState(fields: seq<Value>, references: seq<Value>, name: Option<string>)

  const InitialRelState: RelState := RelState([], [], None)

  predicate IsString(v: Value) { v.Prim? && v.p.PStr? }

  /** One `@relation` argument. */
  function ArgStep(st: RelState, v: Value): RelState {
    if IsString(v) then st.(name := Some(v.p.s))
    else if !IsKeyValue(v) then st
    else
      var st1 := if v.key == "name" && IsString(v.value) then st.(name := Some(v.value.p.s)) else st;
      if !IsRelationArray(v.value) then st1
      else if v.key == "fields" then st1.(fields := v.value.args.items)
      else if v.key == "references" then st1.(references := v.value.args.items)
      else st1
  }

  /** The arguments of one attribute, first to last. */
  function ArgsFold(st: RelState, args: seq<Value>): RelState
    decreases |args|
  {
    if args == [] then st else ArgsFold(ArgStep(st, args[0]), args[1..])
  }

  predicate Complete(st: RelState) {
    |st.fields| > 0 && |st.fields| == |st.references|
  }

  /** The attribute loop: skip attributes without args and non-relations;
      stop (`true`) after the first relation that leaves the lists complete. */
  function Scan(st: RelState, attrs: seq<Attribute>): (r: (RelState, bool))
    ensures r.1 ==> Complete(r.0)
    decreases |attrs|
  {
    if attrs == [] then (st, false)
    else if attrs[0].args.None? || !IsRelationNode(attrs[0]) then Scan(st, attrs[1..])
    else
      var st1 := ArgsFold(st, attrs[0].args.value);
      if Complete(st1) then (st1, true) else Scan(st1, attrs[1..])
  }

  function ScanField(field: Property): (RelState, bool) {
    Scan(InitialRelState, if field.attributes.Some? then field.attributes.value else [])
  }

  /** `${tableName}.${fieldType}` followed by `.${relationName}` when a name was read. */
  function InverseKey(tableName: string, fieldType: string, name: Option<string>): string {
    var prefix := tableName + "." + fieldType;
    if name.Some? then prefix + "." + name.value else prefix
  }

  /** The registrations `lookForRelation(field, tableName, …)` makes, in order. */
  function LookForRelationSpec(field: Property, tableName: string): seq<Registration> {
    var fieldType := FieldTypeName(field.fieldType);
    var (st, done) := ScanField(field);
    if done then
      seq(|st.references|, k requires 0 <= k < |st.references| =>
        RegisterRaw(RawRelation(st.references[k], fieldType, tableName, st.fields[0], st.name)))
    else if fieldType in ScalarFieldTypes then []
    else [RegisterInverse(InverseKey(tableName, fieldType, st.name), if field.isArray then "many" else "one")]
  }

  // ---------------------------------------------------------------- the registry

  datatype RegistryState = RegistryState(rawRelations: seq<RawRelation>, inverseRelationMap: Entries<string>)

  function ApplyOne(st: RegistryState, r: Registration): RegistryState {
    match r
    case RegisterRaw(rel) => st.(rawRelations := st.rawRelations + [rel])
    case RegisterInverse(key, kind) => st.(inverseRelationMap := Set(st.inverseRelationMap, key, kind))
  }

  function Apply(st: RegistryState, regs: seq<Registration>): RegistryState {
    if regs == [] then st else ApplyOne(Apply(st, regs[..|regs| - 1]), regs[|regs| - 1])
  }

  lemma {:induction false} ApplyAppend(st: RegistryState, a: seq<Registration>, b: seq<Registration>)
    ensures Apply(st, a + b) == Apply(Apply(st, a), b)
    decreases |b|
  {
    if b == [] {
      assert a + b == a;
    } else {
      var n := |b| - 1;
      ApplyAppend(st, a, b[..n]);
      assert (a + b)[..|a + b| - 1] == a + b[..n];
    }
  }

  /** The state the two closures of `createIntermediateSchema` share. */
  class Registry {
    var rawRelations: seq<RawRelation>
    var inverseRelationMap: Entries<string>

    function State(): RegistryState
      reads this
    {
      RegistryState(rawRelations, inverseRelationMap)
    }

    constructor ()
      ensures rawRelations == [] && inverseRelationMap == []
    {
      rawRelations := [];
      inverseRelationMap := [];
    }

    /** `registerRawRelation`: `rawRelations.push(info)`. */
    method RegisterRawRelation(info: RawRelation)
      modifies this
      ensures State() == ApplyOne(old(State()), RegisterRaw(info))
    {
      rawRelations := rawRelations + [info];
    }

    /** `registerInverseRelation`: `inverseRelationMap.set(name, type)`. */
    method RegisterInverseRelation(name: string, kind: string)
      modifies this
      ensures State() == ApplyOne(old(State()), RegisterInverse(name, kind))
    {
      inverseRelationMap := Set(inverseRelationMap, name, kind);
    }
  }

  // ---------------------------------------------------------------- the loops

  /** The inner loop over one `@relation` attribute's arguments, with its `continue`s. */
  method ReadRelationArgs(st: RelState, args: seq<Value>) returns (r: RelState)
    ensures r == ArgsFold(st, args)
  {
    var relationFields, relationReferences, relationName := st.fields, st.references, st.name;
    var j := 0;
    while j < |args|
      invariant 0 <= j <= |args|
      invariant ArgsFold(RelState(relationFields, relationReferences, relationName), args[j..]) == ArgsFold(st, args)
    {
      ghost var before := RelState(relationFields, relationReferences, relationName);
      assert args[j..][1..] == args[j + 1..];
      var v := args[j];
      j := j + 1;
      if IsString(v) {
        relationName := Some(v.p.s);
        continue;
      }
      if !IsKeyValue(v) {
        continue;
      }
      if v.key == "name" && IsString(v.value) {
        relationName := Some(v.value.p.s);
      }
      if !IsRelationArray(v.value) {
        continue;
      }
      if v.key == "fields" {
        relationFields := v.value.args.items;
      }
      if v.key == "references" {
        relationReferences := v.value.args.items;
      }
    }
    r := RelState(relationFields, relationReferences, relationName);
  }

  /** `relationReferences.forEach(…)`: one raw relation per reference. */
  method RegisterReferences(st: RelState, fieldType: string, tableName: string, reg: Registry)
    requires |st.fields| > 0
    modifies reg
    ensures reg.State() == Apply(old(reg.State()), seq(|st.references|, k requires 0 <= k < |st.references| =>
              RegisterRaw(RawRelation(st.references[k], fieldType, tableName, st.fields[0], st.name))))
  {
    ghost var regs := seq(|st.references|, k requires 0 <= k < |st.references| =>
      RegisterRaw(RawRelation(st.references[k], fieldType, tableName, st.fields[0], st.name)));
    ghost var start := reg.State();
    var k := 0;
    while k < |st.references|
      invariant 0 <= k <= |st.references|
      invariant reg.State() == Apply(start, regs[..k])
    {
      assert regs[..k + 1][..k] == regs[..k];
      reg.RegisterRawRelation(RawRelation(st.references[k], fieldType, tableName, st.fields[0], st.name));
      k := k + 1;
    }
    assert regs[..|st.references|] == regs;
  }

  method LookForRelation(field: Property, tableName: string, reg: Registry)
    modifies reg
    ensures reg.State() == Apply(old(reg.State()), LookForRelationSpec(field, tableName))
  {
    var fieldType := FieldTypeName(field.fieldType);
    var st := InitialRelState;
    if field.attributes.Some? {
      var attrs := field.attributes.value;
      var i := 0;
      while i < |attrs|
        invariant 0 <= i <= |attrs|
        invariant Scan(st, attrs[i..]) == ScanField(field)
        invariant reg.State() == old(reg.State())
      {
        var attr := attrs[i];
        assert attrs[i..][1..] == attrs[i + 1..];
        if attr.args.None? || !IsRelationNode(attr) {
          i := i + 1;
          continue;
        }
        st := ReadRelationArgs(st, attr.args.value);
        if |st.fields| > 0 && |st.fields| == |st.references| {
          RegisterReferences(st, fieldType, tableName, reg);
          return;
        }
        i := i + 1;
      }
    }
    if fieldType in ScalarFieldTypes {
      return;
    }
    var key := InverseKey(tableName, fieldType, st.name);
    reg.RegisterInverseRelation(key, if field.isArray then "many" else "one");
    assert [RegisterInverse(key, if field.isArray then "many" else "one")][..0] == [];
  }

  // ---------------------------------------------------------------- lemmas

  /** A complete `@relation` registers exactly one raw relation per
      reference, all from `fields[0]` to the field's type, and no inverse. */
  lemma CompleteRelationRegistersPerReference(field: Property, tableName: string)
    requires ScanField(field).1
    ensures var st := ScanField(field).0;
      && |LookForRelationSpec(field, tableName)| == |st.references| > 0
      && forall k :: 0 <= k < |st.references| ==>
           && LookForRelationSpec(field, tableName)[k].RegisterRaw?
           && LookForRelationSpec(field, tableName)[k].relation.referenceField == st.references[k]
           && LookForRelationSpec(field, tableName)[k].relation.field == st.fields[0]
           && LookForRelationSpec(field, tableName)[k].relation.referenceTable == FieldTypeName(field.fieldType)
           && LookForRelationSpec(field, tableName)[k].relation.table == tableName
  {
  }

  /** Without a complete relation, at most one registration happens and it
      is an inverse one: none for a scalar type, otherwise under
      `table.type[.name]` with `"many"` exactly for list fields. */
  lemma IncompleteRelationInverse(field: Property, tableName: string)
    requires !ScanField(field).1
    ensures FieldTypeName(field.fieldType) in ScalarFieldTypes ==> LookForRelationSpec(field, tableName) == []
    ensures FieldTypeName(field.fieldType) !in ScalarFieldTypes ==>
      && |LookForRelationSpec(field, tableName)| == 1
      && LookForRelationSpec(field, tableName)[0].RegisterInverse?
      && LookForRelationSpec(field, tableName)[0].key == InverseKey(tableName, FieldTypeName(field.fieldType), ScanField(field).0.name)
      && (LookForRelationSpec(field, tableName)[0].kind == "many" <==> field.isArray)
  {
  }

  /** The relation name changes only on a bare string argument or a
      `name:` pair with a string value, and takes that string. */
  lemma NameSources(st: RelState, v: Value)
    ensures ArgStep(st, v).name != st.name ==>
      || (IsString(v) && ArgStep(st, v).name == Some(v.p.s))
      || (IsKeyValue(v) && v.key == "name" && IsString(v.value) && ArgStep(st, v).name == Some(v.value.p.s))
    ensures ArgStep(st, v).fields != st.fields ==> IsKeyValue(v) && v.key == "fields" && IsRelationArray(v.value)
    ensures ArgStep(st, v).references != st.references ==> IsKeyValue(v) && v.key == "references" && IsRelationArray(v.value)
  {
  }

  /** Attributes without args and attributes that are not `@relation` are
      passed over. */
  lemma {:induction false} SkipsOtherAttributes(st: RelState, attrs: seq<Attribute>)
    requires forall i :: 0 <= i < |attrs| ==> attrs[i].args.None? || !IsRelationNode(attrs[i])
    ensures Scan(st, attrs) == (st, false)
  {
    if attrs != [] {
      SkipsOtherAttributes(st, attrs[1..]);
    }
  }

  /** A field without a complete relation and with no relation attribute at
      all registers its inverse without a name. */
  lemma UnnamedInverse(field: Property, tableName: string)
    requires field.attributes.None?
    requires FieldTypeName(field.fieldType) !in ScalarFieldTypes
    ensures LookForRelationSpec(field, tableName)
         == [RegisterInverse(tableName + "." + FieldTypeName(field.fieldType), if field.isArray then "many" else "one")]
  {
  }

  // ---------------------------------------------------------------- the test cases

  function Str(s: string): Value { Prim(PStr(s)) }
  function List(items: seq<Value>): Value { Obj(ArrayTag, "", "", Undefined, JsArray(items)) }
  function Pair(key: string, v: Value): Value { Obj(KeyValueTag, key, "", v, Undefined) }
  function Relation(args: seq<Value>): Attribute { Attribute(AttributeTag, RelationAttr, Some(args)) }
  function FieldOf(name: string, typeName: string, isArray: bool, attrs: Option<seq<Attribute>>): Property {
    Property(FieldTag, name, TypeName(typeName), isArray, None, attrs)
  }

  /** `product Product @relation(fields: [productId], references: [id])`. */
  lemma IdentifierRelationExample()
    ensures LookForRelationSpec(
              FieldOf("product", "Product", false,
                      Some([Relation([Pair("fields", List([Str("productId")])), Pair("references", List([Str("id")]))])])),
              "TestTable")
         == [RegisterRaw(RawRelation(Str("id"), "Product", "TestTable", Str("productId"), None))]
  {
    var args := [Pair("fields", List([Str("productId")])), Pair("references", List([Str("id")]))];
    assert ArgsFold(InitialRelState, args) == RelState([Str("productId")], [Str("id")], None) by {
      assert args[1..][1..] == [];
    }
  }

  /** `player1 User @relation(name: "player1", fields: [player1Id], references: [id])`. */
  lemma NamedKeyValueRelationExample()
    ensures LookForRelationSpec(
              FieldOf("player1", "User", false,
                      Some([Relation([Pair("name", Str("\"player1\"")), Pair("fields", List([Str("player1Id")])),
                                      Pair("references", List([Str("id")]))])])),
              "TestTable")
         == [RegisterRaw(RawRelation(Str("id"), "User", "TestTable", Str("player1Id"), Some("\"player1\"")))]
  {
    var args := [Pair("name", Str("\"player1\"")), Pair("fields", List([Str("player1Id")])),
                 Pair("references", List([Str("id")]))];
    assert ArgsFold(InitialRelState, args) == RelState([Str("player1Id")], [Str("id")], Some("\"player1\"")) by {
      assert args[1..][1..][1..] == [];
    }
  }

  /** `player2 User @relation("player2", fields: [player2Id], references: [id])`. */
  lemma NamedStringRelationExample()
    ensures LookForRelationSpec(
              FieldOf("player2", "User", false,
                      Some([Relation([Str("\"player2\""), Pair("fields", List([Str("player2Id")])),
                                      Pair("references", List([Str("id")]))])])),
              "TestTable")
         == [RegisterRaw(RawRelation(Str("id"), "User", "TestTable", Str("player2Id"), Some("\"player2\"")))]
  {
    var args := [Str("\"player2\""), Pair("fields", List([Str("player2Id")])), Pair("references", List([Str("id")]))];
    assert ArgsFold(InitialRelState, args) == RelState([Str("player2Id")], [Str("id")], Some("\"player2\"")) by {
      assert args[1..][1..][1..] == [];
    }
  }

  /** `orders Order[]`. */
  lemma InverseRelationExample()
    ensures LookForRelationSpec(FieldOf("orders", "Order", true, None), "TestTable")
         == [RegisterInverse("TestTable.Order", "many")]
  {
    assert "Order" !in ScalarFieldTypes by {
      assert "Order"[0] == 'O';
    }
    assert ScanField(FieldOf("orders", "Order", true, None)) == (InitialRelState, false);
    assert InverseKey("TestTable", "Order", None) == "TestTable.Order";
  }

  /** `matches Match[] @relation("player1")`. */
  lemma NamedInverseRelationExample()
    ensures LookForRelationSpec(FieldOf("matches", "Match", true, Some([Relation([Str("\"player1\"")])])), "TestTable")
         == [RegisterInverse("TestTable.Match.\"player1\"", "many")]
  {
    assert ArgsFold(InitialRelState, [Str("\"player1\"")]) == RelState([], [], Some("\"player1\""));
    assert "Match" !in ScalarFieldTypes by {
      assert "Match"[0] == 'M';
    }
    var attrs := [Relation([Str("\"player1\"")])];
    assert Scan(InitialRelState, attrs) == (RelState([], [], Some("\"player1\"")), false) by {
      assert attrs[1..] == [];
    }
    assert InverseKey("TestTable", "Match", Some("\"player1\"")) == "TestTable.Match.\"player1\"";
  }
}
