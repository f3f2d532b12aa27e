/** The intermediate schema built from the top-level Prisma blocks: enums
    (`enumNodeToJSONTableEnum`), tables (`formatIntermediateTable`) and the
    relations their fields register (`createIntermediateSchema`). */
module PrismaIntermediate {
  import opened Common
  import opened JsMap
  import opened PrismaAst
  import opened PrismaField
  import opened PrismaRelation

  // ---------------------------------------------------------------- enums

  datatype EnumValue = EnumValue(name: string, note: Option<string>)
  datatype JsonEnum = JsonEnum(name: string, values: seq<EnumValue>)

  /** The values pushed for the enumerator-tagged entries, in order. */
  function EnumValues(es: seq<Enumerator>): seq<EnumValue> {
    if es == [] then []
    else
      var e := es[|es| - 1];
      EnumValues(es[..|es| - 1]) + (if IsEnumeratorNode(e) then [EnumValue(e.name, e.comment)] else [])
  }

  lemma {:induction false} EnumValuesAppend(a: seq<Enumerator>, b: seq<Enumerator>)
    ensures EnumValues(a + b) == EnumValues(a) + EnumValues(b)
    decreases |b|
  {
    if b == [] {
      assert a + b == a;
    } else {
      var n := |b| - 1;
      EnumValuesAppend(a, b[..n]);
      assert (a + b)[..|a + b| - 1] == a + b[..n];
    }
  }

  /** An entry that is not an enumerator (a comment, say) adds no value. */
  lemma SkipsNonEnumerators(a: seq<Enumerator>, x: Enumerator, b: seq<Enumerator>)
    requires !IsEnumeratorNode(x)
    ensures EnumValues(a + [x] + b) == EnumValues(a + b)
  {
    EnumValuesAppend(a + [x], b);
    EnumValuesAppend(a, [x]);
    EnumValuesAppend(a, b);
    assert [x][..0] == [];
  }

  /** When every entry is an enumerator, there is one value per entry, in
      order, carrying its name and its comment as the note. */
  lemma {:induction false} AllEnumerators(es: seq<Enumerator>)
    requires forall i :: 0 <= i < |es| ==> IsEnumeratorNode(es[i])
    ensures |EnumValues(es)| == |es|
    ensures forall i :: 0 <= i < |es| ==> EnumValues(es)[i] == EnumValue(es[i].name, es[i].comment)
  {
    if es != [] {
      var n := |es| - 1;
      assert forall i :: 0 <= i < n ==> es[..n][i] == es[i];
      AllEnumerators(es[..n]);
    }
  }

  /** `enumNodeToJSONTableEnum`. */
  method EnumNodeToJsonEnum(node: Block) returns (r: JsonEnum)
    ensures r == JsonEnum(node.name, EnumValues(node.enumerators))
  {
    var values := [];
    var es := node.enumerators;
    var i := 0;
    while i < |es|
      invariant 0 <= i <= |es|
      invariant values == EnumValues(es[..i])
    {
      assert es[..i + 1][..i] == es[..i];
      if IsEnumeratorNode(es[i]) {
        values := values + [EnumValue(es[i].name, es[i].comment)];
      }
      i := i + 1;
    }
    assert es[..|es|] == es;
    r := JsonEnum(node.name, values);
  }

  /** The enum `Color { Red }` gives the single value `Red`. */
  lemma ColorEnumExample()
    ensures EnumValues([Enumerator(EnumeratorTag, "Red", None)]) == [EnumValue("Red", None)]
  {
    AllEnumerators([Enumerator(EnumeratorTag, "Red", None)]);
  }

  // ---------------------------------------------------------------- tables

  /** An intermediate table; `indexes` is always empty. */
  datatype IntermediateTable = IntermediateTable(name: string, fields: seq<IntermediateField>, indexes: seq<string>)

  /** The formatted fields of the field-tagged properties, in order. */
  function TableFields(props: seq<Property>): seq<IntermediateField> {
    if props == [] then []
    else
      var p := props[|props| - 1];
      TableFields(props[..|props| - 1]) + (if IsField(p) then [FormatIntermediateField(p)] else [])
  }

  /** The registrations of `lookForRelation` over the field-tagged properties, in order. */
  function TableRegistrations(props: seq<Property>, tableName: string): seq<Registration> {
    if props == [] then []
    else
      var p := props[|props| - 1];
      TableRegistrations(props[..|props| - 1], tableName) + (if IsField(p) then LookForRelationSpec(p, tableName) else [])
  }

  function CountFields(props: seq<Property>): nat {
    if props == [] then 0 else CountFields(props[..|props| - 1]) + (if IsField(props[|props| - 1]) then 1 else 0)
  }

  /** The field properties, in order. */
  function FieldProps(props: seq<Property>): seq<Property> {
    if props == [] then []
    else FieldProps(props[..|props| - 1]) + (if IsField(props[|props| - 1]) then [props[|props| - 1]] else [])
  }

  /** One intermediate field per field property, in order: the k-th field
      is the formatting of the k-th field property. */
  lemma {:induction false} TableFieldsCount(props: seq<Property>)
    ensures |TableFields(props)| == CountFields(props) == |FieldProps(props)|
    ensures forall k :: 0 <= k < |FieldProps(props)| ==>
      IsField(FieldProps(props)[k]) && TableFields(props)[k] == FormatIntermediateField(FieldProps(props)[k])
  {
    if props != [] {
      TableFieldsCount(props[..|props| - 1]);
    }
  }

  /** A property that is not a field adds neither a field nor a registration. */
  lemma NonFieldIgnored(props: seq<Property>, p: Property, tableName: string)
    requires !IsField(p)
    ensures TableFields(props + [p]) == TableFields(props)
    ensures TableRegistrations(props + [p], tableName) == TableRegistrations(props, tableName)
  {
    assert (props + [p])[..|props|] == props;
  }

  /** `f` is the formatting of some field property of `props`. */
  predicate FormatsSomeField(props: seq<Property>, f: IntermediateField) {
    exists j :: 0 <= j < |props| && IsField(props[j]) && f == FormatIntermediateField(props[j])
  }

  /** Every intermediate field is the formatting of a field property. */
  lemma {:induction false} TableFieldsFromFields(props: seq<Property>)
    ensures forall k :: 0 <= k < |TableFields(props)| ==> FormatsSomeField(props, TableFields(props)[k])
  {
    if props != [] {
      var n := |props| - 1;
      var p := props[..n];
      TableFieldsFromFields(p);
      var extra := if IsField(props[n]) then [FormatIntermediateField(props[n])] else [];
      assert TableFields(props) == TableFields(p) + extra;
      forall k | 0 <= k < |TableFields(props)|
        ensures FormatsSomeField(props, TableFields(props)[k])
      {
        if k < |TableFields(p)| {
          assert FormatsSomeField(p, TableFields(p)[k]);
          var j :| 0 <= j < n && IsField(p[j]) && TableFields(p)[k] == FormatIntermediateField(p[j]);
          assert p[j] == props[j];
        } else {
          assert TableFields(props)[k] == extra[0];
        }
      }
    }
  }

  /** `formatIntermediateTable`: the loop pushing fields and calling
      `lookForRelation` with the model name. */
  method FormatIntermediateTable(node: Block, reg: Registry) returns (t: IntermediateTable)
    modifies reg
    ensures t == IntermediateTable(node.name, TableFields(node.properties), [])
    ensures reg.State() == Apply(old(reg.State()), TableRegistrations(node.properties, node.name))
  {
    var fields := [];
    var props := node.properties;
    var i := 0;
    while i < |props|
      invariant 0 <= i <= |props|
      invariant fields == TableFields(props[..i])
      invariant reg.State() == Apply(old(reg.State()), TableRegistrations(props[..i], node.name))
    {
      assert props[..i + 1][..i] == props[..i];
      var p := props[i];
      if IsField(p) {
        var field := FormatIntermediateField(p);
        LookForRelation(p, node.name, reg);
        assert TableRegistrations(props[..i + 1], node.name)
            == TableRegistrations(props[..i], node.name) + LookForRelationSpec(p, node.name);
        ApplyAppend(old(reg.State()), TableRegistrations(props[..i], node.name), LookForRelationSpec(p, node.name));
        fields := fields + [field];
      } else {
        NonFieldIgnored(props[..i], p, node.name);
        assert props[..i + 1] == props[..i] + [p];
      }
      i := i + 1;
    }
    assert props[..|props|] == props;
    t := IntermediateTable(node.name, fields, []);
  }

  // ---------------------------------------------------------------- schema

  datatype IntermediateSchema = IntermediateSchema(
    enums: seq<JsonEnum>,
    tables: seq<IntermediateTable>,
    enumsNames: set<string>,
    rawRelations: seq<RawRelation>,
    inverseRelationMap: Entries<string>,
    tablesNames: set<string>)

  function EnumsOf(nodes: seq<Block>): seq<JsonEnum> {
    if nodes == [] then []
    else
      var b := nodes[|nodes| - 1];
      EnumsOf(nodes[..|nodes| - 1]) + (if IsEnumNode(b) then [JsonEnum(b.name, EnumValues(b.enumerators))] else [])
  }

  function TablesOf(nodes: seq<Block>): seq<IntermediateTable> {
    if nodes == [] then []
    else
      var b := nodes[|nodes| - 1];
      TablesOf(nodes[..|nodes| - 1]) + (if IsModelNode(b) then [IntermediateTable(b.name, TableFields(b.properties), [])] else [])
  }

  function EnumNameSet(nodes: seq<Block>): set<string> {
    if nodes == [] then {}
    else
      var b := nodes[|nodes| - 1];
      EnumNameSet(nodes[..|nodes| - 1]) + (if IsEnumNode(b) then {b.name} else {})
  }

  function TableNameSet(nodes: seq<Block>): set<string> {
    if nodes == [] then {}
    else
      var b := nodes[|nodes| - 1];
      TableNameSet(nodes[..|nodes| - 1]) + (if IsModelNode(b) then {b.name} else {})
  }

  function SchemaRegistrations(nodes: seq<Block>): seq<Registration> {
    if nodes == [] then []
    else
      var b := nodes[|nodes| - 1];
      SchemaRegistrations(nodes[..|nodes| - 1]) + (if IsModelNode(b) then TableRegistrations(b.properties, b.name) else [])
  }

  const EmptyRegistry: RegistryState := RegistryState([], [])

  function IntermediateSchemaSpec(nodes: seq<Block>): IntermediateSchema {
    var reg := Apply(EmptyRegistry, SchemaRegistrations(nodes));
    IntermediateSchema(EnumsOf(nodes), TablesOf(nodes), EnumNameSet(nodes), reg.rawRelations,
                       reg.inverseRelationMap, TableNameSet(nodes))
  }

  /** `createIntermediateSchema`. */
  method CreateIntermediateSchema(nodes: seq<Block>) returns (s: IntermediateSchema)
    ensures s == IntermediateSchemaSpec(nodes)
  {
    var enums := [];
    var tables := [];
    var enumsNames: set<string> := {};
    var types: set<string> := {};
    var tablesNames: set<string> := {};
    var reg := new Registry();
    var i := 0;
    while i < |nodes|
      invariant 0 <= i <= |nodes|
      invariant enums == EnumsOf(nodes[..i]) && tables == TablesOf(nodes[..i])
      invariant enumsNames == EnumNameSet(nodes[..i]) && tablesNames == TableNameSet(nodes[..i])
      invariant reg.State() == Apply(EmptyRegistry, SchemaRegistrations(nodes[..i]))
    {
      assert nodes[..i + 1][..i] == nodes[..i];
      var node := nodes[i];
      if IsEnumNode(node) {
        var e := EnumNodeToJsonEnum(node);
        enumsNames := enumsNames + {e.name};
        enums := enums + [e];
      }
      if IsModelNode(node) {
        tablesNames := tablesNames + {node.name};
        var t := FormatIntermediateTable(node, reg);
        assert SchemaRegistrations(nodes[..i + 1])
            == SchemaRegistrations(nodes[..i]) + TableRegistrations(node.properties, node.name);
        ApplyAppend(EmptyRegistry, SchemaRegistrations(nodes[..i]), TableRegistrations(node.properties, node.name));
        tables := tables + [t];
      } else {
        assert SchemaRegistrations(nodes[..i + 1]) == SchemaRegistrations(nodes[..i]) + [];
        assert SchemaRegistrations(nodes[..i]) + [] == SchemaRegistrations(nodes[..i]);
      }
      if IsTypeNode(node) {
        types := types + {node.name};
      }
      i := i + 1;
    }
    assert nodes[..|nodes|] == nodes;
    s := IntermediateSchema(enums, tables, enumsNames, reg.rawRelations, reg.inverseRelationMap, tablesNames);
  }

  /** The number of blocks satisfying `p`. */
  function CountWhere(nodes: seq<Block>, p: Block -> bool): nat {
    if nodes == [] then 0 else CountWhere(nodes[..|nodes| - 1], p) + (if p(nodes[|nodes| - 1]) then 1 else 0)
  }

  /** `createIntermediateSchema` dispatches each block to at most one branch:
      the enums and tables returned number exactly the enum and model blocks,
      so no block becomes both and a `type` block becomes neither. */
  lemma {:induction false} EachBlockOneBranch(nodes: seq<Block>)
    ensures |EnumsOf(nodes)| + |TablesOf(nodes)| == CountWhere(nodes, b => IsEnumNode(b) || IsModelNode(b))
  {
    if nodes != [] {
      EachBlockOneBranch(nodes[..|nodes| - 1]);
    }
  }

  // ---------------------------------------------------------------- lemmas

  /** `enumsNames` is exactly the set of names of the enums returned. */
  lemma {:induction false} EnumNamesMatchEnums(nodes: seq<Block>)
    ensures EnumNameSet(nodes) == set e | e in EnumsOf(nodes) :: e.name
  {
    if nodes != [] {
      var p := nodes[..|nodes| - 1];
      var b := nodes[|nodes| - 1];
      EnumNamesMatchEnums(p);
      var extra := if IsEnumNode(b) then [JsonEnum(b.name, EnumValues(b.enumerators))] else [];
      assert EnumsOf(nodes) == EnumsOf(p) + extra;
      forall x
        ensures x in EnumNameSet(nodes) <==> exists e :: e in EnumsOf(nodes) && e.name == x
      {
        if x in EnumNameSet(nodes) && x !in EnumNameSet(p) {
          assert extra[0] in EnumsOf(nodes);
        }
        if exists e :: e in EnumsOf(nodes) && e.name == x {
          var e :| e in EnumsOf(nodes) && e.name == x;
          if e !in EnumsOf(p) {
            assert e in extra;
          }
        }
      }
    }
  }

  /** `tablesNames` is exactly the set of names of the tables returned. */
  lemma {:induction false} TableNamesMatchTables(nodes: seq<Block>)
    ensures TableNameSet(nodes) == set t | t in TablesOf(nodes) :: t.name
  {
    if nodes != [] {
      var p := nodes[..|nodes| - 1];
      var b := nodes[|nodes| - 1];
      TableNamesMatchTables(p);
      var extra := if IsModelNode(b) then [IntermediateTable(b.name, TableFields(b.properties), [])] else [];
      assert TablesOf(nodes) == TablesOf(p) + extra;
      forall x
        ensures x in TableNameSet(nodes) <==> exists t :: t in TablesOf(nodes) && t.name == x
      {
        if x in TableNameSet(nodes) && x !in TableNameSet(p) {
          assert extra[0] in TablesOf(nodes);
        }
        if exists t :: t in TablesOf(nodes) && t.name == x {
          var t :| t in TablesOf(nodes) && t.name == x;
          if t !in TablesOf(p) {
            assert t in extra;
          }
        }
      }
    }
  }

  /** A block that is neither an enum nor a model (a composite type, a
      datasource, a generator) changes nothing in the returned record. */
  lemma OtherBlocksIgnored(nodes: seq<Block>, b: Block)
    requires !IsEnumNode(b) && !IsModelNode(b)
    ensures IntermediateSchemaSpec(nodes + [b]) == IntermediateSchemaSpec(nodes)
  {
    assert (nodes + [b])[..|nodes|] == nodes;
    assert SchemaRegistrations(nodes + [b]) == SchemaRegistrations(nodes) + [];
    assert SchemaRegistrations(nodes) + [] == SchemaRegistrations(nodes);
  }

  /** The model names, in order. */
  function ModelNames(nodes: seq<Block>): seq<string> {
    if nodes == [] then []
    else
      var b := nodes[|nodes| - 1];
      ModelNames(nodes[..|nodes| - 1]) + (if IsModelNode(b) then [b.name] else [])
  }

  /** The tables come in model order, one per model, each with its model's name. */
  lemma {:induction false} TablesInModelOrder(nodes: seq<Block>)
    ensures |TablesOf(nodes)| == |ModelNames(nodes)|
    ensures forall k :: 0 <= k < |ModelNames(nodes)| ==> TablesOf(nodes)[k].name == ModelNames(nodes)[k]
  {
    if nodes != [] {
      TablesInModelOrder(nodes[..|nodes| - 1]);
    }
  }

  /** The raw relations registered by a run of registrations, in order. */
  function Raws(regs: seq<Registration>): seq<RawRelation> {
    if regs == [] then []
    else Raws(regs[..|regs| - 1]) + (if regs[|regs| - 1].RegisterRaw? then [regs[|regs| - 1].relation] else [])
  }

  /** The inverse registrations of a run, as `[key, type]` entries. */
  function Inverses(regs: seq<Registration>): Entries<string> {
    if regs == [] then []
    else
      var r := regs[|regs| - 1];
      Inverses(regs[..|regs| - 1]) + (if r.RegisterInverse? then [(r.key, r.kind)] else [])
  }

  /** `rawRelations` lists every `registerRelation` call in order, and
      `inverseRelationMap` is the map the inverse calls build. */
  lemma {:induction false} ApplyFromEmpty(regs: seq<Registration>)
    ensures Apply(EmptyRegistry, regs).rawRelations == Raws(regs)
    ensures Apply(EmptyRegistry, regs).inverseRelationMap == FromEntries(Inverses(regs))
  {
    if regs != [] {
      var n := |regs| - 1;
      ApplyFromEmpty(regs[..n]);
      var prev := Apply(EmptyRegistry, regs[..n]);
      assert Apply(EmptyRegistry, regs) == ApplyOne(prev, regs[n]);
      if regs[n].RegisterInverse? {
        var e := Inverses(regs[..n]) + [(regs[n].key, regs[n].kind)];
        assert Inverses(regs) == e;
        assert e[..|e| - 1] == Inverses(regs[..n]);
        assert FromEntries(e) == Set(FromEntries(Inverses(regs[..n])), regs[n].key, regs[n].kind);
      } else {
        assert Inverses(regs) == Inverses(regs[..n]) + [];
        assert Inverses(regs[..n]) + [] == Inverses(regs[..n]);
      }
    }
  }

  /** The inverse map keeps, for every key, the type registered last. */
  lemma InverseMapKeepsLast(nodes: seq<Block>, key: string)
    ensures Get(IntermediateSchemaSpec(nodes).inverseRelationMap, key) == LastValue(Inverses(SchemaRegistrations(nodes)), key)
    ensures IntermediateSchemaSpec(nodes).rawRelations == Raws(SchemaRegistrations(nodes))
  {
    ApplyFromEmpty(SchemaRegistrations(nodes));
    GetFromEntries(Inverses(SchemaRegistrations(nodes)), key);
  }
}
