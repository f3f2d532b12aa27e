/** The last step of the Prisma conversion: intermediate fields and tables
    become JSON table fields and tables, and `prismaASTToJSONTableSchema`
    composes the whole pipeline into `{ tables, enums, refs }`. */
module PrismaJson {
  import opened Common
  import opened JsMap
  import opened PrismaAst
  import opened PrismaField
  import opened PrismaRelation
  import opened PrismaIntermediate
  import opened PrismaRefs

  /** A JSON table field: the intermediate field's properties with `type`
      replaced by `{ type_name, is_enum }`, plus the relation flags. */
  datatype JsonField = JsonField(
    name: string,
    typeName: string,
    isEnum: bool,
    notNull: bool,
    config: Option<FieldConfig>,
    isRelation: bool,
    relationalTables: Option<seq<string>>)

  datatype JsonTable = JsonTable(name: string, fields: seq<JsonField>, indexes: seq<string>)

  /** The converted schema; a Prisma schema yields no table groups. */
  datatype JsonSchema = JsonSchema(tables: seq<JsonTable>, enums: seq<JsonEnum>, refs: seq<JsonRef>)

  const ListSuffix: string := " [ ]"

  /** `computeKey(tableName, field.name)`. */
  function FieldKey(tableName: string, fieldName: string, key: KeyFn): string {
    key([Str(tableName), Str(fieldName)])
  }

  /** `intermediateFieldToJSONTableField`. */
  function IntermediateFieldToJsonField(tableName: string, f: IntermediateField, enumsSet: set<string>,
                                        fieldRelations: Entries<seq<string>>, key: KeyFn): JsonField
  {
    var relationship := Get(fieldRelations, FieldKey(tableName, f.name, key));
    JsonField(f.name, if f.many then f.typeName + ListSuffix else f.typeName, f.typeName in enumsSet,
              f.notNull, f.config, relationship.Some? && |relationship.value| > 0, relationship)
  }

  /** What the conversion keeps, marks and appends. */
  lemma FieldToJsonShape(tableName: string, f: IntermediateField, enumsSet: set<string>,
                         fieldRelations: Entries<seq<string>>, key: KeyFn)
    ensures var r := IntermediateFieldToJsonField(tableName, f, enumsSet, fieldRelations, key);
      && (r.isEnum <==> f.typeName in enumsSet)
      && (r.typeName == f.typeName + ListSuffix <==> f.many)
      && (!f.many ==> r.typeName == f.typeName)
      && (r.isRelation <==> exists l :: Get(fieldRelations, FieldKey(tableName, f.name, key)) == Some(l) && l != [])
      && r.relationalTables == Get(fieldRelations, FieldKey(tableName, f.name, key))
      && r.name == f.name && r.notNull == f.notNull && r.config == f.config
  {
    assert |f.typeName + ListSuffix| != |f.typeName|;
  }

  // ---------------------------------------------------------------- tables

  /** A field whose type is a model name only navigates a relation; it is no column. */
  predicate IsVirtualReferenceField(f: IntermediateField, tablesSet: set<string>) {
    f.typeName in tablesSet
  }

  /** The output of one field: nothing for a virtual one. */
  function ConvertOne(tableName: string, f: IntermediateField, enumsSet: set<string>,
                      fieldRelations: Entries<seq<string>>, tablesSet: set<string>, key: KeyFn): seq<JsonField> {
    if IsVirtualReferenceField(f, tablesSet) then []
    else [IntermediateFieldToJsonField(tableName, f, enumsSet, fieldRelations, key)]
  }

  /** The converted non-virtual fields, in order. */
  function ConvertFields(tableName: string, fields: seq<IntermediateField>, enumsSet: set<string>,
                         fieldRelations: Entries<seq<string>>, tablesSet: set<string>, key: KeyFn): seq<JsonField> {
    if fields == [] then []
    else
      ConvertFields(tableName, fields[..|fields| - 1], enumsSet, fieldRelations, tablesSet, key)
      + ConvertOne(tableName, fields[|fields| - 1], enumsSet, fieldRelations, tablesSet, key)
  }

  function CountVirtual(fields: seq<IntermediateField>, tablesSet: set<string>): (n: nat)
    ensures n <= |fields|
  {
    if fields == [] then 0
    else CountVirtual(fields[..|fields| - 1], tablesSet) + (if IsVirtualReferenceField(fields[|fields| - 1], tablesSet) then 1 else 0)
  }

  function TableToJson(t: IntermediateTable, enumsSet: set<string>, fieldRelations: Entries<seq<string>>,
                       tablesSet: set<string>, key: KeyFn): JsonTable {
    JsonTable(t.name, ConvertFields(t.name, t.fields, enumsSet, fieldRelations, tablesSet, key), t.indexes)
  }

  /** `intermediateTableToJSONTableTable`. */
  method IntermediateTableToJsonTable(t: IntermediateTable, enumsSet: set<string>, fieldRelations: Entries<seq<string>>,
                                      tablesSet: set<string>, key: KeyFn) returns (r: JsonTable)
    ensures r == TableToJson(t, enumsSet, fieldRelations, tablesSet, key)
  {
    var fields := [];
    var intermediateFields := t.fields;
    for index := 0 to |intermediateFields|
      invariant fields == ConvertFields(t.name, intermediateFields[..index], enumsSet, fieldRelations, tablesSet, key)
    {
      assert intermediateFields[..index + 1][..index] == intermediateFields[..index];
      var intermediateField := intermediateFields[index];
      var isVirtualReferenceField := intermediateField.typeName in tablesSet;
      if isVirtualReferenceField {
        continue;
      }
      var field := IntermediateFieldToJsonField(t.name, intermediateField, enumsSet, fieldRelations, key);
      fields := fields + [field];
    }
    assert intermediateFields[..|intermediateFields|] == intermediateFields;
    r := JsonTable(t.name, fields, t.indexes);
  }

  /** Virtual reference fields are dropped and every other field is kept:
      the output has one field per non-virtual input field. */
  lemma {:induction false} FieldCount(tableName: string, fields: seq<IntermediateField>, enumsSet: set<string>,
                                      fieldRelations: Entries<seq<string>>, tablesSet: set<string>, key: KeyFn)
    ensures |ConvertFields(tableName, fields, enumsSet, fieldRelations, tablesSet, key)| == |fields| - CountVirtual(fields, tablesSet)
  {
    if fields != [] {
      FieldCount(tableName, fields[..|fields| - 1], enumsSet, fieldRelations, tablesSet, key);
    }
  }

  /** Converting consecutive runs of fields concatenates the results: the
      kept fields stay in order. */
  lemma {:induction false} ConvertFieldsAppend(tableName: string, a: seq<IntermediateField>, b: seq<IntermediateField>,
                                               enumsSet: set<string>, fieldRelations: Entries<seq<string>>, tablesSet: set<string>, key: KeyFn)
    ensures ConvertFields(tableName, a + b, enumsSet, fieldRelations, tablesSet, key)
         == ConvertFields(tableName, a, enumsSet, fieldRelations, tablesSet, key)
          + ConvertFields(tableName, b, enumsSet, fieldRelations, tablesSet, key)
    decreases |b|
  {
    if b == [] {
      ConvertFieldsNil(tableName, a, enumsSet, fieldRelations, tablesSet, key);
      assert b == [];
    } else {
      var bp, x := b[..|b| - 1], b[|b| - 1];
      ConvertFieldsAppend(tableName, a, bp, enumsSet, fieldRelations, tablesSet, key);
      ConvertFieldsAppendOne(tableName, a, bp, x, enumsSet, fieldRelations, tablesSet, key);
      assert b == bp + [x];
    }
  }

  lemma ConvertFieldsNil(tableName: string, a: seq<IntermediateField>,
                         enumsSet: set<string>, fieldRelations: Entries<seq<string>>, tablesSet: set<string>, key: KeyFn)
    ensures ConvertFields(tableName, a + [], enumsSet, fieldRelations, tablesSet, key)
         == ConvertFields(tableName, a, enumsSet, fieldRelations, tablesSet, key)
          + ConvertFields(tableName, [], enumsSet, fieldRelations, tablesSet, key)
  {
    assert a + [] == a;
    ConcatNil(ConvertFields(tableName, a, enumsSet, fieldRelations, tablesSet, key));
  }

  lemma ConvertFieldsAppendOne(tableName: string, a: seq<IntermediateField>, bp: seq<IntermediateField>, x: IntermediateField,
                               enumsSet: set<string>, fieldRelations: Entries<seq<string>>, tablesSet: set<string>, key: KeyFn)
    requires ConvertFields(tableName, a + bp, enumsSet, fieldRelations, tablesSet, key)
          == ConvertFields(tableName, a, enumsSet, fieldRelations, tablesSet, key)
           + ConvertFields(tableName, bp, enumsSet, fieldRelations, tablesSet, key)
    ensures ConvertFields(tableName, a + (bp + [x]), enumsSet, fieldRelations, tablesSet, key)
         == ConvertFields(tableName, a, enumsSet, fieldRelations, tablesSet, key)
          + ConvertFields(tableName, bp + [x], enumsSet, fieldRelations, tablesSet, key)
  {
    var one := ConvertOne(tableName, x, enumsSet, fieldRelations, tablesSet, key);
    var ca := ConvertFields(tableName, a, enumsSet, fieldRelations, tablesSet, key);
    var cbp := ConvertFields(tableName, bp, enumsSet, fieldRelations, tablesSet, key);
    assert a + (bp + [x]) == (a + bp) + [x];
    ConvertFieldsSnoc(tableName, a + bp, x, enumsSet, fieldRelations, tablesSet, key);
    ConvertFieldsSnoc(tableName, bp, x, enumsSet, fieldRelations, tablesSet, key);
    ConcatAssoc(ca, cbp, one);
  }

  lemma ConvertFieldsSnoc(tableName: string, s: seq<IntermediateField>, x: IntermediateField,
                          enumsSet: set<string>, fieldRelations: Entries<seq<string>>, tablesSet: set<string>, key: KeyFn)
    ensures ConvertFields(tableName, s + [x], enumsSet, fieldRelations, tablesSet, key)
         == ConvertFields(tableName, s, enumsSet, fieldRelations, tablesSet, key)
          + ConvertOne(tableName, x, enumsSet, fieldRelations, tablesSet, key)
  {
    assert (s + [x])[..|s|] == s;
  }

  /** A table without virtual fields keeps every field, each converted in place. */
  lemma {:induction false} NoVirtualKeepsAll(tableName: string, fields: seq<IntermediateField>, enumsSet: set<string>,
                                             fieldRelations: Entries<seq<string>>, tablesSet: set<string>, key: KeyFn)
    requires forall i :: 0 <= i < |fields| ==> fields[i].typeName !in tablesSet
    ensures var r := ConvertFields(tableName, fields, enumsSet, fieldRelations, tablesSet, key);
      |r| == |fields| && forall i :: 0 <= i < |fields| ==>
        r[i] == IntermediateFieldToJsonField(tableName, fields[i], enumsSet, fieldRelations, key)
  {
    if fields != [] {
      var n := |fields| - 1;
      var p := fields[..n];
      assert forall i :: 0 <= i < n ==> p[i] == fields[i];
      NoVirtualKeepsAll(tableName, p, enumsSet, fieldRelations, tablesSet, key);
      var r := ConvertFields(tableName, fields, enumsSet, fieldRelations, tablesSet, key);
      var rp := ConvertFields(tableName, p, enumsSet, fieldRelations, tablesSet, key);
      assert r == rp + [IntermediateFieldToJsonField(tableName, fields[n], enumsSet, fieldRelations, key)] by {
        assert !IsVirtualReferenceField(fields[n], tablesSet);
      }
      forall i | 0 <= i < |fields|
        ensures r[i] == IntermediateFieldToJsonField(tableName, fields[i], enumsSet, fieldRelations, key)
      {
        if i < n {
          assert r[i] == rp[i] && p[i] == fields[i];
        }
      }
    }
  }

  // ---------------------------------------------------------------- the schema

  function ConvertTables(tables: seq<IntermediateTable>, enumsSet: set<string>, fieldRelations: Entries<seq<string>>,
                         tablesSet: set<string>, key: KeyFn): (r: seq<JsonTable>)
    ensures |r| == |tables|
    ensures forall i :: 0 <= i < |tables| ==> r[i] == TableToJson(tables[i], enumsSet, fieldRelations, tablesSet, key)
  {
    if tables == [] then []
    else ConvertTables(tables[..|tables| - 1], enumsSet, fieldRelations, tablesSet, key)
         + [TableToJson(tables[|tables| - 1], enumsSet, fieldRelations, tablesSet, key)]
  }

  /** The schema `prismaASTToJSONTableSchema` returns for the block list. */
  function SchemaOf(nodes: seq<Block>, key: KeyFn): JsonSchema {
    var s := IntermediateSchemaSpec(nodes);
    var refs := CreateRefs(s.rawRelations, s.inverseRelationMap, s.tablesNames, key);
    JsonSchema(ConvertTables(s.tables, s.enumsNames, refs.fieldRelations, s.tablesNames, key), s.enums, refs.refs)
  }

  /** `prismaASTToJSONTableSchema`. */
  method PrismaAstToJsonTableSchema(nodes: seq<Block>, key: KeyFn) returns (r: JsonSchema)
    ensures r == SchemaOf(nodes, key)
  {
    var s := CreateIntermediateSchema(nodes);
    var refs, fieldRelationsArray := CreateRefsAndFieldRelations(s.rawRelations, s.inverseRelationMap, s.tablesNames, key);
    var tables := [];
    for i := 0 to |s.tables|
      invariant tables == ConvertTables(s.tables[..i], s.enumsNames, fieldRelationsArray, s.tablesNames, key)
    {
      assert s.tables[..i + 1][..i] == s.tables[..i];
      var t := IntermediateTableToJsonTable(s.tables[i], s.enumsNames, fieldRelationsArray, s.tablesNames, key);
      tables := tables + [t];
    }
    assert s.tables[..|s.tables|] == s.tables;
    r := JsonSchema(tables, s.enums, refs);
  }

  /** One table per model, in model order, each named after its model. */
  lemma OneTablePerModel(nodes: seq<Block>, key: KeyFn)
    ensures |SchemaOf(nodes, key).tables| == |ModelNames(nodes)|
    ensures forall k :: 0 <= k < |ModelNames(nodes)| ==> SchemaOf(nodes, key).tables[k].name == ModelNames(nodes)[k]
  {
    TablesInModelOrder(nodes);
  }

  /** The enums are those of the intermediate schema, one per enum block,
      and their names are exactly the enum names. */
  lemma EnumsPassThrough(nodes: seq<Block>, key: KeyFn)
    ensures SchemaOf(nodes, key).enums == EnumsOf(nodes)
    ensures (set e | e in SchemaOf(nodes, key).enums :: e.name) == EnumNameSet(nodes)
  {
    EnumNamesMatchEnums(nodes);
  }

  /** A converted field is a relation exactly when some emitted ref appended
      a table under its `table.field` key; its related tables are those
      names, in order. */
  lemma RelationFlag(nodes: seq<Block>, key: KeyFn, tableName: string, f: IntermediateField)
    ensures var s := IntermediateSchemaSpec(nodes);
      var refs := CreateRefs(s.rawRelations, s.inverseRelationMap, s.tablesNames, key);
      var l := AppendedUnder(s.rawRelations, s.inverseRelationMap, s.tablesNames, key, FieldKey(tableName, f.name, key));
      var r := IntermediateFieldToJsonField(tableName, f, s.enumsNames, refs.fieldRelations, key);
      && (r.isRelation <==> l != [])
      && r.relationalTables == (if l == [] then None else Some(l))
  {
    var s := IntermediateSchemaSpec(nodes);
    FieldRelationsCollect(s.rawRelations, s.inverseRelationMap, s.tablesNames, key, FieldKey(tableName, f.name, key));
    FieldToJsonShape(tableName, f, s.enumsNames, CreateRefs(s.rawRelations, s.inverseRelationMap, s.tablesNames, key).fieldRelations, key);
  }

  /** A field's type is an enum exactly when an enum block of that name exists. */
  lemma EnumFlag(nodes: seq<Block>, key: KeyFn, tableName: string, f: IntermediateField, fieldRelations: Entries<seq<string>>)
    ensures IntermediateFieldToJsonField(tableName, f, IntermediateSchemaSpec(nodes).enumsNames, fieldRelations, key).isEnum
        <==> exists e :: e in EnumsOf(nodes) && e.name == f.typeName
  {
    EnumNamesMatchEnums(nodes);
    FieldToJsonShape(tableName, f, IntermediateSchemaSpec(nodes).enumsNames, fieldRelations, key);
  }
}
