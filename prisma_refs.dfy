/** `createRefsAndFieldRelationsArray`: the references of a Prisma schema,
    built from the raw relations whose inverse side was registered, and the
    table of related tables per `table.field` key. `computeKey` is not part
    of this model; it is the parameter `key`, applied to the key's parts. */
module PrismaRefs {
  import opened Common
  import opened JsMap
  import opened PrismaAst
  import opened PrismaRelation

  /** An endpoint `{ relation, tableName, fieldNames }`. */
  datatype RefEndpoint = RefEndpoint(relation: string, tableName: string, fieldNames: seq<Value>)

  /** A reference `{ name, endpoints }`. */
  datatype JsonRef = JsonRef(name: Option<string>, endpoints: seq<RefEndpoint>)

  type KeyFn = seq<Value> -> string

  /** The key the inverse side is registered under:
      `computeKey(referenceTable, table[, name])`. */
  function RelationId(rel: RawRelation, key: KeyFn): string {
    key([Str(rel.referenceTable), Str(rel.table)] + (if rel.name.Some? then [Str(rel.name.value)] else []))
  }

  /** One of the two tables is a known model. */
  predicate Known(rel: RawRelation, tablesNames: set<string>) {
    rel.table in tablesNames || rel.referenceTable in tablesNames
  }

  /** The ref one raw relation gives, or None when it is skipped. */
  function RefOf(rel: RawRelation, inverse: Entries<string>, tablesNames: set<string>, key: KeyFn): Option<JsonRef> {
    if !Known(rel, tablesNames) then None
    else
      match Get(inverse, RelationId(rel, key))
      case None => None
      case Some(relationType) =>
        Some(JsonRef(rel.name, [
          RefEndpoint("1", rel.referenceTable, [rel.referenceField]),
          RefEndpoint(if relationType == "many" then "*" else "1", rel.table, [rel.field])]))
  }

  // ---------------------------------------------------------------- field relations

  /** `appendFieldRelation`: push onto the list of the key, or start one. */
  function AppendFieldRelation(m: Entries<seq<string>>, fieldKey: string, relationName: string): Entries<seq<string>> {
    if Has(m, fieldKey) then Set(m, fieldKey, Get(m, fieldKey).value + [relationName])
    else Set(m, fieldKey, [relationName])
  }

  /** The list under every key grows by the name under its own key only. */
  lemma GetAppendFieldRelation(m: Entries<seq<string>>, fieldKey: string, relationName: string, k: string)
    ensures Get(AppendFieldRelation(m, fieldKey, relationName), k)
         == if k == fieldKey then Some(Get(m, fieldKey).GetOr([]) + [relationName]) else Get(m, k)
  {
    if Has(m, fieldKey) {
      GetSet(m, fieldKey, Get(m, fieldKey).value + [relationName], k);
    } else {
      assert Get(m, fieldKey).GetOr([]) + [relationName] == [relationName];
      GetSet(m, fieldKey, [relationName], k);
    }
  }

  /** The two appends of one emitted ref: `table` under the referenced field,
      then `referenceTable` under the relation field. */
  function AppendBoth(m: Entries<seq<string>>, rel: RawRelation, key: KeyFn): Entries<seq<string>> {
    var m1 := AppendFieldRelation(m, key([Str(rel.referenceTable), rel.referenceField]), rel.table);
    AppendFieldRelation(m1, key([Str(rel.table), rel.field]), rel.referenceTable)
  }

  // ---------------------------------------------------------------- the loop

  datatype RefsResult = RefsResult(refs: seq<JsonRef>, fieldRelations: Entries<seq<string>>)

  function RefsStep(st: RefsResult, rel: RawRelation, inverse: Entries<string>, tablesNames: set<string>, key: KeyFn): RefsResult {
    match RefOf(rel, inverse, tablesNames, key)
    case None => st
    case Some(r) => RefsResult(st.refs + [r], AppendBoth(st.fieldRelations, rel, key))
  }

  /** `rawRelations.forEach(…)`, from the empty result. */
  function CreateRefs(raws: seq<RawRelation>, inverse: Entries<string>, tablesNames: set<string>, key: KeyFn): RefsResult {
    if raws == [] then RefsResult([], [])
    else RefsStep(CreateRefs(raws[..|raws| - 1], inverse, tablesNames, key), raws[|raws| - 1], inverse, tablesNames, key)
  }

  method CreateRefsAndFieldRelations(raws: seq<RawRelation>, inverse: Entries<string>, tablesNames: set<string>, key: KeyFn)
    returns (refs: seq<JsonRef>, allFieldRelations: Entries<seq<string>>)
    ensures RefsResult(refs, allFieldRelations) == CreateRefs(raws, inverse, tablesNames, key)
  {
    refs := [];
    allFieldRelations := [];
    var i := 0;
    while i < |raws|
      invariant 0 <= i <= |raws|
      invariant RefsResult(refs, allFieldRelations) == CreateRefs(raws[..i], inverse, tablesNames, key)
    {
      assert raws[..i + 1][..i] == raws[..i];
      var relation := raws[i];
      i := i + 1;
      if !(relation.table in tablesNames) && !(relation.referenceTable in tablesNames) {
        continue;
      }
      var id := key([Str(relation.referenceTable), Str(relation.table)]
                    + (if relation.name.Some? then [Str(relation.name.value)] else []));
      var relationType := Get(inverse, id);
      if relationType.None? {
        continue;
      }
      var ref := JsonRef(relation.name, [
        RefEndpoint("1", relation.referenceTable, [relation.referenceField]),
        RefEndpoint(if relationType.value == "many" then "*" else "1", relation.table, [relation.field])]);
      refs := refs + [ref];
      allFieldRelations := AppendFieldRelation(allFieldRelations, key([Str(relation.referenceTable), relation.referenceField]), relation.table);
      allFieldRelations := AppendFieldRelation(allFieldRelations, key([Str(relation.table), relation.field]), relation.referenceTable);
    }
    assert raws[..|raws|] == raws;
  }

  // ---------------------------------------------------------------- lemmas

  /** A raw relation is skipped exactly when neither table is a known model
      or no inverse side is registered under its id. */
  lemma SkippedIff(rel: RawRelation, inverse: Entries<string>, tablesNames: set<string>, key: KeyFn)
    ensures RefOf(rel, inverse, tablesNames, key).None?
        <==> !Known(rel, tablesNames) || !Has(inverse, RelationId(rel, key))
  {
  }

  /** An emitted ref: endpoint 0 is the `"1"` side on the referenced
      field, endpoint 1 the relation field, `"*"` exactly when the inverse
      side is a list. */
  lemma EmittedEndpoints(rel: RawRelation, inverse: Entries<string>, tablesNames: set<string>, key: KeyFn)
    requires RefOf(rel, inverse, tablesNames, key).Some?
    ensures var r := RefOf(rel, inverse, tablesNames, key).value;
      && r.name == rel.name && |r.endpoints| == 2
      && r.endpoints[0] == RefEndpoint("1", rel.referenceTable, [rel.referenceField])
      && r.endpoints[1].tableName == rel.table && r.endpoints[1].fieldNames == [rel.field]
      && (r.endpoints[1].relation == "*" <==> Get(inverse, RelationId(rel, key)) == Some("many"))
      && (r.endpoints[1].relation == "*" || r.endpoints[1].relation == "1")
  {
  }

  /** Refs of consecutive runs of raw relations are concatenated: the refs
      keep the order of the raw relations. */
  lemma {:induction false} RefsAppend(a: seq<RawRelation>, b: seq<RawRelation>, inverse: Entries<string>, tablesNames: set<string>, key: KeyFn)
    ensures CreateRefs(a + b, inverse, tablesNames, key).refs
         == CreateRefs(a, inverse, tablesNames, key).refs + CreateRefs(b, inverse, tablesNames, key).refs
    decreases |b|
  {
    if b == [] {
      assert a + b == a;
      ConcatNil(CreateRefs(a, inverse, tablesNames, key).refs);
    } else {
      var bp, x := b[..|b| - 1], b[|b| - 1];
      RefsAppend(a, bp, inverse, tablesNames, key);
      RefsAppendOne(a, bp, x, inverse, tablesNames, key);
      assert b == bp + [x];
    }
  }

  lemma RefsAppendOne(a: seq<RawRelation>, bp: seq<RawRelation>, x: RawRelation, inverse: Entries<string>, tablesNames: set<string>, key: KeyFn)
    requires CreateRefs(a + bp, inverse, tablesNames, key).refs
          == CreateRefs(a, inverse, tablesNames, key).refs + CreateRefs(bp, inverse, tablesNames, key).refs
    ensures CreateRefs(a + (bp + [x]), inverse, tablesNames, key).refs
         == CreateRefs(a, inverse, tablesNames, key).refs + CreateRefs(bp + [x], inverse, tablesNames, key).refs
  {
    assert a + (bp + [x]) == (a + bp) + [x];
    RefsSnoc(a + bp, x, inverse, tablesNames, key);
    RefsSnoc(bp, x, inverse, tablesNames, key);
    ConcatAssoc(CreateRefs(a, inverse, tablesNames, key).refs, CreateRefs(bp, inverse, tablesNames, key).refs,
                RefsOf(x, inverse, tablesNames, key));
  }

  /** The refs one raw relation contributes: none or one. */
  function RefsOf(rel: RawRelation, inverse: Entries<string>, tablesNames: set<string>, key: KeyFn): seq<JsonRef> {
    match RefOf(rel, inverse, tablesNames, key)
    case None => []
    case Some(r) => [r]
  }

  lemma RefsSnoc(s: seq<RawRelation>, x: RawRelation, inverse: Entries<string>, tablesNames: set<string>, key: KeyFn)
    ensures CreateRefs(s + [x], inverse, tablesNames, key).refs
         == CreateRefs(s, inverse, tablesNames, key).refs + RefsOf(x, inverse, tablesNames, key)
  {
    assert (s + [x])[..|s|] == s;
    if RefOf(x, inverse, tablesNames, key).None? {
      ConcatNil(CreateRefs(s, inverse, tablesNames, key).refs);
    }
  }

  /** A single raw relation gives at most one ref, the one `RefOf` describes. */
  lemma RefsOfOne(rel: RawRelation, inverse: Entries<string>, tablesNames: set<string>, key: KeyFn)
    ensures CreateRefs([rel], inverse, tablesNames, key).refs
         == if RefOf(rel, inverse, tablesNames, key).Some? then [RefOf(rel, inverse, tablesNames, key).value] else []
  {
    assert [rel][..0] == [];
  }

  /** At most one ref per raw relation. */
  lemma {:induction false} RefsBound(raws: seq<RawRelation>, inverse: Entries<string>, tablesNames: set<string>, key: KeyFn)
    ensures |CreateRefs(raws, inverse, tablesNames, key).refs| <= |raws|
  {
    if raws != [] {
      RefsBound(raws[..|raws| - 1], inverse, tablesNames, key);
    }
  }

  /** The names one emitted ref appends under `k`. */
  function AppendedBy(rel: RawRelation, key: KeyFn, k: string): seq<string> {
    (if key([Str(rel.referenceTable), rel.referenceField]) == k then [rel.table] else [])
    + (if key([Str(rel.table), rel.field]) == k then [rel.referenceTable] else [])
  }

  /** The names appended under `k`, in order, by the emitted refs. */
  function AppendedUnder(raws: seq<RawRelation>, inverse: Entries<string>, tablesNames: set<string>, key: KeyFn, k: string): seq<string> {
    if raws == [] then []
    else
      var rel := raws[|raws| - 1];
      var prev := AppendedUnder(raws[..|raws| - 1], inverse, tablesNames, key, k);
      if RefOf(rel, inverse, tablesNames, key).None? then prev else prev + AppendedBy(rel, key, k)
  }

  /** The two appends of one ref, read under any key. */
  lemma GetAppendBoth(m: Entries<seq<string>>, rel: RawRelation, key: KeyFn, k: string)
    requires Get(m, k) != Some([])
    ensures var l := Get(m, k).GetOr([]) + AppendedBy(rel, key, k);
      Get(AppendBoth(m, rel, key), k) == if l == [] then None else Some(l)
  {
    var k1 := key([Str(rel.referenceTable), rel.referenceField]);
    var k2 := key([Str(rel.table), rel.field]);
    var m1 := AppendFieldRelation(m, k1, rel.table);
    var g := Get(m, k).GetOr([]);
    GetAppendFieldRelation(m, k1, rel.table, k);
    GetAppendFieldRelation(m1, k2, rel.referenceTable, k);
    if k == k1 && k == k2 {
      assert AppendedBy(rel, key, k) == [rel.table, rel.referenceTable];
      assert Get(m1, k2) == Some(g + [rel.table]);
      assert Get(AppendBoth(m, rel, key), k) == Some(g + [rel.table] + [rel.referenceTable]);
      assert g + [rel.table] + [rel.referenceTable] == g + [rel.table, rel.referenceTable];
    } else if k == k1 {
      assert AppendedBy(rel, key, k) == [rel.table];
      assert Get(AppendBoth(m, rel, key), k) == Get(m1, k) == Some(g + [rel.table]);
    } else if k == k2 {
      assert AppendedBy(rel, key, k) == [rel.referenceTable];
      assert Get(m1, k2) == Get(m, k);
      assert Get(AppendBoth(m, rel, key), k) == Some(g + [rel.referenceTable]);
    } else {
      assert AppendedBy(rel, key, k) == [];
      assert g + [] == g;
    }
  }

  /** The field-relation table holds, under each key, every name appended
      for it, duplicates kept, and nothing for a key never appended to. */
  lemma {:induction false} FieldRelationsCollect(raws: seq<RawRelation>, inverse: Entries<string>, tablesNames: set<string>, key: KeyFn, k: string)
    ensures var l := AppendedUnder(raws, inverse, tablesNames, key, k);
      Get(CreateRefs(raws, inverse, tablesNames, key).fieldRelations, k) == if l == [] then None else Some(l)
  {
    if raws != [] {
      var n := |raws| - 1;
      var rel := raws[n];
      var prev := CreateRefs(raws[..n], inverse, tablesNames, key);
      FieldRelationsCollect(raws[..n], inverse, tablesNames, key, k);
      if RefOf(rel, inverse, tablesNames, key).Some? {
        assert CreateRefs(raws, inverse, tablesNames, key).fieldRelations == AppendBoth(prev.fieldRelations, rel, key);
        GetAppendBoth(prev.fieldRelations, rel, key, k);
      }
    }
  }

  /** A relation field of a known model, whose inverse side registered a
      list under its id, becomes a one-to-many ref. */
  lemma ManyInverseExample(rel: RawRelation, inverse: Entries<string>, tablesNames: set<string>, key: KeyFn)
    requires rel.table in tablesNames
    requires Get(inverse, RelationId(rel, key)) == Some("many")
    ensures RefOf(rel, inverse, tablesNames, key).Some?
    ensures RefOf(rel, inverse, tablesNames, key).value.endpoints[1].relation == "*"
  {
  }
}
