/** A Prisma field's type name, its configuration read from its attributes
    (`getFieldConfig`) and its intermediate form (`formatIntermediateTableField`). */
module PrismaField {
  import opened Common
  import opened PrismaAst

  /** `getFieldTypeName`: a type given as a string is its own name, an
      object type gives its `name`. */
  function FieldTypeName(t: FieldType): (r: string)
    ensures t.TypeName? ==> r == t.s
    ensures t.TypeObject? ==> r == t.name
  {
    match t
    case TypeName(s) => s
    case TypeObject(name) => name
  }

  // ---------------------------------------------------------------- getFieldConfig

  /** The default value: `null` until a default attribute provides one; the
      value provided is a primitive or `undefined`. */
  datatype DbDefault = Null | Provided(v: Value)

  datatype FieldConfig = FieldConfig(dbdefault: DbDefault, increment: bool, pk: bool, unique: bool)

  const InitialConfig: FieldConfig := FieldConfig(Null, false, false, false)

  /** A default argument the inner loop stops at: a non-object (a scalar or
      `undefined`), a key-value pair or a function call. */
  predicate Examined(v: Value) {
    !IsObject(v) || IsKeyValue(v) || IsFunNodeType(v)
  }

  /** The index of the first examined argument, or `|args|`. */
  function FirstExamined(args: seq<Value>): (k: nat)
    ensures k <= |args| && (k < |args| ==> Examined(args[k]))
    ensures forall j :: 0 <= j < k ==> !Examined(args[j])
  {
    if args == [] then 0 else if Examined(args[0]) then 0 else 1 + FirstExamined(args[1..])
  }

  /** What the examined argument `v` does to the configuration. */
  function ApplyDefault(cfg: FieldConfig, v: Value): FieldConfig
    requires Examined(v)
  {
    if !IsObject(v) then cfg.(dbdefault := Provided(v))
    else if IsKeyValue(v) then (if !IsObject(v.value) then cfg.(dbdefault := Provided(v.value)) else cfg)
    else cfg.(dbdefault := Provided(Prim(PStr(v.name))),
              increment := cfg.increment || v.name == "autoincrement")
  }

  /** One `@default(…)` attribute's arguments: only the first examined one counts. */
  function DefaultArgs(cfg: FieldConfig, args: seq<Value>): FieldConfig {
    var k := FirstExamined(args);
    if k < |args| then ApplyDefault(cfg, args[k]) else cfg
  }

  /** One attribute, dispatched on its name. */
  function ConfigStep(cfg: FieldConfig, a: Attribute): FieldConfig {
    if a.name == DefaultAttr then (if a.args.None? then cfg else DefaultArgs(cfg, a.args.value))
    else if a.name == IdAttr then cfg.(pk := true)
    else if a.name == UniqueAttr then cfg.(unique := true)
    else cfg
  }

  /** The attributes in order. */
  function ConfigOf(attrs: seq<Attribute>): FieldConfig {
    if attrs == [] then InitialConfig else ConfigStep(ConfigOf(attrs[..|attrs| - 1]), attrs[|attrs| - 1])
  }

  /** `getFieldConfig`: None stands for the empty object returned when the
      attribute list is undefined. */
  function FieldConfigSpec(attrs: Option<seq<Attribute>>): (r: Option<FieldConfig>)
    ensures attrs.None? <==> r.None?
  {
    if attrs.None? then None else Some(ConfigOf(attrs.value))
  }

  // ---------------------------------------------------------------- lemmas

  /** The primary-key flag is set exactly when some attribute is named `id`. */
  lemma {:induction false} PkIffId(attrs: seq<Attribute>)
    ensures ConfigOf(attrs).pk <==> exists i :: 0 <= i < |attrs| && attrs[i].name == IdAttr
  {
    if attrs != [] {
      var n := |attrs| - 1;
      PkIffId(attrs[..n]);
      assert forall i :: 0 <= i < n ==> attrs[..n][i] == attrs[i];
      if ConfigOf(attrs).pk && !ConfigOf(attrs[..n]).pk {
        assert attrs[n].name == IdAttr;
      }
    }
  }

  /** The unique flag is set exactly when some attribute is named `unique`. */
  lemma {:induction false} UniqueIffUnique(attrs: seq<Attribute>)
    ensures ConfigOf(attrs).unique <==> exists i :: 0 <= i < |attrs| && attrs[i].name == UniqueAttr
  {
    if attrs != [] {
      var n := |attrs| - 1;
      UniqueIffUnique(attrs[..n]);
      assert forall i :: 0 <= i < n ==> attrs[..n][i] == attrs[i];
      if ConfigOf(attrs).unique && !ConfigOf(attrs[..n]).unique {
        assert attrs[n].name == UniqueAttr;
      }
    }
  }

  /** A default attribute whose first examined argument is the function
      `autoincrement`. */
  predicate AutoincrementDefault(a: Attribute) {
    && a.name == DefaultAttr && a.args.Some?
    && var k := FirstExamined(a.args.value);
    && k < |a.args.value| && IsFunNodeType(a.args.value[k]) && a.args.value[k].name == "autoincrement"
  }

  /** The increment flag is set exactly when some default attribute's
      examined argument calls `autoincrement()`. */
  lemma {:induction false} IncrementIffAutoincrement(attrs: seq<Attribute>)
    ensures ConfigOf(attrs).increment <==> exists i :: 0 <= i < |attrs| && AutoincrementDefault(attrs[i])
  {
    if attrs != [] {
      var n := |attrs| - 1;
      IncrementIffAutoincrement(attrs[..n]);
      assert forall i :: 0 <= i < n ==> attrs[..n][i] == attrs[i];
      if ConfigOf(attrs).increment && !ConfigOf(attrs[..n]).increment {
        assert AutoincrementDefault(attrs[n]);
      }
    }
  }

  /** An attribute that leaves the default value unchanged: not a default,
      a default without arguments, or one with no examined argument. */
  predicate KeepsDefault(a: Attribute) {
    a.name != DefaultAttr || a.args.None? || FirstExamined(a.args.value) == |a.args.value|
  }

  /** Without a default attribute that has an examined argument, `dbdefault`
      stays `null`. */
  lemma {:induction false} NoDefaultIsNull(attrs: seq<Attribute>)
    requires forall i :: 0 <= i < |attrs| ==> KeepsDefault(attrs[i])
    ensures ConfigOf(attrs).dbdefault == Null
  {
    if attrs != [] {
      var n := |attrs| - 1;
      assert forall i :: 0 <= i < n ==> attrs[..n][i] == attrs[i];
      NoDefaultIsNull(attrs[..n]);
    }
  }

  /** The value provided is what the first examined argument holds: the
      scalar itself, the key-value's primitive, or the function's name. */
  lemma DefaultArgsValue(cfg: FieldConfig, args: seq<Value>, k: nat)
    requires k < |args| && Examined(args[k]) && forall j :: 0 <= j < k ==> !Examined(args[j])
    ensures !IsObject(args[k]) ==> DefaultArgs(cfg, args).dbdefault == Provided(args[k])
    ensures IsKeyValue(args[k]) && !IsObject(args[k].value) ==> DefaultArgs(cfg, args).dbdefault == Provided(args[k].value)
    ensures IsKeyValue(args[k]) && IsObject(args[k].value) ==> DefaultArgs(cfg, args) == cfg
    ensures IsFunNodeType(args[k]) ==> DefaultArgs(cfg, args).dbdefault == Provided(Prim(PStr(args[k].name)))
    ensures DefaultArgs(cfg, args).pk == cfg.pk && DefaultArgs(cfg, args).unique == cfg.unique
  {
    FirstExaminedUnique(args, k);
  }

  lemma {:induction false} FirstExaminedUnique(args: seq<Value>, k: nat)
    requires k <= |args| && (k < |args| ==> Examined(args[k])) && forall j :: 0 <= j < k ==> !Examined(args[j])
    ensures FirstExamined(args) == k
  {
    if args != [] && k > 0 {
      FirstExaminedUnique(args[1..], k - 1);
    }
  }

  /** `@id @default(autoincrement())`. */
  lemma AutoincrementIdExample()
    ensures var attrs := [Attribute(AttributeTag, IdAttr, None),
                          Attribute(AttributeTag, DefaultAttr, Some([Obj(FunctionTag, "", "autoincrement", Undefined, JsArray([]))]))];
            ConfigOf(attrs) == FieldConfig(Provided(Prim(PStr("autoincrement"))), true, true, false)
  {
    var attrs := [Attribute(AttributeTag, IdAttr, None),
                  Attribute(AttributeTag, DefaultAttr, Some([Obj(FunctionTag, "", "autoincrement", Undefined, JsArray([]))]))];
    assert attrs[..1][..0] == [];
    assert attrs[..1] == [attrs[0]];
    var cfg1 := ConfigOf(attrs[..1]);
    assert ConfigOf(attrs[..1][..0]) == InitialConfig;
    assert attrs[0].name != DefaultAttr by { assert |attrs[0].name| != |DefaultAttr|; }
    assert cfg1 == ConfigStep(InitialConfig, attrs[0]);
    assert cfg1 == FieldConfig(Null, false, true, false);
    var args := attrs[1].args.value;
    assert Examined(args[0]);
    FirstExaminedUnique(args, 0);
    assert ConfigOf(attrs) == DefaultArgs(cfg1, args);
  }

  // ---------------------------------------------------------------- the loops

  /** The inner loop over one default attribute's arguments, with its `break`s. */
  method ExamineDefaultArgs(cfg: FieldConfig, args: seq<Value>) returns (r: FieldConfig)
    ensures r == DefaultArgs(cfg, args)
  {
    r := cfg;
    var j := 0;
    while j < |args|
      invariant 0 <= j <= |args|
      invariant r == cfg
      invariant forall i :: 0 <= i < j ==> !Examined(args[i])
    {
      var v := args[j];
      if !IsObject(v) {
        r := r.(dbdefault := Provided(v));
        FirstExaminedUnique(args, j);
        return;
      }
      if IsKeyValue(v) {
        if !IsObject(v.value) {
          r := r.(dbdefault := Provided(v.value));
        }
        FirstExaminedUnique(args, j);
        return;
      }
      if IsFunNodeType(v) {
        r := r.(dbdefault := Provided(Prim(PStr(v.name))));
        if v.name == "autoincrement" {
          r := r.(increment := true);
        }
        FirstExaminedUnique(args, j);
        return;
      }
      j := j + 1;
    }
    FirstExaminedUnique(args, j);
  }

  /** `getFieldConfig`: the switch over the attributes updating the four flags. */
  method GetFieldConfig(attrs: Option<seq<Attribute>>) returns (r: Option<FieldConfig>)
    ensures r == FieldConfigSpec(attrs)
  {
    if attrs.None? {
      return None;
    }
    var props := attrs.value;
    var cfg := InitialConfig;
    var i := 0;
    while i < |props|
      invariant 0 <= i <= |props|
      invariant cfg == ConfigOf(props[..i])
    {
      var prop := props[i];
      assert props[..i + 1][..i] == props[..i];
      if prop.name == DefaultAttr {
        if prop.args.Some? {
          cfg := ExamineDefaultArgs(cfg, prop.args.value);
        }
      } else if prop.name == IdAttr {
        cfg := cfg.(pk := true);
      } else if prop.name == UniqueAttr {
        cfg := cfg.(unique := true);
      }
      i := i + 1;
    }
    assert props[..|props|] == props;
    r := Some(cfg);
  }

  // ---------------------------------------------------------------- formatIntermediateTableField

  /** The intermediate field: `Object.assign` of the name, the type, the
      nullability and, when the field has attributes, its configuration. */
  datatype IntermediateField = IntermediateField(
    name: string,
    typeName: string,
    many: bool,
    notNull: bool,
    config: Option<FieldConfig>)

  function FormatIntermediateField(node: Property): (f: IntermediateField)
    ensures f.name == node.name && f.typeName == FieldTypeName(node.fieldType) && f.many == node.isArray
    ensures f.notNull <==> node.optional != Some(true)
    ensures f.config.None? <==> node.attributes.None?
    ensures f.config.Some? ==> f.config.value == ConfigOf(node.attributes.value)
  {
    IntermediateField(node.name, FieldTypeName(node.fieldType), node.isArray,
                      if node.optional.None? then true else !node.optional.value,
                      FieldConfigSpec(node.attributes))
  }
}
