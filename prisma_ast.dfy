/** The part of the Prisma AST the transformers read, and the node-kind
    predicates of `isTypeOf`. Every node keeps its `type` tag as a string,
    so each predicate is the tag comparison it is in the source. */
module PrismaAst {
  import opened Common

  // ---------------------------------------------------------------- tags

  const EnumTag: string := "enum"
  const EnumeratorTag: string := "enumerator"
  const ModelTag: string := "model"
  const TypeTag: string := "type"
  const FieldTag: string := "field"
  const AttributeTag: string := "attribute"
  const KeyValueTag: string := "keyValue"
  const ArrayTag: string := "array"
  const FunctionTag: string := "function"

  /** The attribute names `PrismaFieldAttributeType` lists. */
  const DefaultAttr: string := "default"
  const IdAttr: string := "id"
  const UniqueAttr: string := "unique"
  const RelationAttr: string := "relation"

  // ---------------------------------------------------------------- nodes

  /** A JS primitive: a string, a number (kept as its source text) or a boolean. */
  datatype Primitive = PStr(s: string) | PNum(text: string) | PBool(b: bool)

  /** The value of an attribute argument, as far as `typeof`, `Array.isArray`
      and the fields read matter: `undefined`, a primitive, a JS array, or a
      tagged object (a key-value pair, a relation array, a function call)
      with the fields `key`, `name`, `value` and `args`, `Undefined` where
      absent. */
  datatype Value =
    | Undefined
    | Prim(p: Primitive)
    | JsArray(items: seq<Value>)
    | Obj(tag: string, key: string, name: string, value: Value, args: Value)

  /** An attribute (`@id`, `@default(…)`, `@relation(…)`), its arguments'
      values in order, or None when `args` is absent. */
  datatype Attribute = Attribute(tag: string, name: string, args: Option<seq<Value>>)

  /** A field's type: a plain type name or an object carrying a `name`
      (such as `Unsupported("…")`). */
  datatype FieldType = TypeName(s: string) | TypeObject(name: string)

  /** A property of a model: a field, or another tagged entry such as a
      block attribute or a comment. */
  datatype Property = Property(
    tag: string,
    name: string,
    fieldType: FieldType,
    isArray: bool,
    optional: Option<bool>,
    attributes: Option<seq<Attribute>>)

  datatype Enumerator = Enumerator(tag: string, name: string, comment: Option<string>)

  /** A top-level block: a model (its `properties`), an enum (its
      `enumerators`), a composite type, a datasource, a generator, … */
  datatype Block = Block(tag: string, name: string, properties: seq<Property>, enumerators: seq<Enumerator>)

  // ---------------------------------------------------------------- isTypeOf

  predicate IsEnumNode(b: Block) { b.tag == EnumTag }
  predicate IsModelNode(b: Block) { b.tag == ModelTag }
  predicate IsTypeNode(b: Block) { b.tag == TypeTag }
  predicate IsField(p: Property) { p.tag == FieldTag }
  predicate IsEnumeratorNode(e: Enumerator) { e.tag == EnumeratorTag }

  predicate IsRelationFieldAttr(a: Attribute) { a.tag == AttributeTag && a.name == "relation" }
  predicate IsRelationNode(a: Attribute) { a.tag == AttributeTag && a.name == RelationAttr }
  predicate IsDefaultFieldValueNode(a: Attribute) { a.tag == AttributeTag && a.name == "default" }

  /** `typeof v === "object"` (null is not a value of this model). */
  predicate IsObject(v: Value) { v.JsArray? || v.Obj? }

  /** An object, not an array, tagged `keyValue`. */
  predicate IsKeyValue(v: Value) { IsObject(v) && !v.JsArray? && v.Obj? && v.tag == KeyValueTag }

  /** An object, not an array, tagged `array`, whose `args` is an array. */
  predicate IsRelationArray(v: Value) { IsObject(v) && !v.JsArray? && v.Obj? && v.tag == ArrayTag && v.args.JsArray? }

  /** Not an array and tagged `function`; a primitive has no tag. */
  predicate IsFunNodeType(v: Value) { !v.JsArray? && v.Obj? && v.tag == FunctionTag }
}
