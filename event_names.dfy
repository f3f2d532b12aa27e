/** The names of the drag events a table or an enum emits while it moves;
    connections listen on them to follow their endpoints. */
module EventNames {
  const TablePrefix: string := "on:table:drag:"
  const EnumPrefix: string := "on:enum:drag:"

  function TableDragEventName(tableName: string): (r: string)
    ensures |r| == |TablePrefix| + |tableName|
    ensures r[..|TablePrefix|] == TablePrefix && r[|TablePrefix|..] == tableName
  {
    TablePrefix + tableName
  }

  function EnumDragEventName(enumName: string): (r: string)
    ensures |r| == |EnumPrefix| + |enumName|
    ensures r[..|EnumPrefix|] == EnumPrefix && r[|EnumPrefix|..] == enumName
  {
    EnumPrefix + enumName
  }

  /** Different tables emit under different names, and so do enums. */
  lemma EventNamesInjective(a: string, b: string)
    ensures TableDragEventName(a) == TableDragEventName(b) ==> a == b
    ensures EnumDragEventName(a) == EnumDragEventName(b) ==> a == b
  {
    if TableDragEventName(a) == TableDragEventName(b) {
      assert a == TableDragEventName(a)[|TablePrefix|..];
    }
    if EnumDragEventName(a) == EnumDragEventName(b) {
      assert a == EnumDragEventName(a)[|EnumPrefix|..];
    }
  }

  /** A table's drag event never reaches a listener of an enum's, whatever
      the two names: the prefixes differ at their fourth character. */
  lemma TableAndEnumEventsDisjoint(tableName: string, enumName: string)
    ensures TableDragEventName(tableName) != EnumDragEventName(enumName)
  {
    assert TableDragEventName(tableName)[3] == 't';
    assert EnumDragEventName(enumName)[3] == 'e';
  }
}
