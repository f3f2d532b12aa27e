/** `dbmlTableGroupToJSONTableGroup`: a DBML `TableGroup` as a diagram group.
    The id is `group_<index>_<name>` with every whitespace run of the name
    turned into one `_`; tables are named `schema.table` when they carry a
    schema name; DBML groups hold no enums. */
module DbmlGroups {
  import opened Common
  import TableGroups

  /** A table of a DBML group: its name and its schema's name, None when
      the schema or its name is absent. */
  datatype DbmlTable = DbmlTable(name: string, schemaName: Option<string>)
  datatype DbmlTableGroup = DbmlTableGroup(name: string, tables: seq<DbmlTable>, color: Option<string>, note: Option<string>)

  // ---------------------------------------------------------------- `\s+` → `_`

  /** The characters the regular-expression class `\s` matches: the
      ECMAScript white space and line terminators. */
  predicate IsJsSpace(c: char) {
    || c == ' ' || c == '\t' || c == '\n' || c == '\r' || c == '\U{000B}' || c == '\U{000C}'
    || c == '\U{00A0}' || c == '\U{1680}' || '\U{2000}' <= c <= '\U{200A}'
    || c == '\U{2028}' || c == '\U{2029}' || c == '\U{202F}' || c == '\U{205F}'
    || c == '\U{3000}' || c == '\U{FEFF}'
  }

  predicate SpaceFree(s: string) {
    forall i :: 0 <= i < |s| ==> !IsJsSpace(s[i])
  }

  /** `s.replace(/\s+/g, "_")`: each maximal whitespace run becomes one `_`. */
  function Collapse(s: string): (r: string)
    ensures SpaceFree(r) && |r| <= |s|
  {
    if s == [] then []
    else
      var p := s[..|s| - 1];
      var c := s[|s| - 1];
      if !IsJsSpace(c) then Collapse(p) + [c]
      else if p != [] && IsJsSpace(p[|p| - 1]) then Collapse(p)
      else Collapse(p) + "_"
  }

  /** A name without whitespace is kept as it is. */
  lemma {:induction false} CollapseKeepsSpaceFree(s: string)
    requires SpaceFree(s)
    ensures Collapse(s) == s
  {
    if s != [] {
      CollapseKeepsSpaceFree(s[..|s| - 1]);
      assert s == s[..|s| - 1] + [s[|s| - 1]];
    }
  }

  /** Replacing a second time changes nothing. */
  lemma CollapseIdempotent(s: string)
    ensures Collapse(Collapse(s)) == Collapse(s)
  {
    CollapseKeepsSpaceFree(Collapse(s));
  }

  /** Replacing on a name one character longer. */
  lemma CollapseSnoc(x: string, d: char)
    ensures Collapse(x + [d]) == if !IsJsSpace(d) then Collapse(x) + [d]
                                 else if x != [] && IsJsSpace(x[|x| - 1]) then Collapse(x)
                                 else Collapse(x) + "_"
  {
    assert (x + [d])[..|x|] == x;
  }

  /** Replacing is the same on a name and on the name with one whitespace
      character doubled: only runs matter, not their lengths. */
  lemma {:induction false} CollapseRunLength(a: string, c: char, b: string)
    requires IsJsSpace(c)
    ensures Collapse(a + [c] + b) == Collapse(a + [c, c] + b)
    decreases |b|
  {
    if b == [] {
      assert a + [c] + b == a + [c];
      assert a + [c, c] + b == (a + [c]) + [c];
      CollapseSnoc(a + [c], c);
    } else {
      var n := |b| - 1;
      CollapseRunLength(a, c, b[..n]);
      var x1 := a + [c] + b[..n];
      var x2 := a + [c, c] + b[..n];
      assert a + [c] + b == x1 + [b[n]];
      assert a + [c, c] + b == x2 + [b[n]];
      assert x1[|x1| - 1] == x2[|x2| - 1];
      CollapseSnoc(x1, b[n]);
      CollapseSnoc(x2, b[n]);
    }
  }

  /** Appending text without whitespace appends it to the result. */
  lemma {:induction false} CollapseAppendSpaceFree(a: string, b: string)
    requires SpaceFree(b)
    ensures Collapse(a + b) == Collapse(a) + b
    decreases |b|
  {
    if b == [] {
      assert a + b == a;
    } else {
      var n := |b| - 1;
      assert SpaceFree(b[..n]) && !IsJsSpace(b[n]);
      CollapseAppendSpaceFree(a, b[..n]);
      assert a + b == (a + b[..n]) + [b[n]];
      CollapseSnoc(a + b[..n], b[n]);
      assert Collapse(a + b) == Collapse(a + b[..n]) + [b[n]];
      assert b == b[..n] + [b[n]];
    }
  }

  lemma CollapseExample()
    ensures Collapse("Core  Tables") == "Core_Tables"
  {
    CollapseKeepsSpaceFree("Core");
    CollapseSnoc("Core", ' ');
    CollapseSnoc("Core ", ' ');
    assert "Core" + [' '] == "Core " && "Core " + [' '] == "Core  ";
    CollapseAppendSpaceFree("Core  ", "Tables");
    assert "Core  " + "Tables" == "Core  Tables";
  }

  // ---------------------------------------------------------------- `${index}`

  function Digit(d: nat): (c: char)
    requires d < 10
    ensures '0' <= c <= '9'
  {
    ((('0' as int) + d) as char)
  }

  predicate AllDigits(s: string) {
    forall i :: 0 <= i < |s| ==> '0' <= s[i] <= '9'
  }

  /** The decimal text of a non-negative index, with no leading zero. */
  function Decimal(n: nat): (r: string)
    ensures |r| >= 1 && AllDigits(r)
    ensures |r| > 1 ==> r[0] != '0'
  {
    if n < 10 then [Digit(n)] else Decimal(n / 10) + [Digit(n % 10)]
  }

  function ParseDecimal(s: string): nat
    requires AllDigits(s)
  {
    if s == [] then 0 else ParseDecimal(s[..|s| - 1]) * 10 + ((s[|s| - 1] as int) - ('0' as int))
  }

  /** Reading the decimal text gives the index back. */
  lemma {:induction false} ParseDecimalRoundTrip(n: nat)
    ensures ParseDecimal(Decimal(n)) == n
  {
    if n >= 10 {
      ParseDecimalRoundTrip(n / 10);
      var r := Decimal(n);
      assert r[..|r| - 1] == Decimal(n / 10);
    }
  }

  // ---------------------------------------------------------------- ids

  const GroupIdPrefix: string := "group_"

  function GroupId(index: nat, name: string): (id: string)
    ensures |id| > |GroupIdPrefix| && id[..|GroupIdPrefix|] == GroupIdPrefix && SpaceFree(id)
  {
    GroupIdPrefix + Decimal(index) + "_" + Collapse(name)
  }

  /** The position of the first `c` in `s`, or `|s|`. */
  function FirstIndexOf(s: string, c: char): (k: nat)
    ensures k <= |s| && (k < |s| ==> s[k] == c) && forall i :: 0 <= i < k ==> s[i] != c
  {
    if s == [] then 0 else if s[0] == c then 0 else 1 + FirstIndexOf(s[1..], c)
  }

  /** The index an id was built from: the digits between `group_` and the
      next `_`. */
  function IndexOfId(id: string): Option<nat> {
    if |id| < |GroupIdPrefix| || id[..|GroupIdPrefix|] != GroupIdPrefix then None
    else
      var rest := id[|GroupIdPrefix|..];
      var k := FirstIndexOf(rest, '_');
      if k == 0 || !AllDigits(rest[..k]) then None else Some(ParseDecimal(rest[..k]))
  }

  /** An id records its index: the index is read back from it. */
  lemma IndexOfGroupId(index: nat, name: string)
    ensures IndexOfId(GroupId(index, name)) == Some(index)
  {
    var d := Decimal(index);
    var id := GroupId(index, name);
    var rest := id[|GroupIdPrefix|..];
    assert rest == d + "_" + Collapse(name);
    assert rest[|d|] == '_';
    assert forall i :: 0 <= i < |d| ==> rest[i] == d[i] && rest[i] != '_';
    assert FirstIndexOf(rest, '_') == |d|;
    assert rest[..|d|] == d;
    ParseDecimalRoundTrip(index);
  }

  /** Groups at different positions of a schema never share an id, whatever
      their names. */
  lemma GroupIdsDistinct(i: nat, j: nat, a: string, b: string)
    requires i != j
    ensures GroupId(i, a) != GroupId(j, b)
  {
    IndexOfGroupId(i, a);
    IndexOfGroupId(j, b);
  }

  lemma GroupIdExample()
    ensures GroupId(0, "Core  Tables") == "group_0_Core_Tables"
  {
    CollapseExample();
  }

  // ---------------------------------------------------------------- conversion

  /** `table.schema?.name ? schema.table : table`. */
  function QualifiedName(t: DbmlTable): string {
    if t.schemaName.Some? && t.schemaName.value != "" then t.schemaName.value + "." + t.name else t.name
  }

  function DbmlTableGroupToJson(g: DbmlTableGroup, index: nat): (r: TableGroups.JsonTableGroup)
    ensures r.id == GroupId(index, g.name) && r.name == g.name && r.color == g.color
    ensures |r.tableNames| == |g.tables|
    ensures forall i :: 0 <= i < |g.tables| ==> r.tableNames[i] == QualifiedName(g.tables[i])
    ensures r.enumNames == Some([])
    ensures r.x.None? && r.y.None? && r.width.None? && r.height.None?
  {
    var names := seq(|g.tables|, i requires 0 <= i < |g.tables| => QualifiedName(g.tables[i]));
    TableGroups.JsonTableGroup(GroupId(index, g.name), g.name, g.color, names, Some([]), None, None, None, None)
  }

  /** `tableGroups.map(dbmlTableGroupToJSONTableGroup)`, as the schema
      conversion calls it. */
  function ConvertGroups(groups: seq<DbmlTableGroup>): (r: seq<TableGroups.JsonTableGroup>)
    ensures |r| == |groups| && forall i :: 0 <= i < |groups| ==> r[i] == DbmlTableGroupToJson(groups[i], i)
  {
    seq(|groups|, i requires 0 <= i < |groups| => DbmlTableGroupToJson(groups[i], i))
  }

  /** The converted groups of one schema have pairwise distinct ids, so they
      are distinct keys of the group store. */
  lemma ConvertedIdsUnique(groups: seq<DbmlTableGroup>)
    ensures forall i, j :: 0 <= i < j < |groups| ==> ConvertGroups(groups)[i].id != ConvertGroups(groups)[j].id
  {
    forall i, j | 0 <= i < j < |groups|
      ensures ConvertGroups(groups)[i].id != ConvertGroups(groups)[j].id
    {
      GroupIdsDistinct(i, j, groups[i].name, groups[j].name);
    }
  }

  /** A table with a non-empty schema name is qualified with it; any other
      keeps its bare name. */
  lemma QualifiedNames(t: DbmlTable)
    ensures t.schemaName.Some? && t.schemaName.value != "" ==> QualifiedName(t) == t.schemaName.value + "." + t.name
    ensures t.schemaName == None || t.schemaName == Some("") ==> QualifiedName(t) == t.name
  {
  }
}
