/** `IdGeneratorTableSpec`: the names of the shared identifier table and its
    three columns, plus an optional schema qualifier. Every setter is a
    fluent update of exactly one field. */
module TableSpecs {
  import opened Wrappers

  const DefaultTableName: string := "OIDADMIN"
  const DefaultCategoryColumn: string := "CATEGORY"
  const DefaultNextIdColumn: string := "NEXTID"
  const DefaultBlockSizeColumn: string := "BLOCKSIZE"

  datatype TableSpec = TableSpec(
    tableQualifier: Option<string>,
    unqualifiedTableName: string,
    categoryColumnName: string,
    nextIdColumnName: string,
    blockSizeColumnName: string)

  /** `create()`: no qualifier and the default table and column names. */
  function Create(): (t: TableSpec)
    ensures t.tableQualifier == None
    ensures t.unqualifiedTableName == DefaultTableName
    ensures t.categoryColumnName == DefaultCategoryColumn
    ensures t.nextIdColumnName == DefaultNextIdColumn
    ensures t.blockSizeColumnName == DefaultBlockSizeColumn
  {
    TableSpec(None, DefaultTableName, DefaultCategoryColumn, DefaultNextIdColumn, DefaultBlockSizeColumn)
  }

  /** `create(name)`: the defaults with another table name. */
  function CreateNamed(name: string): (t: TableSpec)
    ensures t.unqualifiedTableName == name
    ensures t.(unqualifiedTableName := DefaultTableName) == Create()
  {
    SetUnqualifiedTableName(Create(), name)
  }

  function SetTableQualifier(t: TableSpec, q: Option<string>): (r: TableSpec)
    ensures r.tableQualifier == q
    ensures r.(tableQualifier := t.tableQualifier) == t
  {
    t.(tableQualifier := q)
  }

  function SetUnqualifiedTableName(t: TableSpec, name: string): (r: TableSpec)
    ensures r.unqualifiedTableName == name
    ensures r.(unqualifiedTableName := t.unqualifiedTableName) == t
  {
    t.(unqualifiedTableName := name)
  }

  function SetCategoryColumnName(t: TableSpec, name: string): (r: TableSpec)
    ensures r.categoryColumnName == name
    ensures r.(categoryColumnName := t.categoryColumnName) == t
  {
    t.(categoryColumnName := name)
  }

  function SetNextIdColumnName(t: TableSpec, name: string): (r: TableSpec)
    ensures r.nextIdColumnName == name
    ensures r.(nextIdColumnName := t.nextIdColumnName) == t
  {
    t.(nextIdColumnName := name)
  }

  function SetBlockSizeColumnName(t: TableSpec, name: string): (r: TableSpec)
    ensures r.blockSizeColumnName == name
    ensures r.(blockSizeColumnName := t.blockSizeColumnName) == t
  {
    t.(blockSizeColumnName := name)
  }

  const ClassName: string := "IdGeneratorTableSpec"

  /** `toString()`: the class name and the quoted unqualified table name. */
  function ToString(t: TableSpec): (r: string)
    ensures |r| == |ClassName| + |t.unqualifiedTableName| + 4
    ensures r[..|ClassName| + 2] == ClassName + "('"
    ensures r[|ClassName| + 2..|r| - 2] == t.unqualifiedTableName
    ensures r[|r| - 2..] == "')"
  {
    ClassName + "('" + t.unqualifiedTableName + "')"
  }

  /** The text shows only the table name: two specs print alike exactly when
      their table names agree, whatever their columns and qualifiers. */
  lemma ToStringIdentifiesTableName(a: TableSpec, b: TableSpec)
    ensures ToString(a) == ToString(b) <==> a.unqualifiedTableName == b.unqualifiedTableName
  {
    if ToString(a) == ToString(b) {
      var n := |ClassName| + 2;
      assert ToString(a)[n..|ToString(a)| - 2] == ToString(b)[n..|ToString(b)| - 2];
    }
  }

  /** The setters touch disjoint fields, so applying two of them in either order
      gives the same spec. */
  lemma ColumnSettersCommute(t: TableSpec, c: string, n: string, b: string)
    ensures SetCategoryColumnName(SetNextIdColumnName(SetBlockSizeColumnName(t, b), n), c)
         == SetBlockSizeColumnName(SetNextIdColumnName(SetCategoryColumnName(t, c), n), b)
  {
  }

  /** A spec naming table `ID_SEQUENCER` with columns `SEGMENT`, `NEXT_BLOCK_START`
      and `CHUNK` keeps the default (absent) qualifier and differs from the
      default spec in all four names. */
  lemma CustomTableSpec()
    ensures var t := SetBlockSizeColumnName(SetNextIdColumnName(SetCategoryColumnName(
                       CreateNamed("ID_SEQUENCER"), "SEGMENT"), "NEXT_BLOCK_START"), "CHUNK");
      t == TableSpec(None, "ID_SEQUENCER", "SEGMENT", "NEXT_BLOCK_START", "CHUNK")
      && ToString(t) == "IdGeneratorTableSpec('ID_SEQUENCER')"
  {
  }
}
