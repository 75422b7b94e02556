/**
 * The `handle` command of GenerateDatabaseDocs.php (lines 45-151): group
 * the column rows by table, sort the tables, and build the whole Markdown
 * document section by section.
 *
 * The database is outside the model. The rows of the INFORMATION_SCHEMA
 * query are the `columns` parameter. The first row of each table
 * (`DB::table($t)->first()`) is `firstRows`, which has no entry for an
 * empty table. The model part of a section (lines 89-120, found by
 * reflection) is `models`, with no entry when no model class maps to the
 * table. `json_encode($example, JSON_PRETTY_PRINT)` is the function
 * `encode`.
 */
module DatabaseDocs {
  import opened Wrappers
  import opened Schema
  import opened Grouping
  import opened TableOrder
  import opened MockValues
  import opened Markdown

  /** The text lines 89-120 add for a table: empty when no model class was found. */
  function ModelPart(models: map<string, string>, name: string): string
  {
    if name in models then models[name] else ""
  }

  /** `DB::table($name)->first()`: the first row of the table, or null when it is empty. */
  function FirstRow(firstRows: map<string, Row>, name: string): Option<Row>
  {
    if name in firstRows then Some(firstRows[name]) else None
  }

  /**
   * The example row of a table (lines 132-141): its stored first row,
   * unchanged, when it has one; otherwise a row keyed by exactly the
   * table's column names, each holding the mock value of its type.
   */
  function ExampleFor(firstRows: map<string, Row>, name: string, cols: seq<ColumnInfo>): (example: Row)
    ensures name in firstRows ==> example == firstRows[name]
    ensures name !in firstRows ==> Keys(example) == ColumnNames(cols)
    ensures name !in firstRows ==> UniqueKeys(example)
  {
    if name in firstRows then firstRows[name]
    else
      MockRowKeys(cols);
      MockRow(cols)
  }

  /** The sections of the tables in `order`, one after the other. */
  function Sections(order: seq<string>, groups: map<string, seq<ColumnInfo>>,
                    firstRows: map<string, Row>, models: map<string, string>, encode: Row -> string): string
    requires forall t :: t in order ==> t in groups
  {
    if order == [] then ""
    else
      var n := |order| - 1;
      var name := order[n];
      Sections(order[..n], groups, firstRows, models, encode)
        + Section(name, groups[name], ModelPart(models, name), encode(ExampleFor(firstRows, name, groups[name])))
  }

  /** Every table in the sorted order has a group. */
  lemma OrderedNamesAreGrouped(columns: seq<ColumnInfo>)
    ensures forall t :: t in Order(TableNames(columns)) ==> t in GroupMap(columns)
  {
    forall t | t in Order(TableNames(columns)) ensures t in GroupMap(columns) {
      assert t in multiset(Order(TableNames(columns)));
    }
  }

  /** The whole document: title, introduction, then one section per table in sorted order. */
  function Document(database: string, columns: seq<ColumnInfo>, firstRows: map<string, Row>,
                    models: map<string, string>, encode: Row -> string): string
  {
    OrderedNamesAreGrouped(columns);
    Title(database) + Intro + Sections(Order(TableNames(columns)), GroupMap(columns), firstRows, models, encode)
  }

  /** Line 148: the file the document is written to. */
  function OutputFileName(database: string): string
  {
    "db-documentation-" + database + ".md"
  }

  /** Adding a table to the order appends its section. */
  lemma SectionsStep(order: seq<string>, k: int, groups: map<string, seq<ColumnInfo>>,
                     firstRows: map<string, Row>, models: map<string, string>, encode: Row -> string)
    requires forall t :: t in order ==> t in groups
    requires 0 <= k < |order|
    ensures Sections(order[..k + 1], groups, firstRows, models, encode)
         == Sections(order[..k], groups, firstRows, models, encode)
            + Section(order[k], groups[order[k]], ModelPart(models, order[k]),
                      encode(ExampleFor(firstRows, order[k], groups[order[k]])))
  {
    assert order[..k + 1][..k] == order[..k];
    assert order[..k + 1][k] == order[k];
  }

  /**
   * Every input row is documented: its table has a section in the
   * document, and the row is in that section's column table.
   */
  lemma EveryColumnDocumented(columns: seq<ColumnInfo>, i: int)
    requires 0 <= i < |columns|
    ensures columns[i].table in Order(TableNames(columns))
    ensures columns[i].table in GroupMap(columns)
    ensures columns[i] in GroupMap(columns)[columns[i].table]
  {
    RowInItsGroup(columns, i);
    assert columns[i].table in multiset(TableNames(columns));
  }

  /**
   * The body of the section loop (lines 83-146) for one table: each `.=`
   * of the source is one append, and the column rows are appended one by
   * one.
   */
  method RenderSection(name: string, cols: seq<ColumnInfo>, firstRows: map<string, Row>,
                       models: map<string, string>, encode: Row -> string) returns (text: string)
    ensures text == Section(name, cols, ModelPart(models, name), encode(ExampleFor(firstRows, name, cols)))
  {
    text := Heading(name);
    text := text + ModelPart(models, name);
    text := text + ColumnHeader;
    text := text + ColumnRule;
    ghost var head := text;
    for j := 0 to |cols|
      invariant text == head + Rows(cols[..j])
    {
      assert Rows(cols[..j + 1]) == Rows(cols[..j]) + RowLine(cols[j]) by {
        assert cols[..j + 1][..j] == cols[..j];
      }
      AppendAssociates(head, Rows(cols[..j]), RowLine(cols[j]));
      text := text + RowLine(cols[j]);
    }
    assert cols[..|cols|] == cols;
    AppendAssociates(Heading(name) + ModelPart(models, name), ColumnHeader, ColumnRule);
    AppendAssociates(Heading(name) + ModelPart(models, name), ColumnHeader + ColumnRule, Rows(cols));
    text := text + "\n### Example JSON:\n\n";
    var example := BuildExample(FirstRow(firstRows, name), cols);
    text := text + "```json\n";
    text := text + encode(example);
    text := text + "\n```\n\n";
  }

  /**
   * The section loop of lines 83-146: append the section of every table in
   * `order` to the text built so far.
   */
  method AppendSections(start: string, order: seq<string>, groups: map<string, seq<ColumnInfo>>,
                        firstRows: map<string, Row>, models: map<string, string>, encode: Row -> string)
    returns (markdown: string)
    requires forall t :: t in order ==> t in groups
    ensures markdown == start + Sections(order, groups, firstRows, models, encode)
  {
    markdown := start;
    for k := 0 to |order|
      invariant markdown == start + Sections(order[..k], groups, firstRows, models, encode)
    {
      var section := RenderSection(order[k], groups[order[k]], firstRows, models, encode);
      SectionsStep(order, k, groups, firstRows, models, encode);
      AppendAssociates(start, Sections(order[..k], groups, firstRows, models, encode), section);
      markdown := markdown + section;
    }
    assert order[..|order|] == order;
  }

  /**
   * `handle` (lines 45-151): group the rows, sort the table names, render
   * the document. Returns the file name and the text `File::put` writes.
   */
  method Handle(database: string, columns: seq<ColumnInfo>, firstRows: map<string, Row>,
                models: map<string, string>, encode: Row -> string)
    returns (path: string, markdown: string)
    ensures path == OutputFileName(database)
    ensures markdown == Document(database, columns, firstRows, models, encode)
  {
    var names, tables := GroupByTable(columns);
    var keys := new string[|names|](i requires 0 <= i < |names| => names[i]);
    assert keys[..] == names;
    SortTableNames(keys);
    SortedUnique(keys[..], Order(names));
    OrderedNamesAreGrouped(columns);
    var preamble := Title(database) + Intro;
    markdown := AppendSections(preamble, keys[..], tables, firstRows, models, encode);
    path := OutputFileName(database);
  }
}
