/**
 * The records the command works on: one column row of the
 * INFORMATION_SCHEMA query, the scalar values of an example row, and the
 * fixed list of Laravel's own infrastructure tables.
 */
module Schema {
  import opened Wrappers

  /**
   * One row of the column query, with the aliases the query gives its
   * fields: `table`, `column`, `type`, `nullable` ("YES"/"NO"), `key`
   * ("PRI", "UNI", "MUL" or ""), `default_value` (NULL when the column has
   * no default) and `extra` (e.g. "auto_increment").
   */
  datatype ColumnInfo = ColumnInfo(
    table: string,
    column: string,
    colType: string,
    nullable: string,
    key: string,
    defaultValue: Option<string>,
    extra: string)

  /**
   * A scalar of an example row, fetched or mocked. A fetched FLOAT or
   * DOUBLE value is `FloatVal`, carried as its decimal literal so that
   * `json_encode` can tell it from the string of the same digits.
   * `FloatZero` is the float `0.0` that the mock rule table produces. No
   * floating-point arithmetic is modelled.
   */
  datatype Value = IntVal(i: int) | StrVal(s: string) | FloatVal(literal: string) | FloatZero | NullVal

  /** One key/value pair of a PHP associative array. */
  datatype Entry = Entry(key: string, value: Value)

  /** An example row: a PHP associative array, kept in insertion order. */
  type Row = seq<Entry>

  /** The nine tables Laravel creates for itself; they are listed after the application's own tables. */
  const LaravelTables: seq<string> := [
    "migrations",
    "failed_jobs",
    "password_reset_tokens",
    "personal_access_tokens",
    "jobs",
    "job_batches",
    "notifications",
    "cache",
    "sessions"
  ]

  /**
   * `in_array($name, $list)`, scanning the list from the front. None of
   * the names compared here is numeric, so PHP's loose comparison is plain
   * equality.
   */
  predicate InList(name: string, list: seq<string>)
  {
    list != [] && (list[0] == name || InList(name, list[1..]))
  }

  /** The scan finds a name exactly when it is an element of the list. */
  lemma {:induction false} InListIffMember(name: string, list: seq<string>)
    ensures InList(name, list) <==> name in list
  {
    if list != [] {
      InListIffMember(name, list[1..]);
      assert list == [list[0]] + list[1..];
    }
  }

  predicate IsLaravelTable(name: string)
  {
    InList(name, LaravelTables)
  }
}
