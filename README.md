# Database documentation generator, modelled in Dafny

This project models the `docs:database-docs` Artisan command of
malkafly/laravel-db-documentation (`GenerateDatabaseDocs.php`). The command
reads every column of a MySQL schema and writes one Markdown document with
one section per table. Each section holds the table's heading, its column
table and an example JSON row. The model covers the logic between the
database query and the file write:

- **Grouping** (`grouping.dfy`): the loop that files each column row under
  its table name. The PHP ordered array `$tables` is modelled as the
  sequence of its keys in insertion order plus a map from key to column
  list. `GroupByTable` is the loop. `TableNames`, `ColumnsOf` and `GroupMap`
  specify it.
- **Table order** (`table_order.dfy`, `php_strings.dfy`, `schema.dfy`): the
  `uksort` comparator. Application tables come before the nine tables
  Laravel creates for itself. Within each group the order is by `strcmp`.
  `SortTableNames` sorts an array of keys in place. `Order` is a functional
  sort that specifies it. Any sorted permutation equals `Order`, so the
  result does not depend on the sorting algorithm.
- **Mock values** (`mock_values.dfy`): `mockValue`, a first-match-wins
  table of case-sensitive `str_contains` tests. Also the example row: the
  table's first row when it has one, otherwise a row that maps each column
  name to the mock value of its type.
- **Markdown** (`markdown.dfy`): the heading with its Laravel tag, the
  six-column header, one row per column, and the example block.
- **The command** (`database_docs.dfy`): `Handle` groups the rows, sorts
  the keys, renders every section, and returns the file name together with
  the document.

The database, the model-class lookup and its reflection, and `json_encode`
are parameters of `Handle`. The file write is replaced by `Handle`'s
results, the file name and the text. All of these are listed under "Left
out".

Some behaviour one might expect from such a tool is absent from the code,
and so from the model:

- The code renders six columns (no comment column).
- It writes no "no relations" marker.
- It substitutes no placeholder for values that cannot be serialised, and
  has no JSON fallback.
- It does not stop on an empty schema. An empty schema gives the title and
  introduction alone.
- It does not catch a failed fetch of a table's first row: there is no
  fallback to the mock row, the exception ends the command.
- It escapes no cell of the column table. A line break or a backtick in a
  default value or a type (for example ``enum('x`y')``) breaks that
  column's row: the row spans several lines, or splits into extra
  backtick-quoted pieces.

## Model

| member | source | states |
|---|---|---|
| PhpStrings.ContainsIffOccurs | GenerateDatabaseDocs.php:156-160 | `str_contains(h, n)` holds exactly when some window of `h` equals `n` |
| PhpStrings.MissingCharNotContained | GenerateDatabaseDocs.php:156-160 | a needle with a character the haystack lacks is not contained |
| PhpStrings.WindowContained | GenerateDatabaseDocs.php:156-160 | a window equal to the needle makes `str_contains` true |
| PhpStrings.StrCmp | GenerateDatabaseDocs.php:73 | `strcmp` returns -1, 0 or 1, and 0 exactly for equal strings |
| PhpStrings.StrCmpNegativeIffLexLess | GenerateDatabaseDocs.php:73 | `strcmp(a, b) < 0` exactly when `a` is lexicographically smaller (a shared prefix, then a proper prefix or a smaller character) |
| PhpStrings.StrCmpAntisymmetric | GenerateDatabaseDocs.php:73 | swapping the operands negates `strcmp` |
| PhpStrings.StrCmpTransitive | GenerateDatabaseDocs.php:73 | `strcmp(a, b) <= 0` is transitive |
| Schema.InListIffMember | GenerateDatabaseDocs.php:71-72 | the `in_array` test on the Laravel list is list membership |
| Grouping.IndicesOf | GenerateDatabaseDocs.php:66-68 | the positions of a table's rows are strictly ascending and in range, and hold exactly the rows of that table |
| Grouping.TableNamesStep | GenerateDatabaseDocs.php:67 | a row appends its table name to the keys only when the name is new |
| Grouping.ColumnsOfStep | GenerateDatabaseDocs.php:67 | a row extends the group of its own table and leaves every other group alone |
| Grouping.TableNamesDistinct | GenerateDatabaseDocs.php:67 | no key of `$tables` appears twice |
| Grouping.RowNameListed | GenerateDatabaseDocs.php:66-67 | the table of every row is a key of `$tables` |
| Grouping.RowsImplyName | GenerateDatabaseDocs.php:67 | a table with rows is a key of `$tables` |
| Grouping.ExtendGroup | GenerateDatabaseDocs.php:67 | a row of a table already seen appends to that table's list |
| Grouping.StartGroup | GenerateDatabaseDocs.php:67 | a row of a new table creates that table's list holding the row |
| Grouping.NameHasRow | GenerateDatabaseDocs.php:66-67 | a name is a key of `$tables` exactly when some row has that table: no key without a row, no row without its key |
| Grouping.GroupByTable | GenerateDatabaseDocs.php:64-68 | the loop builds exactly the keys in first-appearance order and the map from each key to its rows; with `NameHasRow`, `TableNamesDistinct` and `GroupIsMatchingRowsInOrder` these keys are the row tables, each once, and each list is that table's rows in order |
| Grouping.GroupIsMatchingRowsInOrder | GenerateDatabaseDocs.php:66-68 | each table's list is the input rows of that table, in input (ordinal) order |
| Grouping.RowInItsGroup | GenerateDatabaseDocs.php:66-68 | every row lands in the list of its own table, and that table is a key |
| Grouping.GroupedRowsAppend | GenerateDatabaseDocs.php:66-68 | appending a row adds it to the union of the listed groups exactly when its table is listed |
| Grouping.NewTableGroup | GenerateDatabaseDocs.php:67 | a new table's group contributes exactly its first row |
| Grouping.GroupingKeepsEveryRow | GenerateDatabaseDocs.php:64-68 | the groups together hold exactly the input rows, as a multiset: nothing dropped, nothing duplicated |
| Grouping.GroupSizesAddUp | GenerateDatabaseDocs.php:64-68 | the group sizes add up to the number of input rows |
| TableOrder.CompareTables | GenerateDatabaseDocs.php:70-74 | the comparator returns 0 exactly for equal names |
| TableOrder.CompareMatchesTwoKeyOrder | GenerateDatabaseDocs.php:71-73 | the comparator is negative exactly when the key (is Laravel table, name) is smaller: application before Laravel, then `strcmp` |
| TableOrder.CompareAntisymmetric | GenerateDatabaseDocs.php:73 | swapping the arguments negates the comparator |
| TableOrder.CompareTransitive | GenerateDatabaseDocs.php:73 | "sorts no later than" is transitive, so the comparator is a total order |
| TableOrder.SortedPair | GenerateDatabaseDocs.php:70-74 | in a sorted key list every earlier key sorts no later than every later one |
| TableOrder.Insert | GenerateDatabaseDocs.php:70-74 | insertion adds exactly the one key and starts with it or with the old first key |
| TableOrder.InsertKeepsSorted | GenerateDatabaseDocs.php:70-74 | inserting into a sorted list keeps it sorted |
| TableOrder.Order | GenerateDatabaseDocs.php:70-74 | the specified order is a sorted permutation of the keys |
| TableOrder.SortedUnique | GenerateDatabaseDocs.php:70-74 | two sorted lists with the same keys are equal, so the result does not depend on the sort algorithm |
| TableOrder.SortedTail | GenerateDatabaseDocs.php:70-74 | dropping the first key of a sorted list leaves it sorted |
| TableOrder.Swap | GenerateDatabaseDocs.php:70 | exchanges two keys and changes nothing else, keeping the multiset |
| TableOrder.StartPass | GenerateDatabaseDocs.php:70 | a pass of the in-place sort starts from a sorted prefix |
| TableOrder.SwapKeepsState | GenerateDatabaseDocs.php:70 | moving the inserted key one place down keeps the pass invariant |
| TableOrder.EndPass | GenerateDatabaseDocs.php:70 | a finished pass leaves one more key sorted |
| TableOrder.SortedJoin | GenerateDatabaseDocs.php:70 | two sorted pieces with ordered neighbours form a sorted list |
| TableOrder.SortTableNames | GenerateDatabaseDocs.php:70-74 | the keys end sorted by the comparator and are a permutation of the keys before |
| TableOrder.DefaultTablesLast | GenerateDatabaseDocs.php:71-73 | after sorting, no application table follows a Laravel table |
| TableOrder.AscendingWithinGroup | GenerateDatabaseDocs.php:73 | after sorting, distinct names of the same group are in strictly ascending `strcmp` order |
| TableOrder.DistinctIffSingleCounts | GenerateDatabaseDocs.php:70-74 | a list has no repeats exactly when no key is counted twice |
| TableOrder.SectionOrder | GenerateDatabaseDocs.php:64-74 | the section order holds every table exactly once, application tables first, each group ascending by `strcmp` |
| TableOrder.OrdersBeforeJobs | GenerateDatabaseDocs.php:33-43 | an application table `orders` is placed before Laravel's `jobs` |
| MockValues.FirstMatchIsFirst | GenerateDatabaseDocs.php:155-162 | in a rule table the first matching arm decides, and with no match the value is null |
| MockValues.MockValueFollowsRuleTable | GenerateDatabaseDocs.php:155-162 | `mockValue` is the first-match reading of its five-arm rule table |
| MockValues.IntegerTypesMockToZero | GenerateDatabaseDocs.php:156 | `int(11)`, `tinyint(1)`, `bigint unsigned` and `point` all mock to 0 |
| MockValues.VarcharTypesMockToExample | GenerateDatabaseDocs.php:157 | a `varchar(n)` type mocks to "example" |
| MockValues.VarcharMocksToExample | GenerateDatabaseDocs.php:157 | `varchar(255)` mocks to "example" |
| MockValues.DatetimeTypesMockToTimestamp | GenerateDatabaseDocs.php:158 | a `datetime` type, with or without precision, gets the timestamp value, never the date value |
| MockValues.DatetimeMocksToTimestamp | GenerateDatabaseDocs.php:158 | `datetime(6)` mocks to "2025-01-01 00:00:00" |
| MockValues.DateMocksToDate | GenerateDatabaseDocs.php:159 | `date` passes the timestamp arm and mocks to "2025-01-01" |
| MockValues.DecimalTypesMockToFloatZero | GenerateDatabaseDocs.php:160 | a `decimal(p,s)` type mocks to the float zero |
| MockValues.DecimalMocksToFloatZero | GenerateDatabaseDocs.php:160 | `decimal(10,2)` mocks to the float zero, not to a string |
| MockValues.NoLetterT | GenerateDatabaseDocs.php:157-159 | a type without the letter `t` matches none of the text, timestamp, datetime and date tests |
| MockValues.JsonMocksToNull | GenerateDatabaseDocs.php:161 | `json` matches no arm and mocks to null |
| MockValues.UpperCaseTypesMockToNull | GenerateDatabaseDocs.php:155-162 | the tests are case-sensitive: any type with no lower-case letter, such as `BIGINT(20)` or `DECIMAL(10,2)`, mocks to null |
| MockValues.UpperCaseBigIntMocksToNull | GenerateDatabaseDocs.php:156 | `BIGINT(20)` is not caught by the `int` test and mocks to null |
| MockValues.Assign | GenerateDatabaseDocs.php:137 | `$row[$k] = v` adds `k` to the keys, makes `k` map to `v`, keeps every other key's value, appends when `k` is new, and keeps keys unique |
| MockValues.MockRowKeys | GenerateDatabaseDocs.php:135-138 | the mock row's keys are exactly the column names, each once |
| MockValues.MockRowLookup | GenerateDatabaseDocs.php:135-138 | each column name maps to `mockValue` of the type of the last column of that name |
| MockValues.MockRowInColumnOrder | GenerateDatabaseDocs.php:135-138 | with distinct column names, the mock row lists one entry per column, in column order |
| MockValues.BuildExample | GenerateDatabaseDocs.php:132-141 | the fetched row is used unchanged; with no row the loop builds the mock row |
| Markdown.LaravelTagIffDefaultTable | GenerateDatabaseDocs.php:84-87 | the heading ends with the " *(Laravel Default)*" tag exactly when the table is in the Laravel list |
| Markdown.RowLineIsOneLine | GenerateDatabaseDocs.php:126-127 | a row whose cells hold no line break is exactly one line |
| Markdown.RowsLines | GenerateDatabaseDocs.php:125-128 | when no cell holds a line break, the rows of a table are exactly one line per column |
| Markdown.ColumnTableLines | GenerateDatabaseDocs.php:122-128 | when no cell holds a line break, the column table is the header line, the rule line and one line per column |
| Markdown.RowsAppend | GenerateDatabaseDocs.php:125-128 | the rows of two column lists are the rows of the first followed by the rows of the second |
| Markdown.SplitNoSeparator | GenerateDatabaseDocs.php:126-127 | helper of the row read-back (the source never splits): splitting text without the separator gives the text alone |
| Markdown.SplitAtSeparator | GenerateDatabaseDocs.php:126-127 | helper of the row read-back (the source never splits): splitting at a first separator gives the text before it, then the split of the rest |
| Markdown.RowLineReadsBack | GenerateDatabaseDocs.php:126-127 | when no cell holds a backtick, reading a rendered row back between its backticks gives column, type, nullable, key, default and extra in header order, with "NULL" for an absent default |
| DatabaseDocs.ExampleFor | GenerateDatabaseDocs.php:132-141 | the example is the stored first row when there is one, otherwise a row keyed by exactly the column names, each once |
| DatabaseDocs.OrderedNamesAreGrouped | GenerateDatabaseDocs.php:70-74 | every key in the sorted order has its column list in `GroupMap` of the input rows |
| DatabaseDocs.SectionsStep | GenerateDatabaseDocs.php:83-146 | one more table in the order appends exactly its section |
| DatabaseDocs.EveryColumnDocumented | GenerateDatabaseDocs.php:83-128 | every input row's table has a section, and the row is in that section's column list |
| DatabaseDocs.RenderSection | GenerateDatabaseDocs.php:83-146 | the appends of one loop iteration produce the table's section: heading, model part, column table, example block |
| DatabaseDocs.AppendSections | GenerateDatabaseDocs.php:83-146 | the section loop appends the sections of all tables in sorted order |
| DatabaseDocs.Handle | GenerateDatabaseDocs.php:45-151 | the command writes to `db-documentation-<database>.md` the title, the introduction and the sections of all tables in sorted order |

## Left out

- The INFORMATION_SCHEMA query and `config(...)` are outside the model. Their results are the `database` and `columns` parameters of `Handle`. The SQL `ORDER BY` is a precondition of nothing: grouping keeps whatever order the rows arrive in.
- `DB::table($t)->first()` is a map from table name to its first row (integers, strings, floats as `FloatVal` and nulls), with no entry for an empty table. Which row is "first" is the database's choice.
- `findModelForTable` and the reflection block (lines 89-120) are a per-table text parameter, `models`. It has no entry when no model class is found. Directory scanning, class loading, reflection and relation probing are not modelled.
- `json_encode` is a function parameter, `encode`. Its failure result (`false`) is not modelled.
- Exceptions from the calls outside the model are not modelled. The PHP catches none of them: `new $class()` in `findModelForTable` (line 174, run for every class in app/Models and every table), `DB::table($tableName)->first()` (line 132) and the schema query abort `handle` before `File::put`, so no file is written. `Handle` always returns a document.
- `File::put` and `$this->info` are file and console I/O. `Handle` returns the file name and the text instead.
- Floating point: the mock `0.0` is the tag `FloatZero`, and a fetched FLOAT or DOUBLE value is `FloatVal` holding its decimal literal as the driver returns it. No arithmetic, rounding or `serialize_precision` formatting is modelled; `json_encode` (a parameter) receives the literal.
- PHP turns numeric-string array keys into integers, and `in_array` compares loosely. Neither is modelled: table names are always strings compared exactly.
- Handle: the introduction of lines 77-81 is appended as one constant, not as five separate appends.
- TableOrder.SortTableNames: PHP's hybrid sort is replaced by an in-place insertion sort. The keys are distinct and the comparator is a total order, so `SortedUnique` shows the result is the same.
- PhpStrings.StrCmp: returns -1, 0 or 1 as PHP 8.2 does. Older PHP versions return other magnitudes with the same sign, and only the sign is used.
