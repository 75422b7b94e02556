/**
 * The example row of a table section (GenerateDatabaseDocs.php, lines
 * 132-141 and 153-163): the table's first row when it has one, otherwise a
 * mock row mapping every column name to a placeholder chosen from the
 * column's SQL type by `mockValue`.
 */
module MockValues {
  import opened Wrappers
  import opened Schema
  import opened PhpStrings

  /**
   * `mockValue($type)`: a `match (true)` whose first arm with a true
   * condition wins; every condition is a case-sensitive `str_contains`.
   */
  function MockValue(sqlType: string): Value
  {
    if Contains(sqlType, "int") then IntVal(0)
    else if Contains(sqlType, "varchar") || Contains(sqlType, "text") then StrVal("example")
    else if Contains(sqlType, "timestamp") || Contains(sqlType, "datetime") then StrVal("2025-01-01 00:00:00")
    else if Contains(sqlType, "date") then StrVal("2025-01-01")
    else if Contains(sqlType, "decimal") || Contains(sqlType, "float") then FloatZero
    else NullVal
  }

  /** One arm of the rule table: any of the needles selects the value. */
  datatype MockRule = MockRule(needles: seq<string>, value: Value)

  /** The rule table of `mockValue`, in the order the arms are tried. */
  const MockRules: seq<MockRule> := [
    MockRule(["int"], IntVal(0)),
    MockRule(["varchar", "text"], StrVal("example")),
    MockRule(["timestamp", "datetime"], StrVal("2025-01-01 00:00:00")),
    MockRule(["date"], StrVal("2025-01-01")),
    MockRule(["decimal", "float"], FloatZero)
  ]

  /** Some needle occurs in the type. */
  predicate AnyContains(sqlType: string, needles: seq<string>)
  {
    needles != [] && (Contains(sqlType, needles[0]) || AnyContains(sqlType, needles[1..]))
  }

  /** Generic first-match-wins lookup in a rule table; `null` when no rule matches. */
  function FirstMatch(rules: seq<MockRule>, sqlType: string): Value
  {
    if rules == [] then NullVal
    else if AnyContains(sqlType, rules[0].needles) then rules[0].value
    else FirstMatch(rules[1..], sqlType)
  }

  /** The rule that decides is the first one that matches; with none, the value is `null`. */
  lemma {:induction false} FirstMatchIsFirst(rules: seq<MockRule>, sqlType: string, k: int)
    requires 0 <= k <= |rules|
    requires forall l :: 0 <= l < k ==> !AnyContains(sqlType, rules[l].needles)
    requires k < |rules| ==> AnyContains(sqlType, rules[k].needles)
    ensures FirstMatch(rules, sqlType) == if k < |rules| then rules[k].value else NullVal
  {
    if k > 0 {
      assert !AnyContains(sqlType, rules[0].needles);
      FirstMatchIsFirst(rules[1..], sqlType, k - 1);
    }
  }

  lemma AnyOfOne(t: string, a: string)
    ensures AnyContains(t, [a]) == Contains(t, a)
  {
    assert [a][1..] == [];
  }

  lemma AnyOfTwo(t: string, a: string, b: string)
    ensures AnyContains(t, [a, b]) == (Contains(t, a) || Contains(t, b))
  {
    assert [a, b][1..] == [b];
    AnyOfOne(t, b);
  }

  /** `mockValue` is the first-match reading of its rule table. */
  lemma MockValueFollowsRuleTable(sqlType: string)
    ensures MockValue(sqlType) == FirstMatch(MockRules, sqlType)
  {
    var t := sqlType;
    AnyOfOne(t, "int");
    AnyOfTwo(t, "varchar", "text");
    AnyOfTwo(t, "timestamp", "datetime");
    AnyOfOne(t, "date");
    AnyOfTwo(t, "decimal", "float");
    var r0 := MockRules;
    var r1 := [r0[1], r0[2], r0[3], r0[4]];
    var r2 := [r0[2], r0[3], r0[4]];
    var r3 := [r0[3], r0[4]];
    var r4 := [r0[4]];
    assert r0[1..] == r1 && r1[1..] == r2 && r2[1..] == r3 && r3[1..] == r4 && r4[1..] == [];
    assert FirstMatch(r4, t) == if AnyContains(t, r0[4].needles) then FloatZero else NullVal;
    assert FirstMatch(r3, t) == if AnyContains(t, r0[3].needles) then r0[3].value else FirstMatch(r4, t);
    assert FirstMatch(r2, t) == if AnyContains(t, r0[2].needles) then r0[2].value else FirstMatch(r3, t);
    assert FirstMatch(r1, t) == if AnyContains(t, r0[1].needles) then r0[1].value else FirstMatch(r2, t);
  }

  /** Integer types, and every type whose name contains "int" such as `point`, mock to 0. */
  lemma IntegerTypesMockToZero()
    ensures MockValue("int(11)") == IntVal(0)
    ensures MockValue("tinyint(1)") == IntVal(0)
    ensures MockValue("bigint unsigned") == IntVal(0)
    ensures MockValue("point") == IntVal(0)
  {
    assert Contains("int(11)", "int") by {
      WindowContained("int(11)", "int", 0);
    }
    assert Contains("tinyint(1)", "int") by {
      WindowContained("tinyint(1)", "int", 4);
    }
    assert Contains("bigint unsigned", "int") by {
      WindowContained("bigint unsigned", "int", 3);
    }
    assert Contains("point", "int") by {
      WindowContained("point", "int", 2);
    }
  }

  /** A `varchar(n)` type mocks to the string "example". */
  lemma VarcharTypesMockToExample(t: string)
    requires |t| >= 7 && t[..7] == "varchar" && 'n' !in t
    ensures MockValue(t) == StrVal("example")
  {
    MissingCharNotContained(t, "int", 1);
    WindowContained(t, "varchar", 0);
  }

  lemma VarcharMocksToExample(t: string)
    requires t == "varchar(255)"
    ensures MockValue(t) == StrVal("example")
  {
    assert t[..7] == "varchar";
    VarcharTypesMockToExample(t);
  }

  /**
   * A type spelled `datetime`, with or without a precision, is caught by
   * the timestamp rule and never reaches the `date` rule.
   */
  lemma DatetimeTypesMockToTimestamp(t: string)
    requires |t| >= 8 && t[..8] == "datetime"
    requires 'n' !in t && 'v' !in t && 'x' !in t
    ensures MockValue(t) == StrVal("2025-01-01 00:00:00")
  {
    MissingCharNotContained(t, "int", 1);
    MissingCharNotContained(t, "varchar", 0);
    MissingCharNotContained(t, "text", 2);
    WindowContained(t, "datetime", 0);
  }

  lemma DatetimeMocksToTimestamp(t: string)
    requires t == "datetime(6)"
    ensures MockValue(t) == StrVal("2025-01-01 00:00:00")
  {
    assert t[..8] == "datetime";
    DatetimeTypesMockToTimestamp(t);
  }

  /** A plain `date` passes the timestamp rule and mocks to a date without a time. */
  lemma DateMocksToDate()
    ensures MockValue("date") == StrVal("2025-01-01")
  {
    assert !Contains("date", "int") by {
      MissingCharNotContained("date", "int", 0);
    }
    assert !Contains("date", "varchar") by {
      MissingCharNotContained("date", "varchar", 0);
    }
    assert !Contains("date", "text") by {
      MissingCharNotContained("date", "text", 2);
    }
    assert !Contains("date", "timestamp") by {
      MissingCharNotContained("date", "timestamp", 4);
    }
    assert !Contains("date", "datetime") by {
      MissingCharNotContained("date", "datetime", 5);
    }
    assert Contains("date", "date") by {
      WindowContained("date", "date", 0);
    }
  }

  /** A `decimal(p,s)` type mocks to the float zero, not to a string. */
  lemma DecimalTypesMockToFloatZero(t: string)
    requires |t| >= 7 && t[..7] == "decimal"
    requires 'n' !in t && 'v' !in t && 't' !in t
    ensures MockValue(t) == FloatZero
  {
    NoLetterT(t);
    MissingCharNotContained(t, "int", 1);
    MissingCharNotContained(t, "varchar", 0);
    WindowContained(t, "decimal", 0);
  }

  lemma DecimalMocksToFloatZero(t: string)
    requires t == "decimal(10,2)"
    ensures MockValue(t) == FloatZero
  {
    assert t[..7] == "decimal";
    DecimalTypesMockToFloatZero(t);
  }

  /** A type without the letter `t` matches none of the text and date rules. */
  lemma NoLetterT(t: string)
    requires 't' !in t
    ensures !Contains(t, "text") && !Contains(t, "timestamp") && !Contains(t, "datetime") && !Contains(t, "date")
  {
    assert !Contains(t, "text") by {
      MissingCharNotContained(t, "text", 0);
    }
    assert !Contains(t, "timestamp") by {
      MissingCharNotContained(t, "timestamp", 0);
    }
    assert !Contains(t, "datetime") by {
      MissingCharNotContained(t, "datetime", 2);
    }
    assert !Contains(t, "date") by {
      MissingCharNotContained(t, "date", 2);
    }
  }

  /** `json` matches no rule and mocks to `null`. */
  lemma JsonMocksToNull()
    ensures MockValue("json") == NullVal
  {
    var j := "json";
    assert !Contains(j, "int") by {
      MissingCharNotContained(j, "int", 0);
    }
    assert !Contains(j, "varchar") by {
      MissingCharNotContained(j, "varchar", 0);
    }
    assert !Contains(j, "text") && !Contains(j, "timestamp") && !Contains(j, "datetime") && !Contains(j, "date") by {
      NoLetterT(j);
    }
    assert !Contains(j, "decimal") by {
      MissingCharNotContained(j, "decimal", 0);
    }
    assert !Contains(j, "float") by {
      MissingCharNotContained(j, "float", 0);
    }
  }

  /**
   * The tests are case-sensitive: a type with no lower-case letter, such as
   * `BIGINT(20)` or `DECIMAL(10,2)`, matches no rule and mocks to `null`.
   */
  lemma UpperCaseTypesMockToNull(t: string)
    requires forall k :: 0 <= k < |t| ==> !('a' <= t[k] <= 'z')
    ensures MockValue(t) == NullVal
  {
    MissingCharNotContained(t, "int", 0);
    MissingCharNotContained(t, "varchar", 0);
    MissingCharNotContained(t, "text", 0);
    MissingCharNotContained(t, "timestamp", 0);
    MissingCharNotContained(t, "datetime", 0);
    MissingCharNotContained(t, "date", 0);
    MissingCharNotContained(t, "decimal", 0);
    MissingCharNotContained(t, "float", 0);
  }

  lemma UpperCaseBigIntMocksToNull(t: string)
    requires t == "BIGINT(20)"
    ensures MockValue(t) == NullVal
  {
    UpperCaseTypesMockToNull(t);
  }

  /** The keys of a row. */
  function Keys(row: Row): set<string>
  {
    if row == [] then {} else {row[0].key} + Keys(row[1..])
  }

  /** A PHP array never holds a key twice. */
  predicate UniqueKeys(row: Row)
  {
    row == [] || (row[0].key !in Keys(row[1..]) && UniqueKeys(row[1..]))
  }

  /** `$row[$key]`, or None when the key is absent. */
  function Lookup(row: Row, key: string): Option<Value>
  {
    if row == [] then None
    else if row[0].key == key then Some(row[0].value)
    else Lookup(row[1..], key)
  }

  /** `$row[$key] = $v`: replaces the value in place when the key exists, appends the pair otherwise. */
  function Assign(row: Row, key: string, v: Value): (r: Row)
    ensures Keys(r) == Keys(row) + {key}
    ensures Lookup(r, key) == Some(v)
    ensures forall k :: k != key ==> Lookup(r, k) == Lookup(row, k)
    ensures key !in Keys(row) ==> r == row + [Entry(key, v)]
    ensures UniqueKeys(row) ==> UniqueKeys(r)
  {
    if row == [] then [Entry(key, v)]
    else if row[0].key == key then
      assert ([Entry(key, v)] + row[1..])[1..] == row[1..];
      [Entry(key, v)] + row[1..]
    else
      var rest := Assign(row[1..], key, v);
      assert ([row[0]] + rest)[1..] == rest;
      assert key !in Keys(row) ==> [row[0]] + rest == row + [Entry(key, v)] by {
        if key !in Keys(row) {
          assert row == [row[0]] + row[1..];
        }
      }
      [row[0]] + rest
  }

  /** The example built when the table is empty: `$example[$col->column] = mockValue($col->type)` for each column in order. */
  function MockRow(cols: seq<ColumnInfo>): Row
  {
    if cols == [] then []
    else
      var last := cols[|cols| - 1];
      Assign(MockRow(cols[..|cols| - 1]), last.column, MockValue(last.colType))
  }

  /** The last column called `name`, whose assignment is the one that stays. */
  function LastNamed(cols: seq<ColumnInfo>, name: string): Option<ColumnInfo>
  {
    if cols == [] then None
    else if cols[|cols| - 1].column == name then Some(cols[|cols| - 1])
    else LastNamed(cols[..|cols| - 1], name)
  }

  /** The names of some columns. */
  function ColumnNames(cols: seq<ColumnInfo>): set<string>
  {
    set c | c in cols :: c.column
  }

  lemma ColumnNamesStep(p: seq<ColumnInfo>, c: ColumnInfo)
    ensures ColumnNames(p + [c]) == ColumnNames(p) + {c.column}
  {
    assert forall x :: x in p + [c] <==> x in p || x == c;
  }

  /** The mock row's keys are exactly the column names, each once. */
  lemma {:induction false} MockRowKeys(cols: seq<ColumnInfo>)
    ensures Keys(MockRow(cols)) == ColumnNames(cols)
    ensures UniqueKeys(MockRow(cols))
  {
    if cols != [] {
      var n := |cols| - 1;
      MockRowKeys(cols[..n]);
      assert cols == cols[..n] + [cols[n]];
      ColumnNamesStep(cols[..n], cols[n]);
    }
  }

  /** Each column name maps to `mockValue` of the type of the column of that name. */
  lemma {:induction false} MockRowLookup(cols: seq<ColumnInfo>, name: string)
    ensures Lookup(MockRow(cols), name) ==
      match LastNamed(cols, name)
      case None => None
      case Some(c) => Some(MockValue(c.colType))
  {
    if cols != [] {
      MockRowLookup(cols[..|cols| - 1], name);
    }
  }

  /** No two columns share a name, as within one table. */
  predicate DistinctNames(cols: seq<ColumnInfo>)
  {
    forall i, j :: 0 <= i < j < |cols| ==> cols[i].column != cols[j].column
  }

  /** With distinct names, the last column's name is new to the columns before it. */
  lemma LastNameIsNew(cols: seq<ColumnInfo>)
    requires cols != [] && DistinctNames(cols)
    ensures DistinctNames(cols[..|cols| - 1])
    ensures cols[|cols| - 1].column !in ColumnNames(cols[..|cols| - 1])
  {
    var n := |cols| - 1;
    forall d | d in cols[..n] ensures d.column != cols[n].column {
      var i :| 0 <= i < n && cols[..n][i] == d;
      assert cols[i] == d;
    }
  }

  /** Column names of one table are distinct; then the mock row lists them in column order. */
  lemma {:induction false} MockRowInColumnOrder(cols: seq<ColumnInfo>)
    requires DistinctNames(cols)
    ensures |MockRow(cols)| == |cols|
    ensures forall i :: 0 <= i < |cols| ==> MockRow(cols)[i] == Entry(cols[i].column, MockValue(cols[i].colType))
  {
    if cols != [] {
      var n := |cols| - 1;
      var prefix, c := cols[..n], cols[n];
      LastNameIsNew(cols);
      MockRowInColumnOrder(prefix);
      MockRowKeys(prefix);
      var r := MockRow(prefix);
      var e := Entry(c.column, MockValue(c.colType));
      assert MockRow(cols) == Assign(r, c.column, e.value);
      assert MockRow(cols) == r + [e];
      forall i | 0 <= i < |cols| ensures MockRow(cols)[i] == Entry(cols[i].column, MockValue(cols[i].colType)) {
        if i < n {
          assert MockRow(cols)[i] == r[i];
          assert prefix[i] == cols[i];
        }
      }
    }
  }

  /** Lines 132-141: the fetched row used unchanged, or else the mock row built column by column. */
  method BuildExample(first: Option<Row>, cols: seq<ColumnInfo>) returns (example: Row)
    ensures first.Some? ==> example == first.value
    ensures first.None? ==> example == MockRow(cols)
  {
    if first.None? {
      example := [];
      for i := 0 to |cols|
        invariant example == MockRow(cols[..i])
      {
        assert cols[..i + 1][..i] == cols[..i];
        example := Assign(example, cols[i].column, MockValue(cols[i].colType));
      }
      assert cols[..|cols|] == cols;
    } else {
      example := first.value;
    }
  }
}
