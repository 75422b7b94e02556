/**
 * The order of the table sections (GenerateDatabaseDocs.php, lines 70-74):
 * `uksort` with a comparator that puts Laravel's own tables after the
 * application's tables and orders each of the two groups by `strcmp`.
 *
 * CompareTables is the comparator. SortTableNames stands for `uksort`: it
 * sorts the keys in place. Order is a functional sort that serves as the
 * specification; SortedUnique shows that every sort by this comparator
 * gives the same sequence, so it does not matter which algorithm PHP uses.
 */
module TableOrder {
  import opened Schema
  import opened PhpStrings
  import opened Grouping

  /** PHP's `<=>` on booleans: `false` sorts before `true`. */
  function SpaceshipBool(x: bool, y: bool): int
  {
    if x == y then 0 else if !x then -1 else 1
  }

  /**
   * The comparator `$aIsLaravel <=> $bIsLaravel ?: strcmp($a, $b)`; `?:`
   * yields its left operand when that is non-zero.
   */
  function CompareTables(a: string, b: string): (r: int)
    ensures r == 0 <==> a == b
  {
    var byDefault := SpaceshipBool(IsLaravelTable(a), IsLaravelTable(b));
    if byDefault != 0 then byDefault else StrCmp(a, b)
  }

  /**
   * The two-key order the comparator stands for, stated without `strcmp`:
   * an application table before a Laravel table, and within one group
   * lexicographic order.
   */
  ghost predicate TwoKeyLess(a: string, b: string)
  {
    (!IsLaravelTable(a) && IsLaravelTable(b)) ||
    (IsLaravelTable(a) == IsLaravelTable(b) && LexLess(a, b))
  }

  lemma CompareMatchesTwoKeyOrder(a: string, b: string)
    ensures CompareTables(a, b) < 0 <==> TwoKeyLess(a, b)
  {
    StrCmpNegativeIffLexLess(a, b);
  }

  /** Swapping the arguments negates the comparator. */
  lemma CompareAntisymmetric(a: string, b: string)
    ensures CompareTables(a, b) == -CompareTables(b, a)
  {
    StrCmpAntisymmetric(a, b);
  }

  /** "Sorts no later than" is transitive. */
  lemma CompareTransitive(a: string, b: string, c: string)
    requires CompareTables(a, b) <= 0 && CompareTables(b, c) <= 0
    ensures CompareTables(a, c) <= 0
  {
    if IsLaravelTable(a) == IsLaravelTable(b) == IsLaravelTable(c) {
      StrCmpTransitive(a, b, c);
    }
  }

  /** Neighbours are in comparator order. */
  predicate Sorted(s: seq<string>)
  {
    forall k :: 0 < k < |s| ==> CompareTables(s[k - 1], s[k]) <= 0
  }

  /** In a sorted sequence every earlier name sorts no later than every later one. */
  lemma {:induction false} SortedPair(s: seq<string>, i: int, j: int)
    requires Sorted(s) && 0 <= i <= j < |s|
    ensures CompareTables(s[i], s[j]) <= 0
    decreases j - i
  {
    if i < j {
      SortedPair(s, i, j - 1);
      CompareTransitive(s[i], s[j - 1], s[j]);
    }
  }

  /** Inserts `x` before the first name that sorts after it. */
  function Insert(x: string, s: seq<string>): (r: seq<string>)
    ensures multiset(r) == multiset(s) + multiset{x}
    ensures |r| > 0 && (r[0] == x || (s != [] && r[0] == s[0]))
  {
    if s == [] then [x]
    else if CompareTables(x, s[0]) <= 0 then [x] + s
    else
      var rest := Insert(x, s[1..]);
      assert s == [s[0]] + s[1..];
      assert multiset([s[0]] + rest) == multiset{s[0]} + multiset(rest);
      [s[0]] + rest
  }

  /** Inserting into a sorted sequence keeps it sorted. */
  lemma {:induction false} InsertKeepsSorted(x: string, s: seq<string>)
    requires Sorted(s)
    ensures Sorted(Insert(x, s))
  {
    if s != [] && CompareTables(x, s[0]) > 0 {
      CompareAntisymmetric(x, s[0]);
      var tail := s[1..];
      assert Sorted(tail) && (tail != [] ==> CompareTables(s[0], tail[0]) <= 0);
      InsertKeepsSorted(x, tail);
      var rest := Insert(x, tail);
      assert CompareTables(s[0], rest[0]) <= 0;
      var r := [s[0]] + rest;
      assert r == Insert(x, s);
      forall k | 0 < k < |r| ensures CompareTables(r[k - 1], r[k]) <= 0 {
        if k > 1 {
          assert r[k - 1] == rest[k - 2] && r[k] == rest[k - 1];
        }
      }
    }
  }

  /** The specification of the sorted key order: insertion sort by the comparator. */
  function Order(s: seq<string>): (r: seq<string>)
    ensures multiset(r) == multiset(s)
    ensures Sorted(r)
  {
    if s == [] then []
    else
      assert s == [s[0]] + s[1..];
      InsertKeepsSorted(s[0], Order(s[1..]));
      Insert(s[0], Order(s[1..]))
  }

  /** A sequence sorted by the comparator is determined by its elements. */
  lemma {:induction false} SortedUnique(s: seq<string>, t: seq<string>)
    requires Sorted(s) && Sorted(t) && multiset(s) == multiset(t)
    ensures s == t
  {
    if s != [] {
      SameFirst(s, t);
      SortedTail(s);
      SortedTail(t);
      assert multiset(s[1..]) == multiset(t[1..]) by {
        assert s == [s[0]] + s[1..] && t == [t[0]] + t[1..];
        assert multiset(s[1..]) == multiset(s) - multiset{s[0]};
        assert multiset(t[1..]) == multiset(t) - multiset{t[0]};
      }
      SortedUnique(s[1..], t[1..]);
      assert s == [s[0]] + s[1..] && t == [t[0]] + t[1..];
    }
  }

  /** Two sorted sequences with the same elements start with the same name. */
  lemma SameFirst(s: seq<string>, t: seq<string>)
    requires Sorted(s) && Sorted(t) && multiset(s) == multiset(t) && s != []
    ensures t != [] && s[0] == t[0]
  {
    assert s[0] in multiset(t);
    assert t[0] in multiset(s);
    var i :| 0 <= i < |s| && s[i] == t[0];
    var j :| 0 <= j < |t| && t[j] == s[0];
    SortedPair(s, 0, i);
    SortedPair(t, 0, j);
    CompareAntisymmetric(s[0], t[0]);
  }

  lemma SortedTail(s: seq<string>)
    requires Sorted(s) && s != []
    ensures Sorted(s[1..])
  {
    forall k | 0 < k < |s| - 1 ensures CompareTables(s[1..][k - 1], s[1..][k]) <= 0 {
      assert s[1..][k - 1] == s[k] && s[1..][k] == s[k + 1];
    }
  }

  /** Swaps two entries of the key array. */
  method Swap(a: array<string>, i: int, j: int)
    requires 0 <= i < a.Length && 0 <= j < a.Length
    modifies a
    ensures a[..] == old(a[..])[i := old(a[j])][j := old(a[i])]
    ensures multiset(a[..]) == multiset(old(a[..]))
  {
    a[i], a[j] := a[j], a[i];
  }

  /**
   * The state of one insertion pass: the first `i + 1` keys form two sorted
   * runs split at `j`, the key being inserted sits at `j`, and the keys
   * around it are already in order with each other.
   */
  ghost predicate InsertionState(s: seq<string>, i: int, j: int)
  {
    0 <= j <= i < |s| && Sorted(s[..j]) && Sorted(s[j..i + 1]) &&
    (0 < j < i ==> CompareTables(s[j - 1], s[j + 1]) <= 0)
  }

  lemma StartPass(s: seq<string>, i: int)
    requires 0 <= i < |s| && Sorted(s[..i])
    ensures InsertionState(s, i, i)
  {
  }

  /** Swapping the inserted key one place down keeps the pass state. */
  lemma SwapKeepsState(s: seq<string>, i: int, j: int)
    requires InsertionState(s, i, j) && j > 0 && CompareTables(s[j - 1], s[j]) > 0
    ensures InsertionState(s[j - 1 := s[j]][j := s[j - 1]], i, j - 1)
  {
    var t := s[j - 1 := s[j]][j := s[j - 1]];
    CompareAntisymmetric(s[j - 1], s[j]);
    assert t[..j - 1] == s[..j - 1];
    assert Sorted(t[..j - 1]) by {
      forall k | 0 < k < j - 1 ensures CompareTables(t[k - 1], t[k]) <= 0 {
        assert s[..j][k - 1] == t[k - 1] && s[..j][k] == t[k];
      }
    }
    assert Sorted(t[j - 1..i + 1]) by {
      forall k | j - 1 < k <= i ensures CompareTables(t[k - 1], t[k]) <= 0 {
        if k > j + 1 {
          assert s[j..i + 1][k - 1 - j] == t[k - 1] && s[j..i + 1][k - j] == t[k];
        }
      }
    }
    if 0 < j - 1 {
      assert s[..j][j - 2] == s[j - 2] && s[..j][j - 1] == s[j - 1];
    }
  }

  /** When the inserted key has reached its place, the first `i + 1` keys are sorted. */
  lemma EndPass(s: seq<string>, i: int, j: int)
    requires InsertionState(s, i, j) && (j == 0 || CompareTables(s[j - 1], s[j]) <= 0)
    ensures Sorted(s[..i + 1])
  {
    var done := s[..i + 1];
    assert done[..j] == s[..j] && done[j..] == s[j..i + 1];
    SortedJoin(done, j);
  }

  /** Two sorted pieces whose meeting neighbours are in order make a sorted whole. */
  lemma SortedJoin(s: seq<string>, j: int)
    requires 0 <= j <= |s|
    requires Sorted(s[..j]) && Sorted(s[j..])
    requires 0 < j < |s| ==> CompareTables(s[j - 1], s[j]) <= 0
    ensures Sorted(s)
  {
    forall k | 0 < k < |s| ensures CompareTables(s[k - 1], s[k]) <= 0 {
      if k < j {
        assert s[..j][k - 1] == s[k - 1] && s[..j][k] == s[k];
      } else if k > j {
        assert s[j..][k - 1 - j] == s[k - 1] && s[j..][k - j] == s[k];
      }
    }
  }

  /**
   * `uksort` on the keys of `$tables`: sorts the array in place by the
   * comparator. PHP's own sort algorithm is not modelled; SortedUnique
   * shows the result is the same for every correct sort.
   */
  method SortTableNames(a: array<string>)
    modifies a
    ensures Sorted(a[..])
    ensures multiset(a[..]) == multiset(old(a[..]))
  {
    for i := 0 to a.Length
      invariant Sorted(a[..i])
      invariant multiset(a[..]) == multiset(old(a[..]))
    {
      var j := i;
      assert a[..][..i] == a[..i];
      StartPass(a[..], i);
      while j > 0 && CompareTables(a[j - 1], a[j]) > 0
        invariant InsertionState(a[..], i, j)
        invariant multiset(a[..]) == multiset(old(a[..]))
      {
        SwapKeepsState(a[..], i, j);
        Swap(a, j - 1, j);
        j := j - 1;
      }
      EndPass(a[..], i, j);
      assert a[..][..i + 1] == a[..i + 1];
    }
    assert a[..a.Length] == a[..];
  }

  /** Laravel's own tables come after all application tables. */
  lemma DefaultTablesLast(s: seq<string>)
    requires Sorted(s)
    ensures forall i, j :: 0 <= i < j < |s| && IsLaravelTable(s[i]) ==> IsLaravelTable(s[j])
  {
    forall i, j | 0 <= i < j < |s| && IsLaravelTable(s[i])
      ensures IsLaravelTable(s[j])
    {
      SortedPair(s, i, j);
    }
  }

  /** Within each of the two groups, distinct names are in ascending `strcmp` order. */
  lemma AscendingWithinGroup(s: seq<string>)
    requires Sorted(s) && Distinct(s)
    ensures forall i, j :: 0 <= i < j < |s| && IsLaravelTable(s[i]) == IsLaravelTable(s[j]) ==> StrCmp(s[i], s[j]) < 0
  {
    forall i, j | 0 <= i < j < |s| && IsLaravelTable(s[i]) == IsLaravelTable(s[j])
      ensures StrCmp(s[i], s[j]) < 0
    {
      SortedPair(s, i, j);
    }
  }

  /** A sequence without repeats is one where no element is counted twice. */
  lemma {:induction false} DistinctIffSingleCounts(s: seq<string>)
    ensures Distinct(s) <==> forall x :: multiset(s)[x] <= 1
  {
    if s != [] {
      var r := s[1..];
      assert s == [s[0]] + r;
      DistinctIffSingleCounts(r);
      if Distinct(s) {
        assert Distinct(r);
        assert s[0] !in r by {
          forall k | 0 <= k < |r| ensures r[k] != s[0] {
            assert r[k] == s[k + 1];
          }
        }
      }
      if forall x :: multiset(s)[x] <= 1 {
        assert forall x :: multiset(r)[x] <= multiset(s)[x];
        assert multiset(r)[s[0]] == 0;
        forall i, j | 0 <= i < j < |s| ensures s[i] != s[j] {
          if i == 0 {
            assert s[j] == r[j - 1];
          } else {
            assert s[i] == r[i - 1] && s[j] == r[j - 1];
          }
        }
      }
    }
  }

  /** The section order: each table exactly once, application tables first, each group ascending. */
  lemma SectionOrder(cols: seq<ColumnInfo>)
    ensures multiset(Order(TableNames(cols))) == multiset(TableNames(cols))
    ensures Distinct(Order(TableNames(cols)))
    ensures forall i, j :: 0 <= i < j < |Order(TableNames(cols))| && IsLaravelTable(Order(TableNames(cols))[i])
              ==> IsLaravelTable(Order(TableNames(cols))[j])
    ensures forall i, j :: 0 <= i < j < |Order(TableNames(cols))| &&
              IsLaravelTable(Order(TableNames(cols))[i]) == IsLaravelTable(Order(TableNames(cols))[j])
              ==> StrCmp(Order(TableNames(cols))[i], Order(TableNames(cols))[j]) < 0
  {
    var names := TableNames(cols);
    var s := Order(names);
    TableNamesDistinct(cols);
    DistinctIffSingleCounts(names);
    DistinctIffSingleCounts(s);
    DefaultTablesLast(s);
    AscendingWithinGroup(s);
  }

  /** An application table named `orders` is listed before Laravel's `jobs` table. */
  lemma OrdersBeforeJobs(s: seq<string>, i: int, j: int)
    requires Sorted(s) && 0 <= i < |s| && 0 <= j < |s|
    requires s[i] == "orders" && s[j] == "jobs"
    ensures i < j
  {
    assert IsLaravelTable("jobs") by {
      InListIffMember("jobs", LaravelTables);
      assert LaravelTables[4] == "jobs";
    }
    assert !IsLaravelTable("orders") by {
      InListIffMember("orders", LaravelTables);
    }
    if j < i {
      DefaultTablesLast(s);
    }
  }
}
