/**
 * The two PHP string primitives the command relies on: `str_contains`
 * (case-sensitive substring test, used by `mockValue`) and `strcmp`
 * (byte-wise three-way comparison, used by the table comparator).
 *
 * Strings are sequences of characters compared by code point; for names
 * stored as UTF-8 this is the same order as PHP's byte-wise comparison.
 */
module PhpStrings {

  /** `str_contains(haystack, needle)`: the needle occurs in the haystack; the empty needle occurs everywhere. */
  predicate Contains(haystack: string, needle: string)
    decreases |haystack|
  {
    if |needle| > |haystack| then false
    else if haystack[..|needle|] == needle then true
    else Contains(haystack[1..], needle)
  }

  /** Independent reading of a substring occurrence: some window of the haystack equals the needle. */
  ghost predicate OccursAt(haystack: string, needle: string, i: int)
  {
    0 <= i && i + |needle| <= |haystack| && haystack[i..i + |needle|] == needle
  }

  lemma {:induction false} ContainsIffOccurs(haystack: string, needle: string)
    ensures Contains(haystack, needle) <==> exists i :: OccursAt(haystack, needle, i)
    decreases |haystack|
  {
    if |needle| > |haystack| {
    } else if haystack[..|needle|] == needle {
      assert OccursAt(haystack, needle, 0);
    } else {
      ContainsIffOccurs(haystack[1..], needle);
      if Contains(haystack[1..], needle) {
        var i :| OccursAt(haystack[1..], needle, i);
        assert haystack[1..][i..i + |needle|] == haystack[i + 1..i + 1 + |needle|];
        assert OccursAt(haystack, needle, i + 1);
      } else {
        forall i | OccursAt(haystack, needle, i)
          ensures false
        {
          assert i != 0;
          assert haystack[1..][i - 1..i - 1 + |needle|] == haystack[i..i + |needle|];
          assert OccursAt(haystack[1..], needle, i - 1);
        }
      }
    }
  }

  /** A needle holding a character the haystack lacks cannot occur in it. */
  lemma MissingCharNotContained(haystack: string, needle: string, k: int)
    requires 0 <= k < |needle| && needle[k] !in haystack
    ensures !Contains(haystack, needle)
  {
    ContainsIffOccurs(haystack, needle);
    forall i | 0 <= i && i + |needle| <= |haystack|
      ensures !OccursAt(haystack, needle, i)
    {
      assert haystack[i + k] in haystack;
      assert haystack[i..i + |needle|][k] == haystack[i + k];
    }
  }

  /** A window of the haystack equal to the needle makes `str_contains` true. */
  lemma WindowContained(haystack: string, needle: string, i: int)
    requires OccursAt(haystack, needle, i)
    ensures Contains(haystack, needle)
  {
    ContainsIffOccurs(haystack, needle);
  }

  /**
   * `strcmp(a, b)`: compares byte by byte up to the shorter length, then a
   * proper prefix sorts first. The sign is what callers use; the result is
   * normalised to -1, 0 or 1 as PHP 8.2 and later return it.
   */
  function StrCmp(a: string, b: string): (r: int)
    ensures -1 <= r <= 1
    ensures r == 0 <==> a == b
  {
    if a == [] && b == [] then 0
    else if a == [] then -1
    else if b == [] then 1
    else if a[0] < b[0] then -1
    else if a[0] > b[0] then 1
    else
      var r := StrCmp(a[1..], b[1..]);
      assert a == [a[0]] + a[1..] && b == [b[0]] + b[1..];
      r
  }

  /** Lexicographic "less than" stated without recursion: a shared prefix, then a proper prefix or a smaller character. */
  ghost predicate LexLess(a: string, b: string)
  {
    exists k :: 0 <= k <= |a| && k <= |b| && a[..k] == b[..k] &&
      ((k == |a| && k < |b|) || (k < |a| && k < |b| && a[k] < b[k]))
  }

  lemma {:induction false} StrCmpNegativeIffLexLess(a: string, b: string)
    ensures StrCmp(a, b) < 0 <==> LexLess(a, b)
    decreases |a|
  {
    if a == [] && b == [] {
    } else if a == [] {
      assert a[..0] == b[..0];
    } else if b == [] {
    } else if a[0] < b[0] {
      assert a[..0] == b[..0];
    } else if a[0] > b[0] {
      if LexLess(a, b) {
        var k :| 0 <= k <= |a| && k <= |b| && a[..k] == b[..k] &&
          ((k == |a| && k < |b|) || (k < |a| && k < |b| && a[k] < b[k]));
        if k > 0 {
          assert a[..k][0] == a[0] && b[..k][0] == b[0];
        }
      }
    } else {
      StrCmpNegativeIffLexLess(a[1..], b[1..]);
      LexLessSharedHead(a, b);
    }
  }

  /** Comparing two strings with the same first character is comparing the rest. */
  lemma LexLessSharedHead(a: string, b: string)
    requires a != [] && b != [] && a[0] == b[0]
    ensures LexLess(a, b) <==> LexLess(a[1..], b[1..])
  {
    if LexLess(a, b) {
      DropHead(a, b);
    }
    if LexLess(a[1..], b[1..]) {
      AddHead(a, b);
    }
  }

  lemma DropHead(a: string, b: string)
    requires a != [] && b != [] && a[0] == b[0] && LexLess(a, b)
    ensures LexLess(a[1..], b[1..])
  {
    var k :| 0 <= k <= |a| && k <= |b| && a[..k] == b[..k] &&
      ((k == |a| && k < |b|) || (k < |a| && k < |b| && a[k] < b[k]));
    assert k > 0;
    assert a[1..][..k - 1] == a[..k][1..] && b[1..][..k - 1] == b[..k][1..];
    assert (k - 1 == |a[1..]| && k - 1 < |b[1..]|) || (k - 1 < |a[1..]| && k - 1 < |b[1..]| && a[1..][k - 1] < b[1..][k - 1]);
  }

  lemma AddHead(a: string, b: string)
    requires a != [] && b != [] && a[0] == b[0] && LexLess(a[1..], b[1..])
    ensures LexLess(a, b)
  {
    var k :| 0 <= k <= |a[1..]| && k <= |b[1..]| && a[1..][..k] == b[1..][..k] &&
      ((k == |a[1..]| && k < |b[1..]|) || (k < |a[1..]| && k < |b[1..]| && a[1..][k] < b[1..][k]));
    assert a[..k + 1] == [a[0]] + a[1..][..k] && b[..k + 1] == [b[0]] + b[1..][..k];
    assert (k + 1 == |a| && k + 1 < |b|) || (k + 1 < |a| && k + 1 < |b| && a[k + 1] < b[k + 1]);
  }

  /** Swapping the operands of `strcmp` negates its result. */
  lemma {:induction false} StrCmpAntisymmetric(a: string, b: string)
    ensures StrCmp(a, b) == -StrCmp(b, a)
    decreases |a|
  {
    if a != [] && b != [] && a[0] == b[0] {
      StrCmpAntisymmetric(a[1..], b[1..]);
    }
  }

  /** `strcmp(a, b) <= 0` is transitive. */
  lemma {:induction false} StrCmpTransitive(a: string, b: string, c: string)
    requires StrCmp(a, b) <= 0 && StrCmp(b, c) <= 0
    ensures StrCmp(a, c) <= 0
    decreases |a|
  {
    if a != [] && b != [] && c != [] && a[0] == b[0] && b[0] == c[0] {
      StrCmpTransitive(a[1..], b[1..], c[1..]);
    }
  }
}
