/** The order `sorted` puts the film keys in: Python compares `str` values
    lexicographically by code point, a proper prefix coming first. */
module StringOrder {

  /** `a < b` on Python strings. */
  predicate Less(a: string, b: string)
    decreases |a|
  {
    if |a| == 0 then |b| > 0
    else if |b| == 0 then false
    else if a[0] != b[0] then a[0] < b[0]
    else Less(a[1..], b[1..])
  }

  /** The usual reading of lexicographic order, as an independent
      definition: `a` is a proper prefix of `b`, or the two agree up to a
      first position where `a` has the smaller character. */
  predicate BelowAtFirstDifference(a: string, b: string) {
    || (|a| < |b| && a == b[..|a|])
    || exists k :: 0 <= k < |a| && k < |b| && a[..k] == b[..k] && a[k] < b[k]
  }

  /** Dropping a common first character keeps the first difference. */
  lemma DropCommonFirst(a: string, b: string)
    requires |a| > 0 && |b| > 0 && a[0] == b[0]
    requires BelowAtFirstDifference(a, b)
    ensures BelowAtFirstDifference(a[1..], b[1..])
  {
    if |a| < |b| && a == b[..|a|] {
      assert a[1..] == b[1..][..|a| - 1];
    } else {
      var k :| 0 <= k < |a| && k < |b| && a[..k] == b[..k] && a[k] < b[k];
      assert k != 0;
      assert a[1..][..k - 1] == a[..k][1..] && b[1..][..k - 1] == b[..k][1..];
      assert a[1..][k - 1] < b[1..][k - 1];
    }
  }

  /** Putting back a common first character keeps the first difference. */
  lemma AddCommonFirst(a: string, b: string)
    requires |a| > 0 && |b| > 0 && a[0] == b[0]
    requires BelowAtFirstDifference(a[1..], b[1..])
    ensures BelowAtFirstDifference(a, b)
  {
    assert a == [a[0]] + a[1..];
    if |a| < |b| && a[1..] == b[1..][..|a| - 1] {
      assert b[..|a|] == [b[0]] + b[1..][..|a| - 1];
    } else {
      var k :| 0 <= k < |a| - 1 && k < |b| - 1 && a[1..][..k] == b[1..][..k] && a[1..][k] < b[1..][k];
      assert a[..k + 1] == [a[0]] + a[1..][..k] && b[..k + 1] == [b[0]] + b[1..][..k];
      assert a[k + 1] < b[k + 1];
    }
  }

  /** `Less` is the usual lexicographic order. */
  lemma {:induction false} LessMeansFirstDifference(a: string, b: string)
    ensures Less(a, b) <==> BelowAtFirstDifference(a, b)
    decreases |a|
  {
    if |a| > 0 && |b| > 0 && a[0] == b[0] {
      LessMeansFirstDifference(a[1..], b[1..]);
      if Less(a, b) {
        AddCommonFirst(a, b);
      }
      if BelowAtFirstDifference(a, b) {
        DropCommonFirst(a, b);
      }
    } else if |a| > 0 && |b| > 0 {
      if BelowAtFirstDifference(a, b) {
        var k :| 0 <= k < |a| && k < |b| && a[..k] == b[..k] && a[k] < b[k];
        assert k == 0;
      }
      if Less(a, b) {
        assert a[..0] == b[..0];
      }
    }
  }

  /** No string is below itself. */
  lemma {:induction false} LessIrreflexive(a: string)
    ensures !Less(a, a)
    decreases |a|
  {
    if |a| > 0 {
      LessIrreflexive(a[1..]);
    }
  }

  /** Two strings are never each below the other. */
  lemma {:induction false} LessAsymmetric(a: string, b: string)
    requires Less(a, b)
    ensures !Less(b, a)
    decreases |a|
  {
    if |a| > 0 && a[0] == b[0] {
      LessAsymmetric(a[1..], b[1..]);
    }
  }

  /** Below-below is below. */
  lemma {:induction false} LessTransitive(a: string, b: string, c: string)
    requires Less(a, b) && Less(b, c)
    ensures Less(a, c)
    decreases |a|
  {
    if |a| > 0 && a[0] == b[0] && b[0] == c[0] {
      LessTransitive(a[1..], b[1..], c[1..]);
    }
  }

  /** Distinct strings are always comparable. */
  lemma {:induction false} LessTotal(a: string, b: string)
    requires a != b
    ensures Less(a, b) || Less(b, a)
    decreases |a|
  {
    if |a| > 0 && |b| > 0 && a[0] == b[0] {
      assert a == [a[0]] + a[1..] && b == [b[0]] + b[1..];
      LessTotal(a[1..], b[1..]);
    }
  }

  /** Strictly ascending: every element is below every later one, so none
      repeats. */
  predicate StrictlySorted(s: seq<string>) {
    forall i, j :: 0 <= i < j < |s| ==> Less(s[i], s[j])
  }

  /** The first element of a non-empty sequence occurs in it. Stated apart so
      that the empty-listing case below can reach its contradiction without a
      checked step after it. */
  lemma FirstIsMember(s: seq<string>)
    ensures |s| > 0 ==> s[0] in s
  {
  }

  /** A set has only one strictly ascending listing: the listing of a set is
      determined by the set. */
  lemma {:induction false} SortedListingUnique(a: seq<string>, b: seq<string>)
    requires StrictlySorted(a) && StrictlySorted(b)
    requires forall x :: x in a <==> x in b
    ensures a == b
    decreases |a|
  {
    if |a| == 0 {
      if |b| > 0 {
        FirstIsMember(b);
        assert false;
      }
    } else {
      assert a[0] in a;
      assert |b| > 0;
      assert b[0] in b;
      if a[0] != b[0] {
        var j :| 0 <= j < |b| && b[j] == a[0];
        var i :| 0 <= i < |a| && a[i] == b[0];
        assert Less(b[0], a[0]);
        assert Less(a[0], b[0]);
        LessAsymmetric(a[0], b[0]);
        assert false;
      }
      forall x | x in a[1..] ensures x != a[0] {
        LessIrreflexive(a[0]);
      }
      forall x | x in b[1..] ensures x != b[0] {
        LessIrreflexive(b[0]);
      }
      assert forall x :: x in a <==> x == a[0] || x in a[1..] by {
        assert a == [a[0]] + a[1..];
      }
      assert forall x :: x in b <==> x == b[0] || x in b[1..] by {
        assert b == [b[0]] + b[1..];
      }
      SortedListingUnique(a[1..], b[1..]);
      assert a == [a[0]] + a[1..] && b == [b[0]] + b[1..];
    }
  }
}
