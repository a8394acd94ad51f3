/** The final ordering of the result list (app.py:68): a stable sort,
    descending by adjusted score, done in place.

    `SortDesc` is the reference definition: insertion of each record, front
    to back, in front of every later record with a score not above its own. */
module Ranking {
  import opened Scoring

  /** Non-increasing by score. */
  predicate SortedDesc(s: seq<Recommendation>) {
    forall i, j :: 0 <= i < j < |s| ==> s[i].scoreTenths >= s[j].scoreTenths
  }

  /** In a list in order, a record with a strictly higher score stands first. */
  lemma SortedOrder(s: seq<Recommendation>, p: int, q: int)
    requires SortedDesc(s)
    requires 0 <= p < |s| && 0 <= q < |s|
    requires s[p].scoreTenths > s[q].scoreTenths
    ensures p < q
  {
  }

  /** One unfolding of the sort. */
  lemma SortDescCons(s: seq<Recommendation>)
    requires s != []
    ensures SortDesc(s) == Insert(s[0], SortDesc(s[1..]))
  {
  }

  /** Puts `x` into `s` in front of the first record whose score is not above its own. */
  function Insert(x: Recommendation, s: seq<Recommendation>): (r: seq<Recommendation>)
    ensures |r| == |s| + 1
  {
    if s == [] then [x]
    else if x.scoreTenths >= s[0].scoreTenths then [x] + s
    else [s[0]] + Insert(x, s[1..])
  }

  /** Inserting adds `x` and nothing else. */
  lemma {:induction false} InsertPermutes(x: Recommendation, s: seq<Recommendation>)
    ensures multiset(Insert(x, s)) == multiset(s) + multiset{x}
    ensures forall k :: 0 <= k < |s| + 1 ==> Insert(x, s)[k] == x || Insert(x, s)[k] in s
  {
    if s != [] && x.scoreTenths < s[0].scoreTenths {
      InsertPermutes(x, s[1..]);
      assert s == [s[0]] + s[1..];
    }
  }

  /** Inserting into a list in order keeps it in order. */
  lemma {:induction false} InsertSorted(x: Recommendation, s: seq<Recommendation>)
    requires SortedDesc(s)
    ensures SortedDesc(Insert(x, s))
  {
    if s != [] && x.scoreTenths < s[0].scoreTenths {
      var t := s[1..];
      InsertSorted(x, t);
      InsertPermutes(x, t);
      var r := Insert(x, t);
      forall k | 0 <= k < |r| ensures s[0].scoreTenths >= r[k].scoreTenths {
        if r[k] != x {
          var m :| 0 <= m < |t| && t[m] == r[k];
          assert s[0].scoreTenths >= s[m + 1].scoreTenths;
        }
      }
    }
  }

  /** The stable descending sort of `s`. */
  function SortDesc(s: seq<Recommendation>): seq<Recommendation> {
    if s == [] then [] else Insert(s[0], SortDesc(s[1..]))
  }

  /** The sort returns a list in order holding exactly the records it was given. */
  lemma {:induction false} SortDescSortedPermutation(s: seq<Recommendation>)
    ensures SortedDesc(SortDesc(s))
    ensures multiset(SortDesc(s)) == multiset(s)
  {
    if s != [] {
      SortDescSortedPermutation(s[1..]);
      InsertSorted(s[0], SortDesc(s[1..]));
      InsertPermutes(s[0], SortDesc(s[1..]));
      assert s == [s[0]] + s[1..];
    }
  }

  /** The records of `s` whose score is `v`, in their order in `s`. */
  function WithScore(s: seq<Recommendation>, v: int): (r: seq<Recommendation>)
    ensures |r| <= |s|
  {
    if s == [] then []
    else if s[0].scoreTenths == v then [s[0]] + WithScore(s[1..], v)
    else WithScore(s[1..], v)
  }

  lemma {:induction false} WithScoreAppend(a: seq<Recommendation>, b: seq<Recommendation>, v: int)
    ensures WithScore(a + b, v) == WithScore(a, v) + WithScore(b, v)
  {
    if a == [] {
      assert a + b == b;
    } else {
      assert (a + b)[0] == a[0];
      assert (a + b)[1..] == a[1..] + b;
      WithScoreAppend(a[1..], b, v);
      if a[0].scoreTenths == v {
        calc {
          WithScore(a + b, v);
          [a[0]] + WithScore(a[1..] + b, v);
          [a[0]] + (WithScore(a[1..], v) + WithScore(b, v));
          ([a[0]] + WithScore(a[1..], v)) + WithScore(b, v);
          WithScore(a, v) + WithScore(b, v);
        }
      } else {
        calc {
          WithScore(a + b, v);
          WithScore(a[1..] + b, v);
          WithScore(a[1..], v) + WithScore(b, v);
          WithScore(a, v) + WithScore(b, v);
        }
      }
    }
  }

  /** Inserting `x` moves it only past records with a strictly higher score,
      so among records of any one score it stays in front. */
  lemma {:induction false} InsertKeepsTies(x: Recommendation, s: seq<Recommendation>, v: int)
    ensures WithScore(Insert(x, s), v) == WithScore([x] + s, v)
  {
    if s != [] && x.scoreTenths < s[0].scoreTenths {
      InsertKeepsTies(x, s[1..], v);
      assert WithScore(Insert(x, s), v) == WithScore([s[0]], v) + WithScore(Insert(x, s[1..]), v) by {
        WithScoreAppend([s[0]], Insert(x, s[1..]), v);
      }
      WithScoreAppend([x], s[1..], v);
      WithScoreAppend([x], s, v);
      assert s == [s[0]] + s[1..];
      WithScoreAppend([s[0]], s[1..], v);
    }
  }

  /** The sort is stable: for every score, the records with that score come
      out in the order they went in. */
  lemma {:induction false} SortDescStable(s: seq<Recommendation>, v: int)
    ensures WithScore(SortDesc(s), v) == WithScore(s, v)
  {
    if s != [] {
      SortDescStable(s[1..], v);
      InsertKeepsTies(s[0], SortDesc(s[1..]), v);
      WithScoreAppend([s[0]], SortDesc(s[1..]), v);
      WithScoreAppend([s[0]], s[1..], v);
      assert s == [s[0]] + s[1..];
    }
  }

  /** A list that is already in order is left as it is. */
  lemma {:induction false} SortDescOfSorted(s: seq<Recommendation>)
    requires SortedDesc(s)
    ensures SortDesc(s) == s
  {
    if s != [] {
      SortDescOfSorted(s[1..]);
      assert s == [s[0]] + s[1..];
    }
  }

  /** Sorting a sorted list again changes nothing. */
  lemma SortDescIdempotent(s: seq<Recommendation>)
    ensures SortDesc(SortDesc(s)) == SortDesc(s)
  {
    SortDescSortedPermutation(s);
    SortDescOfSorted(SortDesc(s));
  }

  /** `Insert` places `x` right after the leading records that score higher
      than it. */
  lemma {:induction false} InsertAfterHigher(x: Recommendation, s: seq<Recommendation>, k: int)
    requires 0 <= k <= |s|
    requires forall m :: 0 <= m < k ==> s[m].scoreTenths > x.scoreTenths
    requires k == |s| || s[k].scoreTenths <= x.scoreTenths
    ensures Insert(x, s) == s[..k] + [x] + s[k..]
  {
    if k > 0 {
      InsertAfterHigher(x, s[1..], k - 1);
      assert s[1..][..k - 1] == s[1..k];
      assert s[..k] == [s[0]] + s[1..k];
    }
  }

  /** The array contents once the record `x` from position `i - 1` has been
      swapped rightwards to position `j`, past records that all score higher
      than it, with the record after it (if any) not scoring higher: that is
      the insertion step applied to the suffix. */
  lemma ShiftedIsInsert(t: seq<Recommendation>, orig: seq<Recommendation>, i: int, j: int)
    requires 0 < i <= j + 1 <= |orig| == |t|
    requires forall m :: 0 <= m < i - 1 ==> t[m] == orig[m]
    requires forall m :: i - 1 <= m < j ==> t[m] == orig[m + 1]
    requires t[j] == orig[i - 1]
    requires forall m :: j < m < |t| ==> t[m] == orig[m]
    requires forall m :: i <= m <= j ==> orig[m].scoreTenths > orig[i - 1].scoreTenths
    requires j + 1 == |t| || orig[j + 1].scoreTenths <= orig[i - 1].scoreTenths
    ensures t == orig[..i - 1] + Insert(orig[i - 1], orig[i..])
  {
    var x, s, k := orig[i - 1], orig[i..], j - i + 1;
    InsertAfterHigher(x, s, k);
    var w := orig[..i - 1] + (s[..k] + [x] + s[k..]);
    assert |w| == |t|;
    forall m | 0 <= m < |t| ensures t[m] == w[m] {
      if m < i - 1 {
      } else if m < j {
        assert w[m] == s[..k][m - i + 1];
      } else if m > j {
        assert w[m] == s[k..][m - j - 1];
      }
    }
  }

  /** One step of the sort: the record at `i - 1` is swapped rightwards past the
      records of the sorted suffix `a[i..]` whose score is higher than its own. */
  method InsertAt(a: array<Recommendation>, i: int)
    requires 0 < i <= a.Length
    modifies a
    ensures a[..] == old(a[..i - 1]) + Insert(old(a[i - 1]), old(a[i..]))
  {
    ghost var orig := a[..];
    var n := a.Length;
    var x := a[i - 1];
    var j := i - 1;
    while j + 1 < n && a[j + 1].scoreTenths > x.scoreTenths
      invariant i - 1 <= j < n
      invariant forall m :: 0 <= m < i - 1 ==> a[m] == orig[m]
      invariant forall m :: i - 1 <= m < j ==> a[m] == orig[m + 1]
      invariant a[j] == x
      invariant forall m :: j < m < n ==> a[m] == orig[m]
      invariant forall m :: i <= m <= j ==> orig[m].scoreTenths > x.scoreTenths
    {
      a[j], a[j + 1] := a[j + 1], x;
      j := j + 1;
    }
    ShiftedIsInsert(a[..], orig, i, j);
  }

  /** `list.sort(key=score, reverse=True)` on the result list: insertion sort
      from the right end leftwards, keeping the suffix sorted. */
  method SortInPlace(a: array<Recommendation>)
    modifies a
    ensures a[..] == SortDesc(old(a[..]))
  {
    ghost var orig := a[..];
    var i := a.Length;
    while i > 0
      invariant 0 <= i <= a.Length
      invariant a[..i] == orig[..i]
      invariant a[i..] == SortDesc(orig[i..])
    {
      ghost var suffix := orig[i - 1..];
      assert suffix[0] == orig[i - 1] && suffix[1..] == orig[i..];
      SortDescCons(suffix);
      InsertAt(a, i);
      assert a[i - 1..] == SortDesc(orig[i - 1..]);
      i := i - 1;
    }
  }
}
