/**
 * `ORDER BY count DESC LIMIT n` over rows of (user id, count), as both
 * report queries use it. SQL leaves the order of equal counts open; this
 * model keeps equal counts in their input order.
 */
module Ranking {

  /** One result row: a user and the count it is ranked by. */
  datatype Entry = Entry(userId: int, count: int)

  predicate SortedDesc(s: seq<Entry>) {
    forall i, j :: 0 <= i < j < |s| ==> s[i].count >= s[j].count
  }

  /** No user appears in two rows. */
  predicate DistinctUsers(s: seq<Entry>) {
    forall i, j :: 0 <= i < j < |s| ==> s[i].userId != s[j].userId
  }

  /** Places `e` before the first row whose count is at most its own. */
  function Insert(e: Entry, s: seq<Entry>): (r: seq<Entry>)
    requires SortedDesc(s)
    ensures SortedDesc(r)
    ensures multiset(r) == multiset(s) + multiset{e}
  {
    if s == [] then
      [e]
    else
      assert s == [s[0]] + s[1..];
      FirstIsLargest(s);
      if e.count >= s[0].count then
        HeadBoundsRest(e, s, multiset(s));
        [e] + s
      else
        assert SortedDesc(s[1..]);
        var rest := Insert(e, s[1..]);
        HeadBoundsRest(s[0], rest, multiset(s[1..]) + multiset{e});
        [s[0]] + rest
  }

  /** The first row of a sorted sequence bounds every row. */
  lemma FirstIsLargest(s: seq<Entry>)
    requires SortedDesc(s) && s != []
    ensures forall x :: x in multiset(s) ==> x.count <= s[0].count
  {
    forall x | x in multiset(s) ensures x.count <= s[0].count {
      var k :| 0 <= k < |s| && s[k] == x;
    }
  }

  /** If every row of a bag has a count at most `h.count`, then `h` followed
      by any ordering of that bag sorted descending is sorted descending. */
  lemma HeadBoundsRest(h: Entry, rest: seq<Entry>, bag: multiset<Entry>)
    requires SortedDesc(rest) && multiset(rest) == bag
    requires forall x :: x in bag ==> x.count <= h.count
    ensures SortedDesc([h] + rest)
  {
    if rest != [] {
      FirstIsLargest(rest);
    }
    forall j | 0 <= j < |rest| ensures rest[j].count <= h.count {
      assert rest[j] in multiset(rest);
    }
  }

  /** Insertion sort by descending count. */
  function Sort(s: seq<Entry>): (r: seq<Entry>)
    ensures SortedDesc(r)
    ensures multiset(r) == multiset(s)
  {
    if s == [] then []
    else
      assert s == [s[0]] + s[1..];
      Insert(s[0], Sort(s[1..]))
  }

  /** Reordering or dropping rows keeps distinct users distinct. */
  lemma {:induction false} DistinctUsersSub(a: seq<Entry>, b: seq<Entry>)
    requires multiset(b) <= multiset(a)
    ensures DistinctUsers(a) ==> DistinctUsers(b)
  {
    if !DistinctUsers(a) {
      return;
    }
    forall i, j | 0 <= i < j < |b| ensures b[i].userId != b[j].userId {
      if b[i].userId == b[j].userId {
        var x, y := b[i], b[j];
        assert x in multiset(a) && y in multiset(a);
        var p :| 0 <= p < |a| && a[p] == x;
        var q :| 0 <= q < |a| && a[q] == y;
        if p == q {
          TwoPositions(b, i, j);
          OnePosition(a, p);
        }
      }
    }
  }

  /** A value found at two positions occurs at least twice. */
  lemma TwoPositions(b: seq<Entry>, i: int, j: int)
    requires 0 <= i < j < |b| && b[i] == b[j]
    ensures multiset(b)[b[i]] >= 2
  {
    assert b == b[..j] + [b[j]] + b[j + 1..];
    assert b[i] in b[..j];
  }

  /** In a sequence without repeated users a row occurs once. */
  lemma {:induction false} OnePosition(a: seq<Entry>, p: int)
    requires DistinctUsers(a) && 0 <= p < |a|
    ensures multiset(a)[a[p]] == 1
  {
    assert a == a[..p] + [a[p]] + a[p + 1..];
    assert a[p] !in a[..p] && a[p] !in a[p + 1..];
  }

  /** `ORDER BY count DESC LIMIT limit`; SQLite reads a negative limit as
      "no limit". */
  function Top(s: seq<Entry>, limit: int): (r: seq<Entry>)
    ensures |r| == if 0 <= limit < |s| then limit else |s|
    ensures SortedDesc(r)
    ensures multiset(r) <= multiset(s)
    ensures DistinctUsers(s) ==> DistinctUsers(r)
    ensures forall x, y :: x in s && x !in r && y in r ==> x.count <= y.count
  {
    var sorted := Sort(s);
    var n := if 0 <= limit < |sorted| then limit else |sorted|;
    PrefixOfSorted(sorted, n);
    SameRows(s, sorted);
    DistinctUsersSub(s, sorted[..n]);
    sorted[..n]
  }

  lemma SameRows(a: seq<Entry>, b: seq<Entry>)
    requires multiset(a) == multiset(b)
    ensures forall x :: x in a <==> x in b
  {
    forall x ensures x in a <==> x in b {
      assert x in a <==> x in multiset(a);
      assert x in b <==> x in multiset(b);
    }
  }

  /** A prefix of a sorted sequence is sorted, is part of it, and no row
      left out ranks above a row kept. */
  lemma PrefixOfSorted(sorted: seq<Entry>, n: nat)
    requires SortedDesc(sorted) && n <= |sorted|
    ensures SortedDesc(sorted[..n])
    ensures multiset(sorted[..n]) <= multiset(sorted)
    ensures forall x, y :: x in sorted && x !in sorted[..n] && y in sorted[..n] ==> x.count <= y.count
  {
    var r := sorted[..n];
    assert sorted == r + sorted[n..];
    assert multiset(sorted) == multiset(r) + multiset(sorted[n..]);
    forall x, y | x in sorted && x !in r && y in r ensures x.count <= y.count {
      var k :| 0 <= k < |sorted| && sorted[k] == x;
      var j :| 0 <= j < |r| && r[j] == y;
      assert k >= n;
    }
  }

  /** The users that have a row in `s`. */
  function UserIds(s: seq<Entry>): set<int> {
    set e | e in s :: e.userId
  }

  /** One row per id of `ids`, in that order, counted by `count`. */
  function EntriesFor(ids: seq<int>, count: int -> int): (es: seq<Entry>)
    ensures |es| == |ids|
    ensures forall i :: 0 <= i < |ids| ==> es[i] == Entry(ids[i], count(ids[i]))
  {
    seq(|ids|, i requires 0 <= i < |ids| => Entry(ids[i], count(ids[i])))
  }

  /** `r` is what `ORDER BY count DESC LIMIT limit` may return when the
      users of `pool` are counted by `count`: as many rows as the limit
      allows, heaviest first, each user once with its own count, and no
      user left out counts more than a user listed. */
  ghost predicate RankedBy(r: seq<Entry>, pool: set<int>, count: int -> int, limit: int) {
    && |r| == (if 0 <= limit < |pool| then limit else |pool|)
    && SortedDesc(r)
    && DistinctUsers(r)
    && (forall y :: y in r ==> y.userId in pool && y.count == count(y.userId))
    && (forall u :: u in pool && u !in UserIds(r) ==> forall y :: y in r ==> count(u) <= y.count)
  }

  /** A non-empty set has an element. */
  lemma NonEmptyHasElement(s: set<int>)
    requires s != {}
    ensures exists y :: y in s
  {
    assert (exists y :: y in s) || s == {};
  }

  predicate IsLeast(m: int, s: set<int>) {
    forall x :: x in s ==> m <= x
  }

  /** The smallest element of a non-empty set of ids. */
  function MinOf(s: set<int>): (m: int)
    requires s != {}
    ensures m in s && IsLeast(m, s)
  {
    HasMin(s);
    var m :| m in s && IsLeast(m, s);
    m
  }

  lemma {:induction false} HasMin(s: set<int>)
    requires s != {}
    ensures exists m :: m in s && IsLeast(m, s)
    decreases |s|
  {
    NonEmptyHasElement(s);
    var y :| y in s;
    if s == {y} {
      assert IsLeast(y, s);
    } else {
      var rest := s - {y};
      assert rest != {};
      HasMin(rest);
      var m :| m in rest && IsLeast(m, rest);
      var least := if y < m then y else m;
      forall x | x in s ensures least <= x {
        if x != y {
          assert x in rest;
        }
      }
      assert least in s && IsLeast(least, s);
    }
  }

  /** The ids of a set in ascending order (the order of an
      `INTEGER PRIMARY KEY` table scan). */
  function SortedIds(s: set<int>): (r: seq<int>)
    ensures |r| == |s|
    ensures forall x :: x in r <==> x in s
    ensures forall i, j :: 0 <= i < j < |r| ==> r[i] < r[j]
    decreases |s|
  {
    if s == {} then []
    else
      var m := MinOf(s);
      var rest := SortedIds(s - {m});
      assert forall x :: x in rest ==> x in s && x != m;
      [m] + rest
  }

  /** Each row of `EntriesFor` is an id of the list with its count. */
  lemma EntriesForRows(ids: seq<int>, count: int -> int)
    ensures forall y :: y in EntriesFor(ids, count) ==> y.userId in ids && y.count == count(y.userId)
  {
    var es := EntriesFor(ids, count);
    forall y | y in es ensures y.userId in ids && y.count == count(y.userId) {
      var k :| 0 <= k < |es| && es[k] == y;
    }
  }

  lemma EntriesForDistinct(ids: seq<int>, count: int -> int)
    requires forall i, j :: 0 <= i < j < |ids| ==> ids[i] < ids[j]
    ensures DistinctUsers(EntriesFor(ids, count))
  {
    var es := EntriesFor(ids, count);
    forall i, j | 0 <= i < j < |es| ensures es[i].userId != es[j].userId {
      assert es[i].userId == ids[i] && es[j].userId == ids[j];
    }
  }

  /** Rows of a sub-bag are rows of the whole. */
  lemma SubRows(r: seq<Entry>, s: seq<Entry>)
    requires multiset(r) <= multiset(s)
    ensures forall y :: y in r ==> y in s
  {
    forall y | y in r ensures y in s {
      assert y in multiset(r);
    }
  }

  /** Ranking the users of a pool by a count gives a ranked answer. */
  lemma TopRanked(pool: set<int>, count: int -> int, limit: int)
    ensures RankedBy(Top(EntriesFor(SortedIds(pool), count), limit), pool, count, limit)
  {
    var ids := SortedIds(pool);
    var es := EntriesFor(ids, count);
    var r := Top(es, limit);
    EntriesForDistinct(ids, count);
    EntriesForRows(ids, count);
    SubRows(r, es);
    forall u | u in pool && u !in UserIds(r) ensures forall y :: y in r ==> count(u) <= y.count {
      var k :| 0 <= k < |ids| && ids[k] == u;
      assert es[k] in es;
    }
  }
}
