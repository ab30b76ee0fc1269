/**
 * Ranking of the kept entries: a stable sort, descending by skill points,
 * as Python's `list.sort(key=..., reverse=True)` performs it. Entries with
 * equal points keep the order in which they were generated.
 *
 * `StableSort` is the reference definition (insertion of each element, in
 * input order, behind every element with at least its points);
 * `SortByPoints` is the in-place insertion sort on an array proved to
 * compute it.
 */
module Ranking {
  import opened Units

  /** Non-increasing by points. */
  ghost predicate SortedDesc(s: seq<Entry>) {
    forall i, j :: 0 <= i < j < |s| ==> s[i].points >= s[j].points
  }

  /** The subsequence of entries with exactly `v` points, in their order in `s`. */
  function WithPoints(s: seq<Entry>, v: int): seq<Entry> {
    if s == [] then []
    else WithPoints(s[..|s| - 1], v) + (if s[|s| - 1].points == v then [s[|s| - 1]] else [])
  }

  /** `x` placed behind the last element of `t`, scanning from the back, whose points are at least its own. */
  function Insert(t: seq<Entry>, x: Entry): seq<Entry> {
    if t == [] then [x]
    else if t[|t| - 1].points >= x.points then t + [x]
    else Insert(t[..|t| - 1], x) + [t[|t| - 1]]
  }

  /** The stable descending sort by points. */
  function StableSort(s: seq<Entry>): seq<Entry> {
    if s == [] then [] else Insert(StableSort(s[..|s| - 1]), s[|s| - 1])
  }

  lemma {:induction false} WithPointsAppend(a: seq<Entry>, b: seq<Entry>, v: int)
    ensures WithPoints(a + b, v) == WithPoints(a, v) + WithPoints(b, v)
  {
    if b == [] {
      assert a + b == a;
    } else {
      assert (a + b)[..|a + b| - 1] == a + b[..|b| - 1];
      WithPointsAppend(a, b[..|b| - 1], v);
    }
  }

  /** Inserting adds exactly `x`. */
  lemma {:induction false} InsertPermutes(t: seq<Entry>, x: Entry)
    ensures multiset(Insert(t, x)) == multiset(t) + multiset{x}
  {
    if t != [] && t[|t| - 1].points < x.points {
      assert t == t[..|t| - 1] + [t[|t| - 1]];
      InsertPermutes(t[..|t| - 1], x);
    }
  }

  /** Inserting into a sorted sequence keeps it sorted. */
  lemma {:induction false} InsertSorted(t: seq<Entry>, x: Entry)
    requires SortedDesc(t)
    ensures SortedDesc(Insert(t, x))
  {
    if t != [] && t[|t| - 1].points < x.points {
      var init, last := t[..|t| - 1], t[|t| - 1];
      InsertSorted(init, x);
      InsertPermutes(init, x);
      var r := Insert(init, x);
      forall k | 0 <= k < |r| ensures r[k].points >= last.points {
        assert r[k] in multiset(init) + multiset{x};
        if r[k] in multiset(init) {
          var m :| 0 <= m < |init| && init[m] == r[k];
          assert t[m] == init[m];
        }
      }
    }
  }

  lemma WithPointsOne(x: Entry, v: int)
    ensures WithPoints([x], v) == if x.points == v then [x] else []
  {
    assert [x][..0] == [];
  }

  /** Inserting puts `x` behind every entry of `t` with the same points. */
  lemma {:induction false} InsertStable(t: seq<Entry>, x: Entry, v: int)
    ensures WithPoints(Insert(t, x), v) == WithPoints(t, v) + WithPoints([x], v)
  {
    if t == [] {
      WithPointsOne(x, v);
    } else if t[|t| - 1].points >= x.points {
      WithPointsAppend(t, [x], v);
    } else {
      var init, last := t[..|t| - 1], t[|t| - 1];
      var r := Insert(init, x);
      assert t == init + [last];
      assert Insert(t, x) == r + [last];
      InsertStable(init, x, v);
      WithPointsAppend(r, [last], v);
      WithPointsAppend(init, [last], v);
      WithPointsOne(x, v);
      WithPointsOne(last, v);
      if x.points == v {
        assert WithPoints([last], v) == [];
        assert WithPoints(Insert(t, x), v) == WithPoints(init, v) + [x];
        assert WithPoints(t, v) == WithPoints(init, v) + [];
      } else {
        assert WithPoints([x], v) == [];
        assert WithPoints(Insert(t, x), v) == WithPoints(init, v) + [] + WithPoints([last], v);
      }
    }
  }

  /**
   * The reference sort is a stable descending sort: its result is
   * non-increasing by points, a permutation of its input, and for every
   * point value the entries with that value appear in their input order.
   */
  lemma {:induction false} StableSortCorrect(s: seq<Entry>)
    ensures SortedDesc(StableSort(s))
    ensures multiset(StableSort(s)) == multiset(s)
    ensures forall v :: WithPoints(StableSort(s), v) == WithPoints(s, v)
  {
    if s != [] {
      var init, last := s[..|s| - 1], s[|s| - 1];
      assert s == init + [last];
      StableSortCorrect(init);
      InsertSorted(StableSort(init), last);
      InsertPermutes(StableSort(init), last);
      forall v ensures WithPoints(StableSort(s), v) == WithPoints(s, v) {
        InsertStable(StableSort(init), last, v);
        WithPointsAppend(init, [last], v);
      }
    }
  }

  /** The entries with `v` points come from `s` and have `v` points. */
  lemma {:induction false} WithPointsMember(s: seq<Entry>, v: int, x: Entry)
    requires x in WithPoints(s, v)
    ensures x in s && x.points == v
  {
    var init := s[..|s| - 1];
    assert s == init + [s[|s| - 1]];
    if x in WithPoints(init, v) {
      WithPointsMember(init, v, x);
    }
  }

  /** A sequence is empty exactly when it has no entries with any point value. */
  lemma EmptyWithPoints(s: seq<Entry>)
    ensures s == [] <==> forall v :: WithPoints(s, v) == []
  {
    if s != [] {
      var last := s[|s| - 1];
      assert last in WithPoints(s, last.points);
    }
  }

  /** The last entry of a sorted sequence has the fewest points. */
  lemma LastIsLeast(s: seq<Entry>, x: Entry)
    requires SortedDesc(s) && x in s
    ensures x.points >= s[|s| - 1].points
  {
    var k :| 0 <= k < |s| && s[k] == x;
    if k < |s| - 1 {
      assert s[k].points >= s[|s| - 1].points;
    }
  }

  /** A non-empty sequence's entries with the last entry's point value end in that entry. */
  lemma EndsWithLast(s: seq<Entry>)
    requires s != []
    ensures WithPoints(s, s[|s| - 1].points) == WithPoints(s[..|s| - 1], s[|s| - 1].points) + [s[|s| - 1]]
  {
  }

  /** Two sorted sequences with the same entries of each point value end in the same entry. */
  lemma SameLast(r1: seq<Entry>, r2: seq<Entry>)
    requires r1 != [] && r2 != []
    requires SortedDesc(r1) && SortedDesc(r2)
    requires forall v :: WithPoints(r1, v) == WithPoints(r2, v)
    ensures r1[|r1| - 1] == r2[|r2| - 1]
  {
    var a, b := r1[|r1| - 1], r2[|r2| - 1];
    EndsWithLast(r1);
    EndsWithLast(r2);
    var wa, wb := WithPoints(r1, a.points), WithPoints(r2, b.points);
    assert a in wa && b in wb;
    assert wa == WithPoints(r2, a.points);
    assert wb == WithPoints(r1, b.points);
    WithPointsMember(r2, a.points, a);
    WithPointsMember(r1, b.points, b);
    LastIsLeast(r2, a);
    LastIsLeast(r1, b);
    assert a.points == b.points;
    assert wa == wb;
    assert a == wa[|wa| - 1];
    assert b == wb[|wb| - 1];
  }

  /** Dropping the same last entry from both keeps the entries of each point value equal. */
  lemma {:induction false} SameInit(r1: seq<Entry>, r2: seq<Entry>, v: int)
    requires r1 != [] && r2 != [] && r1[|r1| - 1] == r2[|r2| - 1]
    requires WithPoints(r1, v) == WithPoints(r2, v)
    ensures WithPoints(r1[..|r1| - 1], v) == WithPoints(r2[..|r2| - 1], v)
  {
    var w1, w2 := WithPoints(r1[..|r1| - 1], v), WithPoints(r2[..|r2| - 1], v);
    var a := r1[|r1| - 1];
    var tail: seq<Entry> := if a.points == v then [a] else [];
    assert WithPoints(r1, v) == w1 + tail;
    assert WithPoints(r2, v) == w2 + tail;
    assert |w1| == |w2|;
    assert w1 == (w1 + tail)[..|w1|];
    assert w2 == (w2 + tail)[..|w2|];
  }

  /**
   * A stable descending sort has only one possible outcome: two sorted
   * sequences with the same entries of each point value in the same order
   * are equal.
   */
  lemma {:induction false} SortedUnique(r1: seq<Entry>, r2: seq<Entry>)
    requires SortedDesc(r1) && SortedDesc(r2)
    requires forall v :: WithPoints(r1, v) == WithPoints(r2, v)
    ensures r1 == r2
    decreases |r1|
  {
    EmptyWithPoints(r1);
    EmptyWithPoints(r2);
    if r1 != [] && r2 != [] {
      var init1, init2 := r1[..|r1| - 1], r2[..|r2| - 1];
      SameLast(r1, r2);
      forall v ensures WithPoints(init1, v) == WithPoints(init2, v) {
        SameInit(r1, r2, v);
      }
      SortedUnique(init1, init2);
      assert r1 == init1 + [r1[|r1| - 1]] && r2 == init2 + [r2[|r2| - 1]];
    }
  }

  /**
   * `StableSort` is the stable descending sort: any sequence that is sorted
   * by points and keeps, for each point value, the input order of the
   * entries with that value, is `StableSort` of the input.
   */
  lemma StableSortCharacterized(s: seq<Entry>, r: seq<Entry>)
    requires SortedDesc(r)
    requires forall v :: WithPoints(r, v) == WithPoints(s, v)
    ensures r == StableSort(s)
  {
    StableSortCorrect(s);
    SortedUnique(r, StableSort(s));
  }

  /**
   * Where the insertion loop stops: when every entry of `t` from `j` on has
   * fewer points than `x` and the one before `j` (if any) has at least as
   * many, `x` goes at position `j`.
   */
  lemma {:induction false} InsertPlace(t: seq<Entry>, x: Entry, j: nat)
    requires j <= |t|
    requires forall k :: j <= k < |t| ==> t[k].points < x.points
    requires j == 0 || t[j - 1].points >= x.points
    ensures Insert(t, x) == t[..j] + [x] + t[j..]
    decreases |t|
  {
    if j == |t| {
      assert t[..j] == t && t[j..] == [];
    } else {
      var init := t[..|t| - 1];
      assert init[..j] == t[..j];
      InsertPlace(init, x, j);
      assert t[j..] == init[j..] + [t[|t| - 1]];
    }
  }

  /** What the insertion loop leaves behind: `t` with `x` put at position `j`. */
  lemma Assemble(b: seq<Entry>, t: seq<Entry>, x: Entry, j: nat)
    requires j <= |t| && |b| == |t| + 1
    requires forall k :: 0 <= k < j ==> b[k] == t[k]
    requires b[j] == x
    requires forall k :: j < k < |b| ==> b[k] == t[k - 1]
    ensures b == t[..j] + [x] + t[j..]
  {
    var r := t[..j] + [x] + t[j..];
    forall k | 0 <= k < |b| ensures b[k] == r[k] {
      if k < j {
        assert r[k] == t[k];
      } else if k > j {
        assert r[k] == t[k - 1];
      }
    }
  }

  /** Moves `a[i]` left past every entry with fewer points: `a[..i + 1]` becomes `Insert(a[..i], a[i])`. */
  method InsertAt(a: array<Entry>, i: nat)
    requires i < a.Length
    modifies a
    ensures a[..i + 1] == Insert(old(a[..i]), old(a[i]))
    ensures forall k :: i < k < a.Length ==> a[k] == old(a[k])
  {
    var x := a[i];
    ghost var t := a[..i];
    var j := i;
    while j > 0 && a[j - 1].points < x.points
      invariant 0 <= j <= i
      invariant forall k :: 0 <= k < j ==> a[k] == t[k]
      invariant forall k :: j < k <= i ==> a[k] == t[k - 1]
      invariant forall k :: i < k < a.Length ==> a[k] == old(a[k])
      invariant forall k :: j <= k < i ==> t[k].points < x.points
    {
      a[j] := a[j - 1];
      j := j - 1;
    }
    InsertPlace(t, x, j);
    a[j] := x;
    Assemble(a[..i + 1], t, x, j);
  }

  /** Sorts `a` in place by insertion: the same result as `StableSort`. */
  method SortByPoints(a: array<Entry>)
    modifies a
    ensures a[..] == StableSort(old(a[..]))
  {
    ghost var s := a[..];
    var i := 0;
    while i < a.Length
      invariant 0 <= i <= a.Length
      invariant a[..i] == StableSort(s[..i])
      invariant forall k :: i <= k < a.Length ==> a[k] == s[k]
    {
      InsertAt(a, i);
      assert s[..i + 1] == s[..i] + [s[i]];
      i := i + 1;
    }
    assert s[..a.Length] == s;
  }
}
