/**
 * The training units of the planner and the totals of a combination of them.
 *
 * A unit costs hours (`duration`), uses up freshness (`freshnessCost`) and
 * yields skill points. A combination is an ordered tuple of units, repetition
 * allowed; its three totals are the plain integer sums over the tuple.
 */
module Units {

  /** One catalog entry: name, duration in hours, freshness used, skill points. */
  datatype TrainingUnit = TrainingUnit(name: string, duration: int, freshnessCost: int, skillPoints: int)

  /** The three quantities a unit carries and a combination sums. */
  datatype Quantity = Duration | FreshnessCost | SkillPoints

  /** A kept candidate: the tuple with its skill points, hours and freshness used. */
  datatype Entry = Entry(combo: seq<TrainingUnit>, points: int, duration: int, freshness: int)

  /** The ceiling of the freshness scale. */
  const MAX_FRESHNESS: int := 100

  /** The catalog the planner starts with; "Auslaufen" (cool-down) is a unit of its own. */
  const DEFAULT_CATALOG: seq<TrainingUnit> := [
    TrainingUnit("Langhanteln", 3, 60, 180),
    TrainingUnit("Slalomdribbling", 3, 30, 102),
    TrainingUnit("Medizinball", 3, 50, 126),
    TrainingUnit("Joggen mit Ball", 1, 20, 34),
    TrainingUnit("Passen", 1, 15, 36),
    TrainingUnit("Jonglieren", 1, 10, 24),
    TrainingUnit("Torwand", 2, 25, 76),
    TrainingUnit("Auslaufen", 1, 0, 0)
  ]

  function Min(a: int, b: int): int {
    if a <= b then a else b
  }

  function Max(a: int, b: int): int {
    if a <= b then b else a
  }

  function Get(u: TrainingUnit, q: Quantity): int {
    match q
    case Duration => u.duration
    case FreshnessCost => u.freshnessCost
    case SkillPoints => u.skillPoints
  }

  /** The sum of quantity `q` over the units of `combo`, taken left to right. */
  function Total(combo: seq<TrainingUnit>, q: Quantity): int {
    if combo == [] then 0 else Get(combo[0], q) + Total(combo[1..], q)
  }

  /** The entry recorded for `combo`: its three totals. */
  function Evaluate(combo: seq<TrainingUnit>): Entry {
    Entry(combo, Total(combo, SkillPoints), Total(combo, Duration), Total(combo, FreshnessCost))
  }

  lemma EvaluateOne(u: TrainingUnit)
    ensures Evaluate([u]) == Entry([u], u.skillPoints, u.duration, u.freshnessCost)
  {
    forall q ensures Total([u], q) == Get(u, q) {
      assert [u][1..] == [];
    }
  }

  lemma EvaluateTwo(u: TrainingUnit, w: TrainingUnit)
    ensures Evaluate([u, w]) == Entry([u, w], u.skillPoints + w.skillPoints, u.duration + w.duration, u.freshnessCost + w.freshnessCost)
  {
    assert [u, w][1..] == [w];
    EvaluateOne(w);
  }

  /** A total splits over concatenation. */
  lemma {:induction false} TotalAppend(a: seq<TrainingUnit>, b: seq<TrainingUnit>, q: Quantity)
    ensures Total(a + b, q) == Total(a, q) + Total(b, q)
  {
    if a == [] {
      assert a + b == b;
    } else {
      assert (a + b)[1..] == a[1..] + b;
      TotalAppend(a[1..], b, q);
    }
  }

  /** When every unit of `combo` carries at least `m` of `q`, the total is at least `m` per unit. */
  lemma {:induction false} TotalAtLeast(combo: seq<TrainingUnit>, q: Quantity, m: int)
    requires forall k :: 0 <= k < |combo| ==> Get(combo[k], q) >= m
    ensures Total(combo, q) >= m * |combo|
  {
    if combo != [] {
      TotalAtLeast(combo[1..], q, m);
    }
  }

  /** Taking the unit at position `k` out of a tuple takes its share out of each total. */
  lemma TotalRemove(b: seq<TrainingUnit>, k: nat, q: Quantity)
    requires k < |b|
    ensures Total(b, q) == Get(b[k], q) + Total(b[..k] + b[k + 1..], q)
  {
    assert b == b[..k] + [b[k]] + b[k + 1..];
    TotalAppend(b[..k] + [b[k]], b[k + 1..], q);
    TotalAppend(b[..k], [b[k]], q);
    TotalAppend(b[..k], b[k + 1..], q);
    assert [b[k]][1..] == [];
  }

  /** Removing the first unit of `a` and an equal unit of `b` keeps the two tuples permutations of each other. */
  lemma MultisetRemove(a: seq<TrainingUnit>, b: seq<TrainingUnit>, k: nat)
    requires multiset(a) == multiset(b) && a != [] && k < |b| && b[k] == a[0]
    ensures multiset(a[1..]) == multiset(b[..k] + b[k + 1..])
  {
    var m := multiset{a[0]};
    var restA, restB := a[1..], b[..k] + b[k + 1..];
    assert a == [a[0]] + restA;
    assert multiset(a) == m + multiset(restA);
    assert b == b[..k] + [b[k]] + b[k + 1..];
    assert multiset(b) == multiset(b[..k]) + m + multiset(b[k + 1..]);
    assert multiset(restB) == multiset(b[..k]) + multiset(b[k + 1..]);
    assert multiset(restA) == multiset(a) - m;
  }

  /** The totals of a tuple depend only on how often each unit occurs in it, not on the order. */
  lemma {:induction false} TotalPermutation(a: seq<TrainingUnit>, b: seq<TrainingUnit>, q: Quantity)
    requires multiset(a) == multiset(b)
    ensures Total(a, q) == Total(b, q)
    decreases |a|
  {
    if a == [] {
      assert |multiset(b)| == 0;
    } else {
      var x := a[0];
      assert x in multiset(b);
      var k :| 0 <= k < |b| && b[k] == x;
      MultisetRemove(a, b, k);
      TotalPermutation(a[1..], b[..k] + b[k + 1..], q);
      TotalRemove(b, k, q);
    }
  }
}
