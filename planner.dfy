/**
 * The brute-force search for the best training combinations.
 *
 * For every length n from 1 to the catalog size, every ordered n-tuple of
 * units (repetition allowed, in product order) is evaluated; the tuples
 * within both the time and the freshness budget are kept, in generation
 * order; the kept entries are stably sorted by skill points, highest first,
 * and the first `topN` of them are returned.
 *
 * `BestCombinations` is the specification as one expression;
 * `ComputeBestCombinations` is the loop-and-sort procedure proved to compute
 * it. The lemmas below state what the result means.
 */
module Planner {
  import opened Units
  import opened Product
  import opened Ranking
  import opened Regeneration

  /** The number of results the planner asks for. */
  const TOP_N: int := 10

  /** The candidates of lengths 1 to `n`: shorter tuples first, each length in product order. */
  function CandidatesUpTo(units: seq<TrainingUnit>, n: nat): seq<seq<TrainingUnit>> {
    if n == 0 then [] else CandidatesUpTo(units, n - 1) + Tuples(units, n)
  }

  /** Every candidate the search looks at, in the order it looks at them. */
  function Candidates(units: seq<TrainingUnit>): seq<seq<TrainingUnit>> {
    CandidatesUpTo(units, |units|)
  }

  /** Within the time budget and the freshness budget. */
  predicate Fits(combo: seq<TrainingUnit>, maxFreshness: int, availableTime: int) {
    Total(combo, Duration) <= availableTime && Total(combo, FreshnessCost) <= maxFreshness
  }

  /** The entries of the tuples of `combos` that fit, in the order of `combos`. */
  function Keep(combos: seq<seq<TrainingUnit>>, maxFreshness: int, availableTime: int): seq<Entry> {
    if combos == [] then []
    else
      var last := combos[|combos| - 1];
      Keep(combos[..|combos| - 1], maxFreshness, availableTime)
        + (if Fits(last, maxFreshness, availableTime) then [Evaluate(last)] else [])
  }

  /** The list the search builds before sorting. */
  function Feasible(units: seq<TrainingUnit>, maxFreshness: int, availableTime: int): seq<Entry> {
    Keep(Candidates(units), maxFreshness, availableTime)
  }

  /** Python's `s[:n]`: the first `n` elements, or for negative `n` all but the last `-n`. */
  function Head(s: seq<Entry>, n: int): seq<Entry> {
    if n >= 0 then s[..Min(n, |s|)] else s[..Max(0, |s| + n)]
  }

  /** The result of the search. */
  function BestCombinations(units: seq<TrainingUnit>, maxFreshness: int, availableTime: int, topN: int): seq<Entry> {
    Head(StableSort(Feasible(units, maxFreshness, availableTime)), topN)
  }

  lemma {:induction false} KeepAppend(a: seq<seq<TrainingUnit>>, b: seq<seq<TrainingUnit>>, maxFreshness: int, availableTime: int)
    ensures Keep(a + b, maxFreshness, availableTime) == Keep(a, maxFreshness, availableTime) + Keep(b, maxFreshness, availableTime)
  {
    if b == [] {
      assert a + b == a;
    } else {
      assert (a + b)[..|a + b| - 1] == a + b[..|b| - 1];
      KeepAppend(a, b[..|b| - 1], maxFreshness, availableTime);
    }
  }

  /** One step of the scan: the `j`-th tuple is kept or not. */
  lemma KeepStep(combos: seq<seq<TrainingUnit>>, j: nat, maxFreshness: int, availableTime: int)
    requires j < |combos|
    ensures Keep(combos[..j + 1], maxFreshness, availableTime)
            == Keep(combos[..j], maxFreshness, availableTime)
               + (if Fits(combos[j], maxFreshness, availableTime) then [Evaluate(combos[j])] else [])
  {
    assert combos[..j + 1][..j] == combos[..j];
  }

  /**
   * The body of the inner loop over one length's tuples: evaluates each
   * tuple of `combos` in turn and appends its entry to `found` when it fits
   * both budgets.
   */
  method AppendFitting(combos: seq<seq<TrainingUnit>>, maxFreshness: int, availableTime: int, found: seq<Entry>)
    returns (extended: seq<Entry>)
    ensures extended == found + Keep(combos, maxFreshness, availableTime)
  {
    extended := found;
    for j := 0 to |combos|
      invariant extended == found + Keep(combos[..j], maxFreshness, availableTime)
    {
      var combo := combos[j];
      var duration := Total(combo, Duration);
      var freshness := Total(combo, FreshnessCost);
      var points := Total(combo, SkillPoints);
      KeepStep(combos, j, maxFreshness, availableTime);
      if duration <= availableTime && freshness <= maxFreshness {
        extended := extended + [Entry(combo, points, duration, freshness)];
      }
    }
    assert combos[..|combos|] == combos;
  }

  /**
   * Evaluates every candidate, keeps those within both budgets, sorts the
   * kept entries by points (highest first, stable) and returns the first
   * `topN`.
   */
  method ComputeBestCombinations(units: seq<TrainingUnit>, maxFreshness: int, availableTime: int, topN: int)
    returns (best: seq<Entry>)
    ensures best == BestCombinations(units, maxFreshness, availableTime, topN)
  {
    var found: seq<Entry> := [];
    for n := 1 to |units| + 1
      invariant found == Keep(CandidatesUpTo(units, n - 1), maxFreshness, availableTime)
    {
      found := AppendFitting(Tuples(units, n), maxFreshness, availableTime, found);
      KeepAppend(CandidatesUpTo(units, n - 1), Tuples(units, n), maxFreshness, availableTime);
    }
    var ranked := new Entry[|found|](k requires 0 <= k < |found| => found[k]);
    assert ranked[..] == found;
    SortByPoints(ranked);
    best := Head(ranked[..], topN);
  }

  // ---------------------------------------------------------------------
  // What the candidates are.

  /** The candidates of lengths up to `n` are exactly the tuples of length 1 to `n` over the catalog. */
  lemma {:induction false} CandidatesUpToMember(units: seq<TrainingUnit>, n: nat, c: seq<TrainingUnit>)
    ensures c in CandidatesUpTo(units, n) <==> 1 <= |c| <= n && DrawnFrom(c, units)
  {
    if n > 0 {
      CandidatesUpToMember(units, n - 1, c);
      TuplesMember(units, n, c);
    }
  }

  /**
   * The search looks at exactly the tuples of length 1 to the catalog size
   * drawn from the catalog; in particular an empty catalog gives none.
   */
  lemma CandidatesMember(units: seq<TrainingUnit>, c: seq<TrainingUnit>)
    ensures c in Candidates(units) <==> 1 <= |c| <= |units| && DrawnFrom(c, units)
  {
    CandidatesUpToMember(units, |units|, c);
  }

  /** Shorter tuples are looked at first. */
  lemma {:induction false} CandidatesByLength(units: seq<TrainingUnit>, n: nat, p: nat, q: nat)
    requires p < q < |CandidatesUpTo(units, n)|
    ensures |CandidatesUpTo(units, n)[p]| <= |CandidatesUpTo(units, n)[q]|
  {
    var cs := CandidatesUpTo(units, n);
    var prev := CandidatesUpTo(units, n - 1);
    var last := Tuples(units, n);
    assert cs == prev + last;
    if q < |prev| {
      assert cs[p] == prev[p] && cs[q] == prev[q];
      CandidatesByLength(units, n - 1, p, q);
    } else {
      assert cs[q] == last[q - |prev|];
      TuplesMember(units, n, last[q - |prev|]);
      CandidatesUpToMember(units, n, cs[p]);
    }
  }

  function PowSum(b: nat, n: nat): nat {
    if n == 0 then 0 else PowSum(b, n - 1) + Pow(b, n)
  }

  /** The search looks at |units| + |units|^2 + ... + |units|^|units| tuples. */
  lemma {:induction false} CandidatesCount(units: seq<TrainingUnit>, n: nat)
    ensures |CandidatesUpTo(units, n)| == PowSum(|units|, n)
  {
    if n > 0 {
      CandidatesCount(units, n - 1);
      TuplesCount(units, n);
    }
  }

  // ---------------------------------------------------------------------
  // What is kept.

  /** An entry is kept exactly when it is the evaluation of a tuple of `combos` that fits both budgets. */
  lemma {:induction false} KeepMember(combos: seq<seq<TrainingUnit>>, maxFreshness: int, availableTime: int, e: Entry)
    ensures e in Keep(combos, maxFreshness, availableTime)
            <==> e.combo in combos && Fits(e.combo, maxFreshness, availableTime) && e == Evaluate(e.combo)
  {
    if combos != [] {
      var init, last := combos[..|combos| - 1], combos[|combos| - 1];
      assert combos == init + [last];
      KeepMember(init, maxFreshness, availableTime, e);
    }
  }

  /**
   * The list built before sorting holds exactly the entries of the feasible
   * tuples of length 1 to the catalog size, each entry carrying its tuple's
   * true totals.
   */
  lemma FeasibleMember(units: seq<TrainingUnit>, maxFreshness: int, availableTime: int, e: Entry)
    ensures e in Feasible(units, maxFreshness, availableTime)
            <==> && 1 <= |e.combo| <= |units| && DrawnFrom(e.combo, units)
                 && Fits(e.combo, maxFreshness, availableTime) && e == Evaluate(e.combo)
  {
    KeepMember(Candidates(units), maxFreshness, availableTime, e);
    CandidatesMember(units, e.combo);
  }

  // ---------------------------------------------------------------------
  // What is returned.

  lemma HeadIsPrefix(s: seq<Entry>, n: int)
    ensures Head(s, n) <= s
  {
  }

  lemma HeadSorted(s: seq<Entry>, n: int)
    requires SortedDesc(s)
    ensures SortedDesc(Head(s, n))
  {
  }

  /** A prefix of a sorted sequence holds, for each point value, a prefix of the entries with that value. */
  lemma HeadWithPoints(s: seq<Entry>, n: int, v: int)
    ensures WithPoints(Head(s, n), v) <= WithPoints(s, v)
  {
    var r := Head(s, n);
    assert s == r + s[|r|..];
    WithPointsAppend(r, s[|r|..], v);
  }

  /** In a sorted sequence, an entry that falls outside a prefix has no more points than any entry inside it. */
  lemma HeadDominates(s: seq<Entry>, n: int, x: Entry)
    requires SortedDesc(s) && x in s && x !in Head(s, n)
    ensures forall e :: e in Head(s, n) ==> e.points >= x.points
  {
    var r := Head(s, n);
    var q :| 0 <= q < |s| && s[q] == x;
    assert q >= |r|;
    forall e | e in r ensures e.points >= x.points {
      var p :| 0 <= p < |r| && r[p] == e;
      assert s[p] == e;
    }
  }

  /**
   * Every returned entry is a tuple of length 1 to the catalog size drawn
   * from the catalog, within both budgets, and its recorded points, hours
   * and freshness are the sums over its tuple.
   */
  lemma ResultSound(units: seq<TrainingUnit>, maxFreshness: int, availableTime: int, topN: int)
    ensures forall e :: e in BestCombinations(units, maxFreshness, availableTime, topN) ==>
              && e.duration <= availableTime && e.freshness <= maxFreshness
              && e.points == Total(e.combo, SkillPoints)
              && e.duration == Total(e.combo, Duration)
              && e.freshness == Total(e.combo, FreshnessCost)
              && 1 <= |e.combo| <= |units| && DrawnFrom(e.combo, units)
  {
    var feasible := Feasible(units, maxFreshness, availableTime);
    var sorted := StableSort(feasible);
    StableSortCorrect(feasible);
    forall e | e in BestCombinations(units, maxFreshness, availableTime, topN)
      ensures && e.duration <= availableTime && e.freshness <= maxFreshness
              && e.points == Total(e.combo, SkillPoints)
              && e.duration == Total(e.combo, Duration)
              && e.freshness == Total(e.combo, FreshnessCost)
              && 1 <= |e.combo| <= |units| && DrawnFrom(e.combo, units)
    {
      HeadIsPrefix(sorted, topN);
      assert e in multiset(sorted);
      FeasibleMember(units, maxFreshness, availableTime, e);
    }
  }

  /** The result is non-increasing by points. */
  lemma ResultSorted(units: seq<TrainingUnit>, maxFreshness: int, availableTime: int, topN: int)
    ensures SortedDesc(BestCombinations(units, maxFreshness, availableTime, topN))
  {
    var sorted := StableSort(Feasible(units, maxFreshness, availableTime));
    StableSortCorrect(Feasible(units, maxFreshness, availableTime));
    HeadSorted(sorted, topN);
  }

  /**
   * Entries with equal points come in the order the search generated them:
   * for each point value, the returned entries with that value are the
   * first ones the search kept.
   */
  lemma ResultStable(units: seq<TrainingUnit>, maxFreshness: int, availableTime: int, topN: int, v: int)
    ensures WithPoints(BestCombinations(units, maxFreshness, availableTime, topN), v)
            <= WithPoints(Feasible(units, maxFreshness, availableTime), v)
  {
    var feasible := Feasible(units, maxFreshness, availableTime);
    StableSortCorrect(feasible);
    HeadWithPoints(StableSort(feasible), topN, v);
  }

  /** With `topN >= 0`, the result has `min(topN, number of feasible tuples)` entries. */
  lemma ResultLength(units: seq<TrainingUnit>, maxFreshness: int, availableTime: int, topN: int)
    requires topN >= 0
    ensures |BestCombinations(units, maxFreshness, availableTime, topN)| == Min(topN, |Feasible(units, maxFreshness, availableTime)|)
  {
    StableSortCorrect(Feasible(units, maxFreshness, availableTime));
    assert |StableSort(Feasible(units, maxFreshness, availableTime))| == |Feasible(units, maxFreshness, availableTime)| by {
      var f := Feasible(units, maxFreshness, availableTime);
      assert |multiset(StableSort(f))| == |multiset(f)|;
    }
  }

  /** Asking for more results only appends: the answer for `k` is a prefix of the answer for any `m >= k`. */
  lemma ResultPrefix(units: seq<TrainingUnit>, maxFreshness: int, availableTime: int, k: int, m: int)
    requires 0 <= k <= m
    ensures BestCombinations(units, maxFreshness, availableTime, k) <= BestCombinations(units, maxFreshness, availableTime, m)
  {
  }

  /** With `topN` at least the number of feasible tuples, the result is all of them, reordered. */
  lemma ResultComplete(units: seq<TrainingUnit>, maxFreshness: int, availableTime: int, topN: int)
    requires topN >= |Feasible(units, maxFreshness, availableTime)|
    ensures multiset(BestCombinations(units, maxFreshness, availableTime, topN)) == multiset(Feasible(units, maxFreshness, availableTime))
  {
    var f := Feasible(units, maxFreshness, availableTime);
    StableSortCorrect(f);
    assert |multiset(StableSort(f))| == |multiset(f)|;
    assert StableSort(f)[..|StableSort(f)|] == StableSort(f);
  }

  /**
   * No feasible tuple that was left out scores more than any returned entry:
   * the result holds the best `topN`.
   */
  lemma NoBetterLeftOut(units: seq<TrainingUnit>, maxFreshness: int, availableTime: int, topN: int, c: seq<TrainingUnit>)
    requires 1 <= |c| <= |units| && DrawnFrom(c, units) && Fits(c, maxFreshness, availableTime)
    requires Evaluate(c) !in BestCombinations(units, maxFreshness, availableTime, topN)
    ensures forall e :: e in BestCombinations(units, maxFreshness, availableTime, topN) ==> e.points >= Total(c, SkillPoints)
  {
    var feasible := Feasible(units, maxFreshness, availableTime);
    var sorted := StableSort(feasible);
    StableSortCorrect(feasible);
    FeasibleMember(units, maxFreshness, availableTime, Evaluate(c));
    assert Evaluate(c) in multiset(sorted);
    HeadDominates(sorted, topN, Evaluate(c));
  }

  /**
   * The same by position, so that identical entries (a catalog may hold two
   * equal units) are told apart: every entry of the ranked list at a position
   * past the returned prefix is feasible and scores no more than any
   * returned entry.
   */
  lemma NoBetterLeftOutAt(units: seq<TrainingUnit>, maxFreshness: int, availableTime: int, topN: int, j: int)
    requires |BestCombinations(units, maxFreshness, availableTime, topN)| <= j < |StableSort(Feasible(units, maxFreshness, availableTime))|
    ensures StableSort(Feasible(units, maxFreshness, availableTime))[j] in Feasible(units, maxFreshness, availableTime)
    ensures forall e :: e in BestCombinations(units, maxFreshness, availableTime, topN) ==>
              e.points >= StableSort(Feasible(units, maxFreshness, availableTime))[j].points
  {
    var feasible := Feasible(units, maxFreshness, availableTime);
    var sorted := StableSort(feasible);
    var r := Head(sorted, topN);
    StableSortCorrect(feasible);
    assert sorted[j] in multiset(sorted);
    forall e | e in r ensures e.points >= sorted[j].points {
      var p :| 0 <= p < |r| && r[p] == e;
      assert sorted[p] == e;
    }
  }

  /**
   * When every unit uses freshness and none is left, or every unit takes
   * time and none is left, nothing fits and the result is empty.
   */
  lemma NothingFits(units: seq<TrainingUnit>, maxFreshness: int, availableTime: int, topN: int)
    requires || (maxFreshness <= 0 && forall k :: 0 <= k < |units| ==> units[k].freshnessCost > 0)
             || (availableTime <= 0 && forall k :: 0 <= k < |units| ==> units[k].duration > 0)
    ensures BestCombinations(units, maxFreshness, availableTime, topN) == []
  {
    var feasible := Feasible(units, maxFreshness, availableTime);
    if feasible != [] {
      var e := feasible[0];
      FeasibleMember(units, maxFreshness, availableTime, e);
      var q := if maxFreshness <= 0 && forall k :: 0 <= k < |units| ==> units[k].freshnessCost > 0
               then FreshnessCost else Duration;
      forall k | 0 <= k < |e.combo| ensures Get(e.combo[k], q) >= 1 {
        var i :| 0 <= i < |units| && units[i] == e.combo[k];
      }
      TotalAtLeast(e.combo, q, 1);
      assert false;
    }
    StableSortCorrect(feasible);
  }

  // ---------------------------------------------------------------------
  // The planner: cool-down first, then the search on the remaining hours.

  /**
   * With the current freshness, the hours available and the hours set aside
   * for cool-down (as the input form bounds them), regenerates first when
   * there are cool-down hours and then searches the remaining hours for the
   * best ten combinations.
   */
  method Plan(units: seq<TrainingUnit>, restFreshness: int, availableTime: int, cooldownHours: int)
    returns (freshness: int, best: seq<Entry>)
    requires 0 <= restFreshness <= MAX_FRESHNESS
    requires 1 <= availableTime <= 24
    requires 0 <= cooldownHours <= availableTime
    ensures freshness == Min(MAX_FRESHNESS, restFreshness + FRESHNESS_PER_HOUR * cooldownHours)
    ensures best == BestCombinations(units, freshness, availableTime - cooldownHours, TOP_N)
  {
    freshness := restFreshness;
    if cooldownHours > 0 {
      var unused;
      freshness, unused := Regenerate(restFreshness, MAX_FRESHNESS, cooldownHours);
      assert Max(0, cooldownHours) == cooldownHours;
    }
    best := ComputeBestCombinations(units, freshness, availableTime - cooldownHours, TOP_N);
  }

  // ---------------------------------------------------------------------
  // A worked example on two units of the default catalog.

  /** The one- and two-unit tuples over two units, in generation order. */
  lemma TwoUnitTuples(p: TrainingUnit, j: TrainingUnit)
    ensures Candidates([p, j]) == [[p], [j], [p, p], [p, j], [j, p], [j, j]]
  {
    var units := [p, j];
    assert units[1..] == [j] && [j][1..] == [];
    assert [p] + [] == [p] && [j] + [] == [j];
    assert Prepend(p, [[]]) == [[p]];
    assert Prepend(j, [[]]) == [[j]];
    assert PrependAll([j], [[]]) == [[j]] + PrependAll([], [[]]) == [[j]];
    assert Tuples(units, 1) == PrependAll(units, [[]]) == [[p], [j]];
    assert [p] + [p] == [p, p] && [p] + [j] == [p, j] && [j] + [p] == [j, p] && [j] + [j] == [j, j];
    assert Prepend(p, [[p], [j]]) == [[p, p], [p, j]];
    assert Prepend(j, [[p], [j]]) == [[j, p], [j, j]];
    assert PrependAll([j], [[p], [j]]) == [[j, p], [j, j]] + PrependAll([], [[p], [j]]);
    assert Tuples(units, 2) == PrependAll(units, [[p], [j]]) == [[p, p], [p, j], [j, p], [j, j]];
    assert CandidatesUpTo(units, 1) == [] + Tuples(units, 1);
    assert Candidates(units) == CandidatesUpTo(units, 1) + Tuples(units, 2);
  }

  lemma TwoUnitKeptSingles(p: TrainingUnit, j: TrainingUnit)
    requires Evaluate([p]) == Entry([p], 36, 1, 15) && Evaluate([j]) == Entry([j], 24, 1, 10)
    ensures Keep([[p], [j]], 25, 2) == [Entry([p], 36, 1, 15), Entry([j], 24, 1, 10)]
  {
    assert [[p], [j]][..1] == [[p]];
    assert Keep([[p]], 25, 2) == [Entry([p], 36, 1, 15)];
  }

  lemma TwoUnitKeptPairs(p: TrainingUnit, j: TrainingUnit)
    requires Evaluate([p, p]) == Entry([p, p], 72, 2, 30)
    requires Evaluate([p, j]) == Entry([p, j], 60, 2, 25) && Evaluate([j, p]) == Entry([j, p], 60, 2, 25)
    requires Evaluate([j, j]) == Entry([j, j], 48, 2, 20)
    ensures Keep([[p, p], [p, j], [j, p], [j, j]], 25, 2)
            == [Entry([p, j], 60, 2, 25), Entry([j, p], 60, 2, 25), Entry([j, j], 48, 2, 20)]
  {
    var qs := [[p, p], [p, j], [j, p], [j, j]];
    assert qs[..3] == [[p, p], [p, j], [j, p]];
    assert qs[..3][..2] == [[p, p], [p, j]];
    assert qs[..3][..2][..1] == [[p, p]];
    assert Keep([[p, p]], 25, 2) == [];
    assert Keep([[p, p], [p, j]], 25, 2) == [Entry([p, j], 60, 2, 25)];
    assert Keep([[p, p], [p, j], [j, p]], 25, 2) == [Entry([p, j], 60, 2, 25), Entry([j, p], 60, 2, 25)];
  }

  /** Of those six, all but "Passen" twice fit 25 freshness and 2 hours. */
  lemma TwoUnitKept()
    ensures var p, j := DEFAULT_CATALOG[4], DEFAULT_CATALOG[5];
            Feasible([p, j], 25, 2)
            == [ Entry([p], 36, 1, 15), Entry([j], 24, 1, 10), Entry([p, j], 60, 2, 25),
                 Entry([j, p], 60, 2, 25), Entry([j, j], 48, 2, 20) ]
  {
    var p, j := DEFAULT_CATALOG[4], DEFAULT_CATALOG[5];
    TwoUnitTuples(p, j);
    EvaluateOne(p);
    EvaluateOne(j);
    EvaluateTwo(p, p);
    EvaluateTwo(p, j);
    EvaluateTwo(j, p);
    EvaluateTwo(j, j);
    TwoUnitKeptSingles(p, j);
    TwoUnitKeptPairs(p, j);
    assert [[p], [j], [p, p], [p, j], [j, p], [j, j]] == [[p], [j]] + [[p, p], [p, j], [j, p], [j, j]];
    KeepAppend([[p], [j]], [[p, p], [p, j], [j, p], [j, j]], 25, 2);
  }

  /** Sorting five entries with points 36, 24, 60, 60, 48: the two 60s keep their order. */
  lemma FiveEntriesSorted(ep: Entry, ej: Entry, epj: Entry, ejp: Entry, ejj: Entry)
    requires ep.points == 36 && ej.points == 24 && epj.points == 60 && ejp.points == 60 && ejj.points == 48
    ensures StableSort([ep, ej, epj, ejp, ejj]) == [epj, ejp, ejj, ep, ej]
  {
    var f := [ep, ej, epj, ejp, ejj];
    assert f[..4] == [ep, ej, epj, ejp];
    assert [ep, ej, epj, ejp][..3] == [ep, ej, epj];
    assert [ep, ej, epj][..2] == [ep, ej];
    assert [ep, ej][..1] == [ep];
    assert StableSort([ep]) == [ep];
    assert StableSort([ep, ej]) == [ep, ej];
    assert Insert([ep], epj) == [epj, ep];
    assert StableSort([ep, ej, epj]) == [epj, ep, ej];
    assert Insert([epj], ejp) == [epj, ejp];
    assert Insert([epj, ep], ejp) == [epj, ejp, ep];
    assert StableSort([ep, ej, epj, ejp]) == [epj, ejp, ep, ej];
    assert Insert([epj, ejp, ep], ejj) == [epj, ejp, ejj, ep];
  }

  /**
   * With "Passen" (1 h, 15 freshness, 36 points) and "Jonglieren" (1 h, 10
   * freshness, 24 points), 25 freshness and 2 hours: both tuples of one of
   * each tie at 60 points and keep their generation order, and "Passen"
   * twice (30 freshness) is dropped.
   */
  lemma ExampleTwoUnits()
    ensures var passen, jonglieren := DEFAULT_CATALOG[4], DEFAULT_CATALOG[5];
            BestCombinations([passen, jonglieren], 25, 2, TOP_N)
            == [ Entry([passen, jonglieren], 60, 2, 25), Entry([jonglieren, passen], 60, 2, 25),
                 Entry([jonglieren, jonglieren], 48, 2, 20), Entry([passen], 36, 1, 15),
                 Entry([jonglieren], 24, 1, 10) ]
  {
    var p, j := DEFAULT_CATALOG[4], DEFAULT_CATALOG[5];
    TwoUnitKept();
    FiveEntriesSorted(Entry([p], 36, 1, 15), Entry([j], 24, 1, 10), Entry([p, j], 60, 2, 25),
                      Entry([j, p], 60, 2, 25), Entry([j, j], 48, 2, 20));
  }
}
