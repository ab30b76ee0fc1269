/**
 * The Cartesian power of a sequence: every ordered length-n tuple over its
 * elements, repetition allowed, first position varying slowest (the order in
 * which Python's `itertools.product(xs, repeat=n)` yields them).
 */
module Product {

  function Pow(b: nat, n: nat): nat {
    if n == 0 then 1 else b * Pow(b, n - 1)
  }

  /** `x` put in front of every tuple of `ts`, keeping their order. */
  function Prepend<T>(x: T, ts: seq<seq<T>>): seq<seq<T>> {
    seq(|ts|, j requires 0 <= j < |ts| => [x] + ts[j])
  }

  /** For each element of `xs` in turn, that element put in front of every tuple of `ts`. */
  function PrependAll<T>(xs: seq<T>, ts: seq<seq<T>>): seq<seq<T>> {
    if xs == [] then [] else Prepend(xs[0], ts) + PrependAll(xs[1..], ts)
  }

  /** All length-`n` tuples over `xs`, in lexicographic order of positions in `xs`. */
  function Tuples<T>(xs: seq<T>, n: nat): seq<seq<T>> {
    if n == 0 then [[]] else PrependAll(xs, Tuples(xs, n - 1))
  }

  /** Every element of `c` is drawn from `xs`. */
  ghost predicate DrawnFrom<T>(c: seq<T>, xs: seq<T>) {
    forall k :: 0 <= k < |c| ==> c[k] in xs
  }

  lemma {:induction false} PrependAllLength<T>(xs: seq<T>, ts: seq<seq<T>>)
    ensures |PrependAll(xs, ts)| == |xs| * |ts|
  {
    if xs != [] {
      PrependAllLength(xs[1..], ts);
    }
  }

  /** Position `i * |ts| + j` of `PrependAll(xs, ts)` holds `xs[i]` in front of `ts[j]`. */
  lemma {:induction false} PrependAllAt<T>(xs: seq<T>, ts: seq<seq<T>>, i: nat, j: nat)
    requires i < |xs| && j < |ts|
    ensures |PrependAll(xs, ts)| == |xs| * |ts|
    ensures i * |ts| + j < |xs| * |ts|
    ensures PrependAll(xs, ts)[i * |ts| + j] == [xs[i]] + ts[j]
  {
    PrependAllLength(xs, ts);
    if i == 0 {
    } else {
      PrependAllAt(xs[1..], ts, i - 1, j);
      assert xs[1..][i - 1] == xs[i];
      assert i * |ts| + j == |ts| + ((i - 1) * |ts| + j);
    }
  }

  /** A tuple occurs in `PrependAll(xs, ts)` exactly when its head is in `xs` and its tail in `ts`. */
  lemma {:induction false} PrependAllMember<T>(xs: seq<T>, ts: seq<seq<T>>, c: seq<T>)
    ensures c in PrependAll(xs, ts) <==> |c| > 0 && c[0] in xs && c[1..] in ts
  {
    if xs != [] {
      PrependAllMember(xs[1..], ts, c);
      assert c in Prepend(xs[0], ts) <==> |c| > 0 && c[0] == xs[0] && c[1..] in ts by {
        if |c| > 0 && c[0] == xs[0] && c[1..] in ts {
          var j :| 0 <= j < |ts| && ts[j] == c[1..];
          assert Prepend(xs[0], ts)[j] == c;
        }
      }
      assert |c| > 0 ==> (c[0] in xs <==> c[0] == xs[0] || c[0] in xs[1..]) by {
        if |c| > 0 && c[0] in xs {
          var i :| 0 <= i < |xs| && xs[i] == c[0];
          if i > 0 { assert xs[1..][i - 1] == c[0]; }
        }
      }
    }
  }

  /** There are `|xs|` to the power `n` tuples of length `n`. */
  lemma {:induction false} TuplesCount<T>(xs: seq<T>, n: nat)
    ensures |Tuples(xs, n)| == Pow(|xs|, n)
  {
    if n > 0 {
      TuplesCount(xs, n - 1);
      PrependAllLength(xs, Tuples(xs, n - 1));
    }
  }

  /**
   * The generation order: among the length-(n+1) tuples, the one at position
   * `i * |xs|^n + j` starts with `xs[i]` and continues with the `j`-th
   * length-n tuple, so the first position varies slowest.
   */
  lemma TuplesAt<T>(xs: seq<T>, n: nat, i: nat, j: nat)
    requires i < |xs| && j < Pow(|xs|, n)
    ensures |Tuples(xs, n)| == Pow(|xs|, n)
    ensures i * Pow(|xs|, n) + j < |Tuples(xs, n + 1)|
    ensures Tuples(xs, n + 1)[i * Pow(|xs|, n) + j] == [xs[i]] + Tuples(xs, n)[j]
  {
    var ts := Tuples(xs, n);
    TuplesCount(xs, n);
    PrependAllAt(xs, ts, i, j);
    assert Tuples(xs, n + 1) == PrependAll(xs, ts);
  }

  /** The length-`n` tuples are exactly the sequences of length `n` drawn from `xs`. */
  lemma {:induction false} TuplesMember<T>(xs: seq<T>, n: nat, c: seq<T>)
    ensures c in Tuples(xs, n) <==> |c| == n && DrawnFrom(c, xs)
  {
    if n == 0 {
    } else {
      PrependAllMember(xs, Tuples(xs, n - 1), c);
      if |c| > 0 {
        TuplesMember(xs, n - 1, c[1..]);
        assert DrawnFrom(c, xs) <==> c[0] in xs && DrawnFrom(c[1..], xs) by {
          if c[0] in xs && DrawnFrom(c[1..], xs) {
            forall k | 0 <= k < |c| ensures c[k] in xs {
              if k > 0 { assert c[1..][k - 1] == c[k]; }
            }
          }
        }
      }
    }
  }
}
