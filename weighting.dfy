/**
 * The two ways src/data/parser.py draws one item from a pool, with the
 * random number made an explicit `draw`:
 *  - `random.choice(pool)`: the item at `draw % |pool|`;
 *  - `random.choices(pool, weights=[1, 2, ..., n])`: the weights are summed
 *    into a cumulative list and the draw, a point in `[0, total)`, is located
 *    in it by `bisect_right`, so the item at position `i` owns the `i + 1`
 *    points from `1 + ... + i` up to, not including, `1 + ... + (i + 1)`.
 */
module Weighting {

  /** `1 + 2 + ... + n`, the total weight of a pool of `n` items. */
  function Triangle(n: nat): nat {
    if n == 0 then 0 else Triangle(n - 1) + n
  }

  lemma {:induction false} TriangleClosedForm(n: nat)
    ensures 2 * Triangle(n) == n * (n + 1)
  {
    if n > 0 {
      TriangleClosedForm(n - 1);
    }
  }

  lemma {:induction false} TriangleMonotone(m: nat, n: nat)
    requires m <= n
    ensures Triangle(m) <= Triangle(n)
    ensures m < n ==> Triangle(m) < Triangle(n)
  {
    if m < n {
      TriangleMonotone(m, n - 1);
    }
  }

  /** `list(range(1, n + 1))`. */
  function Weights(n: nat): (ws: seq<nat>)
    ensures |ws| == n
    ensures forall i :: 0 <= i < n ==> ws[i] == i + 1
  {
    seq(n, i requires 0 <= i < n => i + 1)
  }

  /** `itertools.accumulate(weights)`: the running totals. */
  function Accumulate(ws: seq<nat>): (cum: seq<nat>)
    ensures |cum| == |ws|
  {
    if ws == [] then []
    else
      var prior := Accumulate(ws[..|ws| - 1]);
      prior + [(if prior == [] then 0 else prior[|prior| - 1]) + ws[|ws| - 1]]
  }

  /** The running totals of the weights `1..n` are the triangle numbers. */
  lemma {:induction false} AccumulateWeights(n: nat)
    ensures forall j :: 0 <= j < n ==> Accumulate(Weights(n))[j] == Triangle(j + 1)
  {
    if n > 0 {
      AccumulateWeights(n - 1);
      assert Weights(n)[..n - 1] == Weights(n - 1);
    }
  }

  /** `bisect_right(cum, x)` on an ascending list: how many totals are at most `x`. */
  function BisectRight(cum: seq<nat>, x: nat): (i: nat)
    ensures i <= |cum|
  {
    if cum == [] || x < cum[0] then 0 else 1 + BisectRight(cum[1..], x)
  }

  /** Where the weighted draw `x` lands in a pool of `n` items. */
  function WeightedIndex(n: nat, x: nat): nat {
    BisectRight(Accumulate(Weights(n)), x)
  }

  /** Walking a tail of the triangle numbers from `Triangle(base + 1)` on
      stops at the slot holding `x`. */
  lemma {:induction false} BisectTriangles(cum: seq<nat>, base: nat, x: nat)
    requires forall j :: 0 <= j < |cum| ==> cum[j] == Triangle(base + j + 1)
    requires Triangle(base) <= x < Triangle(base + |cum|)
    ensures BisectRight(cum, x) < |cum|
    ensures Triangle(base + BisectRight(cum, x)) <= x < Triangle(base + BisectRight(cum, x) + 1)
  {
    if x >= cum[0] {
      BisectTriangles(cum[1..], base + 1, x);
    }
  }

  /** A draw below the total weight picks a position of the pool, namely
      the one whose slot `[Triangle(i), Triangle(i + 1))` holds it. */
  lemma WeightedSlot(n: nat, x: nat)
    requires x < Triangle(n)
    ensures WeightedIndex(n, x) < n
    ensures Triangle(WeightedIndex(n, x)) <= x < Triangle(WeightedIndex(n, x) + 1)
  {
    AccumulateWeights(n);
    BisectTriangles(Accumulate(Weights(n)), 0, x);
  }

  /** Position `i` is chosen exactly by the draws in its slot. */
  lemma WeightedIndexIff(n: nat, x: nat, i: nat)
    requires x < Triangle(n) && i < n
    ensures WeightedIndex(n, x) == i <==> Triangle(i) <= x < Triangle(i + 1)
  {
    WeightedSlot(n, x);
    var k := WeightedIndex(n, x);
    if k < i {
      TriangleMonotone(k + 1, i);
    } else if i < k {
      TriangleMonotone(i + 1, k);
    }
  }

  /** The number of draws below `bound` that choose position `i`. */
  function Hits(n: nat, i: nat, bound: nat): nat {
    if bound == 0 then 0
    else Hits(n, i, bound - 1) + (if WeightedIndex(n, bound - 1) == i then 1 else 0)
  }

  lemma {:induction false} HitsBelow(n: nat, i: nat, bound: nat)
    requires i < n && bound <= Triangle(n)
    ensures Hits(n, i, bound) == if bound <= Triangle(i) then 0
                                 else if bound <= Triangle(i + 1) then bound - Triangle(i)
                                 else i + 1
  {
    if bound > 0 {
      HitsBelow(n, i, bound - 1);
      WeightedIndexIff(n, bound - 1, i);
    }
  }

  /** Weight `i + 1` for position `i`: of the `Triangle(n)` equally likely
      draws, exactly `i + 1` choose it, so later items are favoured. */
  lemma WeightedHits(n: nat, i: nat)
    requires i < n
    ensures Hits(n, i, Triangle(n)) == i + 1
  {
    TriangleMonotone(i + 1, n);
    HitsBelow(n, i, Triangle(n));
  }

  /** The item `random.choices(pool, weights=[1..n])` or `random.choice(pool)`
      returns: the weighted pick is the item whose slot holds the draw, so by
      `WeightedHits` the item at position `i` is chosen by `i + 1` of the
      `Triangle(|pool|)` draws; the plain pick is uniform. */
  function Pick<T>(pool: seq<T>, weighted: bool, draw: nat): (x: T)
    requires pool != []
    ensures x in pool
    ensures weighted ==> var i := WeightedIndex(|pool|, draw % Triangle(|pool|));
      && i < |pool| && x == pool[i]
      && Triangle(i) <= draw % Triangle(|pool|) < Triangle(i + 1)
    ensures !weighted ==> x == pool[draw % |pool|]
  {
    var n := |pool|;
    if weighted then
      TriangleMonotone(1, n);
      WeightedSlot(n, draw % Triangle(n));
      pool[WeightedIndex(n, draw % Triangle(n))]
    else
      pool[draw % n]
  }
}
