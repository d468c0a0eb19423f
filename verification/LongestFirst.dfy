/** Longest-first greedy scheduling: jobs in decreasing size, each to a machine of
    least load. A placement is a sequence `at`: job `j` runs on machine `at[j]`. */
module LongestFirst {

  /** The load machine `q` carries from the first `k` jobs. */
  ghost function Load(sizes: seq<nat>, at: seq<nat>, q: nat, k: nat): nat
    requires k <= |sizes| && k <= |at|
  {
    if k == 0 then 0
    else Load(sizes, at, q, k - 1) + if at[k - 1] == q then sizes[k - 1] else 0
  }

  ghost function Total(sizes: seq<nat>, k: nat): nat
    requires k <= |sizes|
  {
    if k == 0 then 0 else Total(sizes, k - 1) + sizes[k - 1]
  }

  /** The loads of machines `0..m` added up. */
  ghost function SumLoads(sizes: seq<nat>, at: seq<nat>, m: nat, k: nat): nat
    requires k <= |sizes| && k <= |at|
  {
    if m == 0 then 0 else SumLoads(sizes, at, m - 1, k) + Load(sizes, at, m - 1, k)
  }

  ghost predicate Placement(at: seq<nat>, m: nat) {
    forall j :: 0 <= j < |at| ==> at[j] < m
  }

  /** Every job went to a machine that was lightest when it was placed. */
  ghost predicate Greedy(sizes: seq<nat>, at: seq<nat>, m: nat) {
    && |at| == |sizes|
    && Placement(at, m)
    && forall j :: 0 <= j < |at| ==> AtLeast(sizes, at, m, j, Load(sizes, at, at[j], j))
  }

  /** Each of the `m` machines carries at most `bound` of the first `k` jobs. */
  ghost predicate AtMost(sizes: seq<nat>, at: seq<nat>, m: nat, k: nat, bound: nat)
    requires k <= |sizes| && k <= |at|
  {
    forall q :: 0 <= q < m ==> Load(sizes, at, q, k) <= bound
  }

  ghost predicate AtLeast(sizes: seq<nat>, at: seq<nat>, m: nat, k: nat, bound: nat)
    requires k <= |sizes| && k <= |at|
  {
    forall q :: 0 <= q < m ==> Load(sizes, at, q, k) >= bound
  }

  ghost predicate Decreasing(sizes: seq<nat>) {
    forall i, j :: 0 <= i < j < |sizes| ==> sizes[i] >= sizes[j]
  }

  // ── Counting ───────────────────────────────────────────────────────────────

  lemma {:induction false} SumLoadsStep(sizes: seq<nat>, at: seq<nat>, m: nat, k: nat)
    requires 0 < k <= |sizes| && k <= |at|
    ensures SumLoads(sizes, at, m, k)
         == SumLoads(sizes, at, m, k - 1) + if at[k - 1] < m then sizes[k - 1] else 0
  {
    if m > 0 { SumLoadsStep(sizes, at, m - 1, k); }
  }

  /** No job is lost or counted twice: the loads add up to the work. */
  lemma {:induction false} LoadsAddUp(sizes: seq<nat>, at: seq<nat>, m: nat, k: nat)
    requires k <= |sizes| && k <= |at| && Placement(at, m)
    ensures SumLoads(sizes, at, m, k) == Total(sizes, k)
  {
    if k == 0 {
      NothingPlaced(sizes, at, m);
    } else {
      LoadsAddUp(sizes, at, m, k - 1);
      SumLoadsStep(sizes, at, m, k);
    }
  }

  lemma NothingPlaced(sizes: seq<nat>, at: seq<nat>, m: nat)
    ensures SumLoads(sizes, at, m, 0) == 0
  {
  }

  lemma {:induction false} SumLoadsAtMost(sizes: seq<nat>, at: seq<nat>, m: nat, k: nat, bound: nat)
    requires k <= |sizes| && k <= |at| && AtMost(sizes, at, m, k, bound)
    ensures SumLoads(sizes, at, m, k) <= m * bound
  {
    if m > 0 {
      SumLoadsAtMost(sizes, at, m - 1, k, bound);
      assert m * bound == (m - 1) * bound + bound;
    }
  }

  lemma {:induction false} SumLoadsAtLeast(sizes: seq<nat>, at: seq<nat>, m: nat, k: nat, bound: nat)
    requires k <= |sizes| && k <= |at| && AtLeast(sizes, at, m, k, bound)
    ensures SumLoads(sizes, at, m, k) >= m * bound
  {
    if m > 0 {
      SumLoadsAtLeast(sizes, at, m - 1, k, bound);
      assert m * bound == (m - 1) * bound + bound;
    }
  }

  lemma {:induction false} TotalMonotone(sizes: seq<nat>, k: nat, n: nat)
    requires k <= n <= |sizes|
    ensures Total(sizes, k) <= Total(sizes, n)
  {
    if k < n { TotalMonotone(sizes, k, n - 1); }
  }

  lemma {:induction false} LoadMonotone(sizes: seq<nat>, at: seq<nat>, q: nat, k: nat, n: nat)
    requires k <= n <= |sizes| && n <= |at|
    ensures Load(sizes, at, q, k) <= Load(sizes, at, q, n)
  {
    if k < n { LoadMonotone(sizes, at, q, k, n - 1); }
  }

  // ── The last job on a machine ──────────────────────────────────────────────

  /** `l` is the last of the first `n` jobs placed on `q`. */
  ghost predicate LastOn(at: seq<nat>, q: nat, n: nat, l: nat) {
    && l < n <= |at|
    && at[l] == q
    && forall j :: l < j < n ==> at[j] != q
  }

  lemma {:induction false} LastOnExists(sizes: seq<nat>, at: seq<nat>, q: nat, n: nat) returns (l: nat)
    requires n <= |sizes| && n <= |at| && Load(sizes, at, q, n) > 0
    ensures LastOn(at, q, n, l)
    ensures Load(sizes, at, q, n) == Load(sizes, at, q, l) + sizes[l]
  {
    if at[n - 1] == q {
      l := n - 1;
    } else {
      l := LastOnExists(sizes, at, q, n - 1);
    }
  }

  lemma {:induction false} LoadAfterLast(sizes: seq<nat>, at: seq<nat>, q: nat, n: nat, l: nat)
    requires n <= |sizes| && LastOn(at, q, n, l)
    ensures Load(sizes, at, q, n) == Load(sizes, at, q, l) + sizes[l]
    decreases n
  {
    if l < n - 1 { LoadAfterLast(sizes, at, q, n - 1, l); }
  }

  /** The stepping stone: m·heaviest <= total + (m-1)·(last job placed on it), for
      any job order. */
  lemma LastJobBound(sizes: seq<nat>, at: seq<nat>, m: nat, h: nat, l: nat)
    requires m >= 1 && Greedy(sizes, at, m) && LastOn(at, h, |sizes|, l)
    ensures m * Load(sizes, at, h, |sizes|) <= Total(sizes, |sizes|) + (m - 1) * sizes[l]
  {
    hide Load, SumLoads, Placement;
    LoadAfterLast(sizes, at, h, |sizes|, l);
    var before := Load(sizes, at, h, l);
    SumLoadsAtLeast(sizes, at, m, l, before);
    LoadsAddUp(sizes, at, m, l);
    TotalMonotone(sizes, l + 1, |sizes|);
  }

  // ── Large last job: the greedy placement is optimal ────────────────────────

  /** A job that cannot share a machine with a job of size `s` under `bound` weighs 2. */
  ghost function Weights(sizes: seq<nat>, s: nat, bound: nat): (w: seq<nat>)
    ensures |w| == |sizes|
  {
    seq(|sizes|, i requires 0 <= i < |sizes| => if sizes[i] + s > bound then 2 else 1)
  }

  ghost function Count(at: seq<nat>, q: nat, k: nat): nat
    requires k <= |at|
  {
    if k == 0 then 0 else Count(at, q, k - 1) + if at[k - 1] == q then 1 else 0
  }

  /** What load and weight say about each other on one machine when every job is
      at least `s` and three of them exceed `bound`. */
  lemma {:induction false} MachineWeight(sizes: seq<nat>, at: seq<nat>, q: nat, k: nat, s: nat, bound: nat)
    requires k <= |sizes| && k <= |at| && s <= bound < 3 * s
    requires forall j :: 0 <= j < k ==> sizes[j] >= s
    ensures var load, weight, count :=
              Load(sizes, at, q, k), Load(Weights(sizes, s, bound), at, q, k), Count(at, q, k);
            && weight >= count
            && load >= count * s
            && (count == 0 ==> load == 0 && weight == 0)
            && (count == 1 ==> weight == if load + s > bound then 2 else 1)
            && (count == 2 && weight > 2 ==> load > bound)
  {
    if k > 0 {
      MachineWeight(sizes, at, q, k - 1, s, bound);
      if at[k - 1] == q {
        var count := Count(at, q, k - 1);
        assert (count + 1) * s == count * s + s;
      }
    }
  }

  /** A machine within `bound` weighs at most 2; one that cannot take a job of
      size `s` weighs at least 2. */
  lemma MachineWeightBounds(sizes: seq<nat>, at: seq<nat>, q: nat, k: nat, s: nat, bound: nat)
    requires k <= |sizes| && k <= |at| && s <= bound < 3 * s
    requires forall j :: 0 <= j < k ==> sizes[j] >= s
    ensures Load(sizes, at, q, k) <= bound ==> Load(Weights(sizes, s, bound), at, q, k) <= 2
    ensures Load(sizes, at, q, k) + s > bound ==> Load(Weights(sizes, s, bound), at, q, k) >= 2
  {
    MachineWeight(sizes, at, q, k, s, bound);
    var count := Count(at, q, k);
    if count >= 3 { assert count * s >= 3 * s; }
  }

  /** If `other` fits the first `l + 1` jobs under `bound` and the last of them is
      more than a third of it, some machine still has room for job `l` in any
      placement of the first `l`. */
  lemma RoomForLargeJob(sizes: seq<nat>, at: seq<nat>, other: seq<nat>, m: nat, l: nat, bound: nat)
    requires l < |sizes| && |at| == |other| == |sizes| && Decreasing(sizes)
    requires Placement(at, m) && Placement(other, m)
    requires AtMost(sizes, other, m, l + 1, bound) && bound < 3 * sizes[l]
    ensures sizes[l] <= bound && !AtLeast(sizes, at, m, l, bound - sizes[l] + 1)
  {
    var s := sizes[l];
    LoadAfterLast(sizes, other, other[l], l + 1, l);
    if AtLeast(sizes, at, m, l, bound - s + 1) {
      var w := Weights(sizes, s, bound);
      forall q | 0 <= q < m ensures Load(w, at, q, l) >= 2 {
        MachineWeightBounds(sizes, at, q, l, s, bound);
      }
      var k := l + 1;
      forall q | 0 <= q < m ensures Load(w, other, q, k) <= 2 {
        MachineWeightBounds(sizes, other, q, k, s, bound);
      }
      SumLoadsAtLeast(w, at, m, l, 2);
      LoadsAddUp(w, at, m, l);
      SumLoadsAtMost(w, other, m, l + 1, 2);
      LoadsAddUp(w, other, m, l + 1);
      assert false;
    }
  }

  // ── The approximation bound ────────────────────────────────────────────────

  lemma SmallLastJob(m: nat, heavy: nat, total: nat, s: nat, best: nat)
    requires m >= 1 && m * heavy <= total + (m - 1) * s && total <= m * best && 3 * s <= best
    ensures 3 * m * heavy <= (4 * m - 1) * best
  {
    assert (m - 1) * (3 * s) <= (m - 1) * best;
    assert 3 * (m * heavy) <= 3 * (m * best) + (m - 1) * best;
  }

  /** A machine whose last job is over a third of the bound stays within the bound. */
  lemma LargeLastOptimal(sizes: seq<nat>, at: seq<nat>, other: seq<nat>, m: nat, h: nat, l: nat, best: nat)
    requires Decreasing(sizes) && Greedy(sizes, at, m) && LastOn(at, h, |sizes|, l)
    requires |other| == |sizes| && Placement(other, m)
    requires AtMost(sizes, other, m, |sizes|, best) && best < 3 * sizes[l]
    ensures Load(sizes, at, h, |sizes|) <= best
  {
    hide Load, Decreasing;
    var k := l + 1;
    forall q | 0 <= q < m ensures Load(sizes, other, q, k) <= best {
      LoadMonotone(sizes, other, q, k, |sizes|);
    }
    RoomForLargeJob(sizes, at, other, m, l, best);
    LoadAfterLast(sizes, at, h, |sizes|, l);
  }

  lemma LargeLastJob(m: nat, heavy: nat, best: nat)
    requires m >= 1 && heavy <= best
    ensures 3 * m * heavy <= (4 * m - 1) * best
  {
    assert (4 * m - 1) * best == 3 * m * best + (m - 1) * best;
  }

  /** Longest-first greedy is within (4m-1)/(3m) of every placement of the same jobs. */
  lemma ApproximationBound(sizes: seq<nat>, at: seq<nat>, other: seq<nat>, m: nat, h: nat, best: nat)
    requires m >= 1 && h < m && Decreasing(sizes) && Greedy(sizes, at, m)
    requires |other| == |sizes| && Placement(other, m)
    requires AtMost(sizes, other, m, |sizes|, best)
    ensures 3 * m * Load(sizes, at, h, |sizes|) <= (4 * m - 1) * best
  {
    hide Load, Total, Decreasing, AtLeast;
    var heavy := Load(sizes, at, h, |sizes|);
    if heavy > 0 {
      var l := LastOnExists(sizes, at, h, |sizes|);
      if 3 * sizes[l] <= best {
        LastJobBound(sizes, at, m, h, l);
        SumLoadsAtMost(sizes, other, m, |sizes|, best);
        LoadsAddUp(sizes, other, m, |sizes|);
        SmallLastJob(m, heavy, Total(sizes, |sizes|), sizes[l], best);
      } else {
        LargeLastOptimal(sizes, at, other, m, h, l, best);
        LargeLastJob(m, heavy, best);
      }
    } else {
      assert (4 * m - 1) * best >= 0;
    }
  }
}
