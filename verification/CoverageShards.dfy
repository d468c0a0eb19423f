/** The Coverage job's shard planner (scripts/coverage_shards.py). */
module CoverageShards {
  import opened Sequences
  import opened Sorting
  import LF = LongestFirst

  const CLI := "faucet-cli"

  /** A workspace package and its integration-test target names. */
  datatype Package = Package(name: string, tests: seq<string>)

  ghost predicate DistinctNames(targets: seq<Package>) {
    forall i, j :: 0 <= i < j < |targets| ==> targets[i].name != targets[j].name
  }

  function NonCli(targets: seq<Package>): (r: seq<Package>)
    ensures forall p :: p in r ==> p in targets && p.name != CLI
  {
    if targets == [] then []
    else (if targets[0].name != CLI then [targets[0]] else []) + NonCli(targets[1..])
  }

  /** The sort key `(-len(targets[p]), p)`. */
  predicate LargerFirst(a: Package, b: Package) {
    |a.tests| > |b.tests| || (|a.tests| == |b.tests| && StringLe(a.name, b.name))
  }

  lemma LargerFirstTotal()
    ensures TotalOrder(LargerFirst)
  {
    forall x: Package, y: Package ensures LargerFirst(x, y) || LargerFirst(y, x) {
      StringLeTotal(x.name, y.name);
    }
    forall x: Package, y: Package, z: Package | LargerFirst(x, y) && LargerFirst(y, z)
      ensures LargerFirst(x, z)
    {
      if StringLe(x.name, y.name) && StringLe(y.name, z.name) {
        StringLeTransitive(x.name, y.name, z.name);
      }
    }
  }

  // ── Sums ───────────────────────────────────────────────────────────────────

  ghost function Sum<T>(xs: seq<T>, f: T -> nat): nat {
    if xs == [] then 0 else Sum(xs[..|xs| - 1], f) + f(xs[|xs| - 1])
  }

  lemma {:induction false} SumConcat<T>(xs: seq<T>, ys: seq<T>, f: T -> nat)
    ensures Sum(xs + ys, f) == Sum(xs, f) + Sum(ys, f)
  {
    if ys == [] {
      assert xs + ys == xs;
    } else {
      var init := ys[..|ys| - 1];
      SumConcat(xs, init, f);
      assert (xs + ys)[..|xs + ys| - 1] == xs + init;
    }
  }

  /** A sum does not depend on the order of its terms. */
  lemma {:induction false} SumPermutation<T>(xs: seq<T>, ys: seq<T>, f: T -> nat)
    requires multiset(xs) == multiset(ys)
    ensures Sum(xs, f) == Sum(ys, f)
    decreases |xs|
  {
    if xs == [] {
      assert |multiset(ys)| == 0;
    } else {
      var x := xs[|xs| - 1];
      var left, right := DropLast(xs, ys);
      SumPermutation(xs[..|xs| - 1], left + right, f);
      SumConcat(left, right, f);
      SumConcat(left + [x], right, f);
      SumConcat(left, [x], f);
    }
  }

  // ── Shards ─────────────────────────────────────────────────────────────────

  function Names(pkgs: seq<Package>): (r: seq<string>)
    ensures |r| == |pkgs|
    ensures forall i :: 0 <= i < |pkgs| ==> r[i] == pkgs[i].name
  {
    seq(|pkgs|, i requires 0 <= i < |pkgs| => pkgs[i].name)
  }

  /** How many test targets a package name stands for. */
  ghost function SizeOf(targets: seq<Package>, name: string): nat {
    if targets == [] then 0
    else if targets[0].name == name then |targets[0].tests|
    else SizeOf(targets[1..], name)
  }

  lemma {:induction false} SizeOfMember(targets: seq<Package>, p: Package)
    requires p in targets && DistinctNames(targets)
    ensures SizeOf(targets, p.name) == |p.tests|
  {
    if targets[0] != p {
      assert p in targets[1..];
      SizeOfMember(targets[1..], p);
    }
  }

  ghost function SizeIn(targets: seq<Package>): string -> nat {
    name => SizeOf(targets, name)
  }

  /** The test targets a shard runs. */
  ghost function Work(targets: seq<Package>, shard: seq<string>): nat {
    Sum(shard, SizeIn(targets))
  }

  /** Everything the shards run, with multiplicity. */
  ghost function Contents(shards: seq<seq<string>>): multiset<string> {
    if shards == [] then multiset{}
    else Contents(shards[..|shards| - 1]) + multiset(shards[|shards| - 1])
  }

  lemma {:induction false} ContentsAppend(shards: seq<seq<string>>, i: nat, name: string)
    requires i < |shards|
    ensures Contents(shards[i := shards[i] + [name]]) == Contents(shards) + multiset{name}
  {
    var n := |shards| - 1;
    var after := shards[i := shards[i] + [name]];
    if i == n {
      assert after[..n] == shards[..n];
    } else {
      ContentsAppend(shards[..n], i, name);
      assert after[..n] == shards[..n][i := shards[..n][i] + [name]];
    }
  }

  lemma {:induction false} ContentsSame(a: seq<seq<string>>, b: seq<seq<string>>)
    requires |a| == |b| && forall i :: 0 <= i < |a| ==> multiset(a[i]) == multiset(b[i])
    ensures Contents(a) == Contents(b)
  {
    if a != [] { ContentsSame(a[..|a| - 1], b[..|b| - 1]); }
  }

  lemma {:induction false} ContentsEmpty(shards: seq<seq<string>>)
    requires forall i :: 0 <= i < |shards| ==> shards[i] == []
    ensures Contents(shards) == multiset{}
  {
    if shards != [] { ContentsEmpty(shards[..|shards| - 1]); }
  }

  // ── Any other way of splitting the same packages ───────────────────────────

  /** `other` sends every package except the CLI to one of `count` shards. */
  ghost predicate Assignment(targets: seq<Package>, other: map<string, nat>, count: nat) {
    forall p :: p in targets && p.name != CLI ==> p.name in other && other[p.name] < count
  }

  ghost function Share(other: map<string, nat>, q: nat): Package -> nat {
    (p: Package) => if p.name != CLI && p.name in other && other[p.name] == q then |p.tests| else 0
  }

  /** No shard of `other` runs more than `best` test targets. */
  ghost predicate Within(targets: seq<Package>, other: map<string, nat>, count: nat, best: nat) {
    forall q :: 0 <= q < count ==> Sum(targets, Share(other, q)) <= best
  }

  lemma {:induction false} NonCliSum(targets: seq<Package>, other: map<string, nat>, q: nat)
    ensures Sum(NonCli(targets), Share(other, q)) == Sum(targets, Share(other, q))
  {
    if targets != [] {
      var f := Share(other, q);
      var head := if targets[0].name != CLI then [targets[0]] else [];
      NonCliSum(targets[1..], other, q);
      SumConcat(head, NonCli(targets[1..]), f);
      SumConcat([targets[0]], targets[1..], f);
      assert targets == [targets[0]] + targets[1..];
    }
  }

  ghost function Sizes(pkgs: seq<Package>): (r: seq<nat>)
    ensures |r| == |pkgs|
  {
    seq(|pkgs|, i requires 0 <= i < |pkgs| => |pkgs[i].tests|)
  }

  ghost function PlacementOf(pkgs: seq<Package>, other: map<string, nat>): (at: seq<nat>)
    requires forall p :: p in pkgs ==> p.name in other
    ensures |at| == |pkgs|
  {
    seq(|pkgs|, i requires 0 <= i < |pkgs| => other[pkgs[i].name])
  }

  lemma {:induction false} ShareIsLoad(pkgs: seq<Package>, other: map<string, nat>, q: nat, k: nat)
    requires k <= |pkgs| && forall p :: p in pkgs ==> p.name in other && p.name != CLI
    ensures Sum(pkgs[..k], Share(other, q)) == LF.Load(Sizes(pkgs), PlacementOf(pkgs, other), q, k)
  {
    if k > 0 {
      ShareIsLoad(pkgs, other, q, k - 1);
      assert pkgs[..k][..k - 1] == pkgs[..k - 1];
      assert pkgs[k - 1] in pkgs;
    }
  }

  /** `heavy` is at most (4m-1)/(3m) of `best`. */
  ghost predicate WithinRatio(m: nat, heavy: nat, best: nat) {
    3 * m * heavy <= (4 * m - 1) * best
  }

  /** Longest-first bound, transported to packages in any order. */
  lemma BoundForPackages(targets: seq<Package>, pkgs: seq<Package>, at: seq<nat>, count: nat, h: nat,
                         other: map<string, nat>, best: nat)
    requires h < count && pkgs == Sort(NonCli(targets), LargerFirst)
    requires LF.Greedy(Sizes(pkgs), at, count)
    requires Assignment(targets, other, count) && Within(targets, other, count, best)
    ensures WithinRatio(count, LF.Load(Sizes(pkgs), at, h, |pkgs|), best)
  {
    SortedSizesDecrease(NonCli(targets));
    forall p | p in pkgs ensures p in targets && p.name != CLI {
      MultisetMember(pkgs, NonCli(targets), p);
    }
    var alt := PlacementOf(pkgs, other);
    assert LF.Placement(alt, count) by {
      assert forall i :: 0 <= i < |pkgs| ==> pkgs[i] in pkgs;
    }
    forall q | 0 <= q < count ensures LF.Load(Sizes(pkgs), alt, q, |pkgs|) <= best {
      ShareOfSorted(targets, pkgs, other, q);
    }
    LF.ApproximationBound(Sizes(pkgs), at, alt, count, h, best);
  }

  lemma SortedSizesDecrease(pkgs: seq<Package>)
    ensures LF.Decreasing(Sizes(Sort(pkgs, LargerFirst)))
  {
    LargerFirstTotal();
    SortSorted(pkgs, LargerFirst);
  }

  lemma ShareOfSorted(targets: seq<Package>, pkgs: seq<Package>, other: map<string, nat>, q: nat)
    requires multiset(pkgs) == multiset(NonCli(targets))
    requires forall p :: p in pkgs ==> p.name in other && p.name != CLI
    ensures LF.Load(Sizes(pkgs), PlacementOf(pkgs, other), q, |pkgs|) == Sum(targets, Share(other, q))
  {
    ShareIsLoad(pkgs, other, q, |pkgs|);
    assert pkgs[..|pkgs|] == pkgs;
    SumPermutation(pkgs, NonCli(targets), Share(other, q));
    NonCliSum(targets, other, q);
  }

  // ── plan_libs ──────────────────────────────────────────────────────────────

  /** `min(range(count), key=lambda k: (load[k], k))`. */
  method LightestShard(load: array<nat>) returns (i: nat)
    requires load.Length > 0
    ensures i < load.Length
    ensures forall q :: 0 <= q < load.Length ==> load[i] <= load[q]
    ensures forall q :: 0 <= q < i ==> load[i] < load[q]
  {
    i := 0;
    for k := 1 to load.Length
      invariant i < k <= load.Length
      invariant forall q :: 0 <= q < k ==> load[i] <= load[q]
      invariant forall q :: 0 <= q < i ==> load[i] < load[q]
    {
      if load[k] < load[i] { i := k; }
    }
  }

  /** Every job so far went to a lightest machine. */
  ghost predicate GreedySoFar(sizes: seq<nat>, at: seq<nat>, count: nat)
    requires |at| <= |sizes|
  {
    && LF.Placement(at, count)
    && forall j :: 0 <= j < |at| ==> LF.AtLeast(sizes, at, count, j, LF.Load(sizes, at, at[j], j))
  }

  /** `load` is what the shards carry, counted by placement and by content. */
  ghost predicate LoadsMatch(sizes: seq<nat>, at: seq<nat>, targets: seq<Package>,
                             parts: seq<seq<string>>, load: seq<nat>)
    requires |at| <= |sizes|
  {
    && |parts| == |load|
    && forall q :: 0 <= q < |load| ==>
         load[q] == LF.Load(sizes, at, q, |at|) && load[q] == Work(targets, parts[q])
  }

  lemma GreedyNext(sizes: seq<nat>, at: seq<nat>, count: nat, i: nat)
    requires |at| < |sizes| && i < count && GreedySoFar(sizes, at, count)
    requires LF.AtLeast(sizes, at, count, |at|, LF.Load(sizes, at, i, |at|))
    ensures GreedySoFar(sizes, at + [i], count)
  {
    hide LF.Load;
    var at' := at + [i];
    forall j | 0 <= j < |at'|
      ensures LF.AtLeast(sizes, at', count, j, LF.Load(sizes, at', at'[j], j))
    {
      LoadPrefix(sizes, at, i, at'[j], j);
      assert LF.AtLeast(sizes, at, count, j, LF.Load(sizes, at, at'[j], j));
      forall q | 0 <= q < count ensures LF.Load(sizes, at', q, j) >= LF.Load(sizes, at', at'[j], j) {
        LoadPrefix(sizes, at, i, q, j);
      }
    }
  }

  lemma WorkAppend(targets: seq<Package>, part: seq<string>, name: string)
    ensures Work(targets, part + [name]) == Work(targets, part) + SizeOf(targets, name)
  {
    assert (part + [name])[..|part + [name]| - 1] == part;
  }

  lemma LoadsNext(sizes: seq<nat>, at: seq<nat>, targets: seq<Package>,
                  parts: seq<seq<string>>, load: seq<nat>, i: nat, name: string)
    requires |at| < |sizes| && i < |load| && LoadsMatch(sizes, at, targets, parts, load)
    requires SizeOf(targets, name) == sizes[|at|]
    ensures LoadsMatch(sizes, at + [i], targets,
                       parts[i := parts[i] + [name]], load[i := load[i] + sizes[|at|]])
  {
    WorkAppend(targets, parts[i], name);
    forall q | 0 <= q < |load|
      ensures LF.Load(sizes, at + [i], q, |at| + 1) == load[q] + if q == i then sizes[|at|] else 0
    {
      LoadPrefix(sizes, at, i, q, |at|);
    }
  }

  lemma NamesNext(pkgs: seq<Package>, k: nat)
    requires k < |pkgs|
    ensures Names(pkgs[..k + 1]) == Names(pkgs[..k]) + [pkgs[k].name]
  {
  }

  /** What the placement loop keeps after placing `pkgs[..k]` as `at` says. */
  ghost predicate Placed(targets: seq<Package>, pkgs: seq<Package>, at: seq<nat>, k: nat,
                         parts: seq<seq<string>>, load: seq<nat>)
    requires k <= |pkgs|
  {
    && |at| == k
    && GreedySoFar(Sizes(pkgs), at, |load|)
    && LoadsMatch(Sizes(pkgs), at, targets, parts, load)
    && Contents(parts) == multiset(Names(pkgs[..k]))
  }

  lemma PlacedNext(targets: seq<Package>, pkgs: seq<Package>, at: seq<nat>, k: nat,
                   parts: seq<seq<string>>, load: seq<nat>, i: nat)
    requires k < |pkgs| && i < |load| && Placed(targets, pkgs, at, k, parts, load)
    requires SizeOf(targets, pkgs[k].name) == |pkgs[k].tests|
    requires forall q :: 0 <= q < |load| ==> load[i] <= load[q]
    ensures Placed(targets, pkgs, at + [i], k + 1,
                   parts[i := parts[i] + [pkgs[k].name]], load[i := load[i] + |pkgs[k].tests|])
  {
    GreedyNext(Sizes(pkgs), at, |load|, i);
    LoadsNext(Sizes(pkgs), at, targets, parts, load, i, pkgs[k].name);
    ContentsAppend(parts, i, pkgs[k].name);
    NamesNext(pkgs, k);
  }

  lemma PlacedNone(targets: seq<Package>, pkgs: seq<Package>, parts: seq<seq<string>>, load: seq<nat>)
    requires |parts| == |load|
    requires forall q :: 0 <= q < |load| ==> parts[q] == [] && load[q] == 0
    ensures Placed(targets, pkgs, [], 0, parts, load)
  {
    ContentsEmpty(parts);
  }

  lemma PlacedAll(targets: seq<Package>, pkgs: seq<Package>, at: seq<nat>,
                  parts: seq<seq<string>>, load: seq<nat>)
    requires Placed(targets, pkgs, at, |pkgs|, parts, load)
    ensures LF.Greedy(Sizes(pkgs), at, |load|)
    ensures forall q :: 0 <= q < |load| ==> Work(targets, parts[q]) == LF.Load(Sizes(pkgs), at, q, |pkgs|)
    ensures Contents(parts) == multiset(Names(pkgs))
  {
    assert pkgs[..|pkgs|] == pkgs;
  }

  /** Of the lightest shards each package went to the first. */
  ghost predicate Lowest(sizes: seq<nat>, at: seq<nat>)
    requires |at| <= |sizes|
  {
    forall j :: 0 <= j < |at| ==> LowestAt(sizes, at, j)
  }

  ghost predicate LowestAt(sizes: seq<nat>, at: seq<nat>, j: nat)
    requires j < |at| <= |sizes|
  {
    forall q :: 0 <= q < at[j] ==> LF.Load(sizes, at, at[j], j) < LF.Load(sizes, at, q, j)
  }

  /** The names placed on shard `q` among the first `k`, in order. */
  ghost function On(pkgs: seq<Package>, at: seq<nat>, q: nat, k: nat): seq<string>
    requires k <= |pkgs| && k <= |at|
  {
    if k == 0 then [] else On(pkgs, at, q, k - 1) + if at[k - 1] == q then [pkgs[k - 1].name] else []
  }

  /** The shards hold exactly what was placed on them, each package on the first of
      the lightest. */
  ghost predicate Exactly(pkgs: seq<Package>, at: seq<nat>, parts: seq<seq<string>>) {
    && |at| <= |pkgs| && Lowest(Sizes(pkgs), at)
    && forall q :: 0 <= q < |parts| ==> parts[q] == On(pkgs, at, q, |at|)
  }

  lemma {:induction false} OnPrefix(pkgs: seq<Package>, at: seq<nat>, i: nat, q: nat, k: nat)
    requires k <= |at| < |pkgs|
    ensures On(pkgs, at + [i], q, k) == On(pkgs, at, q, k)
  {
    if k > 0 { OnPrefix(pkgs, at, i, q, k - 1); }
  }

  lemma LowestNext(sizes: seq<nat>, at: seq<nat>, i: nat)
    requires |at| < |sizes| && Lowest(sizes, at)
    requires forall q :: 0 <= q < i ==> LF.Load(sizes, at, i, |at|) < LF.Load(sizes, at, q, |at|)
    ensures Lowest(sizes, at + [i])
  {
    hide LF.Load;
    var next := at + [i];
    forall j | 0 <= j < |next| ensures LowestAt(sizes, next, j) {
      LoadPrefix(sizes, at, i, next[j], j);
      if j < |at| { assert LowestAt(sizes, at, j); }
      forall q | 0 <= q < next[j] ensures LF.Load(sizes, next, next[j], j) < LF.Load(sizes, next, q, j) {
        LoadPrefix(sizes, at, i, q, j);
      }
    }
  }

  lemma ExactlyNone(pkgs: seq<Package>, parts: seq<seq<string>>)
    requires forall q :: 0 <= q < |parts| ==> parts[q] == []
    ensures Exactly(pkgs, [], parts)
  {
  }

  lemma ExactlyNext(targets: seq<Package>, pkgs: seq<Package>, at: seq<nat>, k: nat,
                    parts: seq<seq<string>>, load: seq<nat>, i: nat)
    requires k < |pkgs| && i < |load| && Placed(targets, pkgs, at, k, parts, load) && Exactly(pkgs, at, parts)
    requires forall q :: 0 <= q < i ==> load[i] < load[q]
    ensures Exactly(pkgs, at + [i], parts[i := parts[i] + [pkgs[k].name]])
  {
    hide LF.Load, Work, Contents, GreedySoFar, Names;
    LowestNext(Sizes(pkgs), at, i);
    var next := parts[i := parts[i] + [pkgs[k].name]];
    forall q | 0 <= q < |parts| ensures next[q] == On(pkgs, at + [i], q, |at| + 1) {
      OnPrefix(pkgs, at, i, q, |at|);
    }
  }

  /** Append `pkg` to shard `i` and count its test targets there. */
  method Give(shards: array<seq<string>>, load: array<nat>, i: nat, pkg: Package)
    requires i < shards.Length == load.Length
    modifies shards, load
    ensures shards[..] == old(shards[..])[i := old(shards[i]) + [pkg.name]]
    ensures load[..] == old(load[..])[i := old(load[i]) + |pkg.tests|]
  {
    shards[i] := shards[i] + [pkg.name];
    load[i] := load[i] + |pkg.tests|;
  }

  /** Give each package in turn to the lightest shard. */
  method PlaceAll(targets: seq<Package>, pkgs: seq<Package>, count: nat)
    returns (parts: seq<seq<string>>, ghost at: seq<nat>)
    requires count >= 1
    requires forall p :: p in pkgs ==> SizeOf(targets, p.name) == |p.tests|
    ensures |parts| == count && LF.Greedy(Sizes(pkgs), at, count)
    ensures forall q :: 0 <= q < count ==> Work(targets, parts[q]) == LF.Load(Sizes(pkgs), at, q, |pkgs|)
    ensures Contents(parts) == multiset(Names(pkgs))
    ensures |at| == |pkgs| && Exactly(pkgs, at, parts)
  {
    hide SizeOf, Work, Contents, LF.Greedy, LF.Load, Sizes, Names, LoadsMatch, GreedySoFar, Lowest, Exactly;
    var shards := new seq<string>[count](_ => []);
    var load := new nat[count](_ => 0);
    at := [];
    PlacedNone(targets, pkgs, shards[..], load[..]);
    ExactlyNone(pkgs, shards[..]);
    for k := 0 to |pkgs|
      invariant Placed(targets, pkgs, at, k, shards[..], load[..])
      invariant Exactly(pkgs, at, shards[..])
    {
      var i := LightestShard(load);
      ExactlyNext(targets, pkgs, at, k, shards[..], load[..], i);
      PlacedNext(targets, pkgs, at, k, shards[..], load[..], i);
      Give(shards, load, i, pkgs[k]);
      at := at + [i];
    }
    parts := shards[..];
    PlacedAll(targets, pkgs, at, parts, load[..]);
  }

  /** The shards of a greedy plan, each sorted by name, are within the bound. */
  ghost predicate Balanced(targets: seq<Package>, shards: seq<seq<string>>) {
    forall h, other, best: nat ::
      && 0 <= h < |shards|
      && Assignment(targets, other, |shards|)
      && Within(targets, other, |shards|, best)
      ==> WithinRatio(|shards|, Work(targets, shards[h]), best)
  }

  /** Sorting each shard by name keeps its contents and its work. */
  lemma SortedShards(targets: seq<Package>, parts: seq<seq<string>>, shards: seq<seq<string>>)
    requires |shards| == |parts|
    requires forall q :: 0 <= q < |parts| ==> shards[q] == Sort(parts[q], StringLe)
    ensures forall q :: 0 <= q < |shards| ==> SortedBy(shards[q], StringLe)
    ensures forall q :: 0 <= q < |shards| ==> Work(targets, shards[q]) == Work(targets, parts[q])
    ensures Contents(shards) == Contents(parts)
  {
    StringOrderTotal();
    forall q | 0 <= q < |parts|
      ensures SortedBy(shards[q], StringLe) && Work(targets, shards[q]) == Work(targets, parts[q])
    {
      SortSorted(parts[q], StringLe);
      SumPermutation(shards[q], parts[q], SizeIn(targets));
    }
    ContentsSame(shards, parts);
  }

  lemma GreedyBalanced(targets: seq<Package>, pkgs: seq<Package>, at: seq<nat>, shards: seq<seq<string>>)
    requires |shards| >= 1 && DistinctNames(targets) && pkgs == Sort(NonCli(targets), LargerFirst)
    requires LF.Greedy(Sizes(pkgs), at, |shards|)
    requires forall q :: 0 <= q < |shards| ==> Work(targets, shards[q]) == LF.Load(Sizes(pkgs), at, q, |pkgs|)
    ensures Balanced(targets, shards)
  {
    hide WithinRatio, Assignment, Within;
    forall h, other, best: nat |
      0 <= h < |shards| && Assignment(targets, other, |shards|) && Within(targets, other, |shards|, best)
      ensures WithinRatio(|shards|, Work(targets, shards[h]), best)
    {
      BoundForPackages(targets, pkgs, at, |shards|, h, other, best);
    }
  }

  /** The plan, package by package: the non-CLI packages, largest first and by name,
      each to the first of the lightest shards; a shard lists its names in order. */
  ghost predicate PlannedBy(targets: seq<Package>, pkgs: seq<Package>, at: seq<nat>, shards: seq<seq<string>>) {
    && NonCliPackages(targets, pkgs) && BySizeAndName(pkgs)
    && LF.Greedy(Sizes(pkgs), at, |shards|) && |at| <= |pkgs| && Lowest(Sizes(pkgs), at)
    && forall q :: 0 <= q < |shards| ==> Lists(shards[q], On(pkgs, at, q, |at|))
  }

  /** Every package but the CLI's, once each. */
  ghost predicate NonCliPackages(targets: seq<Package>, pkgs: seq<Package>) {
    multiset(pkgs) == multiset(NonCli(targets)) && forall p :: p in pkgs <==> p in targets && p.name != "faucet-cli"
  }

  ghost predicate BySizeAndName(pkgs: seq<Package>) {
    forall i, j :: 0 <= i < j < |pkgs| ==>
      |pkgs[i].tests| > |pkgs[j].tests|
      || (|pkgs[i].tests| == |pkgs[j].tests| && StringLe(pkgs[i].name, pkgs[j].name))
  }

  /** `shard` holds `names`, in order. */
  ghost predicate Lists(shard: seq<string>, names: seq<string>) {
    SortedBy(shard, StringLe) && multiset(shard) == multiset(names)
  }

  lemma {:induction false} NonCliMember(targets: seq<Package>, p: Package)
    ensures p in NonCli(targets) <==> p in targets && p.name != "faucet-cli"
  {
    if targets != [] { NonCliMember(targets[1..], p); }
  }

  lemma SortedNonCli(targets: seq<Package>)
    ensures NonCliPackages(targets, Sort(NonCli(targets), LargerFirst))
    ensures BySizeAndName(Sort(NonCli(targets), LargerFirst))
  {
    var pkgs := Sort(NonCli(targets), LargerFirst);
    SortedLargerFirst(NonCli(targets));
    hide Sort, NonCli, StringLe;
    forall p ensures p in pkgs <==> p in targets && p.name != "faucet-cli" {
      MultisetMember(pkgs, NonCli(targets), p);
      NonCliMember(targets, p);
    }
  }

  lemma PlannedByIs(targets: seq<Package>, pkgs: seq<Package>, at: seq<nat>, parts: seq<seq<string>>,
                    shards: seq<seq<string>>)
    requires pkgs == Sort(NonCli(targets), LargerFirst) && |shards| == |parts|
    requires LF.Greedy(Sizes(pkgs), at, |parts|) && |at| == |pkgs| && Exactly(pkgs, at, parts)
    requires forall q :: 0 <= q < |parts| ==> shards[q] == Sort(parts[q], StringLe)
    ensures PlannedBy(targets, pkgs, at, shards)
  {
    hide LF.Greedy, Lowest, StringLe, On, NonCli, Sort, NonCliPackages, BySizeAndName, Sizes, Lists;
    SortedNonCli(targets);
    forall q | 0 <= q < |parts| ensures Lists(shards[q], On(pkgs, at, q, |at|)) {
      SortedLists(parts[q]);
    }
  }

  lemma SortedLists(names: seq<string>)
    ensures Lists(Sort(names, StringLe), names)
  {
    SortedNames(names);
  }

  lemma SortedLargerFirst(pkgs: seq<Package>)
    ensures SortedBy(Sort(pkgs, LargerFirst), LargerFirst)
  {
    LargerFirstTotal();
    SortSorted(pkgs, LargerFirst);
  }

  lemma SortedNames(names: seq<string>)
    ensures SortedBy(Sort(names, StringLe), StringLe)
  {
    StringOrderTotal();
    SortSorted(names, StringLe);
  }

  /** Split packages into `count` shards balanced by test-target count. */
  method PlanLibs(targets: seq<Package>, count: nat) returns (shards: seq<seq<string>>)
    requires count >= 1 && DistinctNames(targets)
    ensures |shards| == count
    ensures forall q :: 0 <= q < count ==> SortedBy(shards[q], StringLe)
    ensures Contents(shards) == multiset(Names(NonCli(targets)))
    ensures Balanced(targets, shards)
    ensures exists pkgs, at :: PlannedBy(targets, pkgs, at, shards)
  {
    var pkgs := Sort(NonCli(targets), LargerFirst);
    forall p | p in pkgs ensures SizeOf(targets, p.name) == |p.tests| {
      MultisetMember(pkgs, NonCli(targets), p);
      SizeOfMember(targets, p);
    }
    var parts, at := PlaceAll(targets, pkgs, count);
    shards := seq(count, q requires 0 <= q < count => Sort(parts[q], StringLe));
    SortedShards(targets, parts, shards);
    GreedyBalanced(targets, pkgs, at, shards);
    PlannedByIs(targets, pkgs, at, parts, shards);
    NamesPermutation(pkgs, NonCli(targets));
  }

  /** Extending a placement leaves the loads of its prefixes alone. */
  lemma {:induction false} LoadPrefix(sizes: seq<nat>, at: seq<nat>, i: nat, q: nat, k: nat)
    requires k <= |at| < |sizes|
    ensures LF.Load(sizes, at + [i], q, k) == LF.Load(sizes, at, q, k)
  {
    if k > 0 { LoadPrefix(sizes, at, i, q, k - 1); }
  }

  lemma {:induction false} NamesPermutation(a: seq<Package>, b: seq<Package>)
    requires multiset(a) == multiset(b)
    ensures multiset(Names(a)) == multiset(Names(b))
    decreases |a|
  {
    if a == [] {
      assert |multiset(b)| == 0;
    } else {
      var x, init := a[|a| - 1], a[..|a| - 1];
      var left, right := DropLast(a, b);
      NamesPermutation(init, left + right);
      assert Names(a) == Names(init) + [x.name];
      assert Names(b) == Names(left) + [x.name] + Names(right);
      assert Names(left + right) == Names(left) + Names(right);
    }
  }

  // ── plan_cli ───────────────────────────────────────────────────────────────

  /** A Python slice: out-of-range bounds clamp to the end. */
  function Slice(names: seq<string>, lo: nat, hi: nat): seq<string>
    requires lo <= hi
  {
    if lo >= |names| then [] else if hi >= |names| then names[lo..] else names[lo..hi]
  }

  /** Split the CLI's test targets into `count` contiguous parts by name. */
  function PlanCli(names: seq<string>, count: nat): (parts: seq<seq<string>>)
    requires count >= 1
    ensures |parts| == count
  {
    var per := if names != [] then CeilDiv(|names|, count) else 0;
    seq(count, i requires 0 <= i < count => Part(names, per, i))
  }

  /** How many names the first `i` parts take. */
  function Before(i: nat, per: nat): nat {
    i * per
  }

  function Part(names: seq<string>, per: nat, i: nat): seq<string> {
    Slice(names, Before(i, per), Before(i, per) + per)
  }

  lemma SliceSplit(names: seq<string>, mid: nat, hi: nat)
    requires mid <= hi
    ensures Slice(names, 0, mid) + Slice(names, mid, hi) == Slice(names, 0, hi)
  {
  }

  lemma NothingSliced(names: seq<string>)
    ensures Slice(names, 0, 0) == []
  {
  }

  lemma BeforeNext(n: nat, per: nat)
    ensures Before(0, per) == 0 && Before(n + 1, per) == Before(n, per) + per
  {
  }

  lemma {:induction false} SlicesConcat(names: seq<string>, per: nat, parts: seq<seq<string>>)
    requires forall i :: 0 <= i < |parts| ==> parts[i] == Part(names, per, i)
    ensures Concat(parts) == Slice(names, 0, Before(|parts|, per))
  {
    hide Slice, Before;
    BeforeNext(|parts|, per);
    if parts == [] {
      NothingSliced(names);
    } else {
      var n := |parts| - 1;
      SlicesConcat(names, per, parts[..n]);
      SliceSplit(names, Before(n, per), Before(n, per) + per);
      BeforeNext(n, per);
    }
  }

  /** Every CLI test target is in exactly one part, in order. */
  lemma PlanCliCovers(names: seq<string>, count: nat)
    requires count >= 1
    ensures Concat(PlanCli(names, count)) == names
  {
    var per := if names != [] then CeilDiv(|names|, count) else 0;
    SlicesConcat(names, per, PlanCli(names, count));
    CeilDivBounds(|names|, count);
  }

  /** No part is longer than an even share rounded up. */
  lemma PlanCliEven(names: seq<string>, count: nat, i: nat)
    requires i < count
    ensures count * |PlanCli(names, count)[i]| < |names| + count
  {
    var per := if names != [] then CeilDiv(|names|, count) else 0;
    CeilDivBounds(|names|, count);
    PartLength(names, per, i);
    ScaleUp(count, |PlanCli(names, count)[i]|, per);
  }

  lemma PartLength(names: seq<string>, per: nat, i: nat)
    ensures |Part(names, per, i)| <= per
  {
  }

  lemma ScaleUp(c: nat, x: nat, y: nat)
    requires x <= y
    ensures c * x <= c * y
  {
  }
}
