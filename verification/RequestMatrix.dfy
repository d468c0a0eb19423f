/** The cartesian product a `for_each` row fans out over, and its size guard
    (cli/src/discovery_matrix.rs `product_size`, `cartesian`). */
module RequestMatrix {
  import opened Json

  const USIZE_MAX := 0xFFFF_FFFF_FFFF_FFFF

  /** One resolved discovery dimension. */
  datatype Dim = Dim(id: string, alias: string, values: seq<Value>)

  /** A per-tuple interpolation context: `dim_id -> {alias: value}`. */
  type Context = map<string, Value>

  function Entry(dim: Dim, v: Value): Value {
    Obj([Field(dim.alias, v)])
  }

  // ── Size ───────────────────────────────────────────────────────────────────

  /** The product of the first `k` value-set sizes. */
  ghost function Product(dims: seq<Dim>, k: nat): nat
    requires k <= |dims|
  {
    if k == 0 then 1 else Product(dims, k - 1) * |dims[k - 1].values|
  }

  /** `try_fold(1, checked_mul)`: `-1` once a multiplication leaves `usize`. */
  function CheckedProduct(dims: seq<Dim>, acc: nat): int {
    if dims == [] then acc
    else if acc * |dims[0].values| > USIZE_MAX then -1
    else CheckedProduct(dims[1..], acc * |dims[0].values|)
  }

  function ProductSize(dims: seq<Dim>): nat {
    if dims == [] then 0
    else
      var p := CheckedProduct(dims, 1);
      if p < 0 then USIZE_MAX else p
  }

  /** Some prefix product leaves `usize`. */
  ghost predicate Overflows(dims: seq<Dim>) {
    exists k :: 0 <= k <= |dims| && Product(dims, k) > USIZE_MAX
  }

  lemma {:induction false} CheckedProductFrom(dims: seq<Dim>, k: nat)
    requires k <= |dims|
    requires forall j :: 0 <= j <= k ==> Product(dims, j) <= USIZE_MAX
    ensures CheckedProduct(dims[k..], Product(dims, k))
         == if Overflows(dims) then -1 else Product(dims, |dims|)
    decreases |dims| - k
  {
    if k < |dims| {
      assert dims[k..][0] == dims[k] && dims[k..][1..] == dims[k + 1..];
      var next := Product(dims, k + 1);
      if next <= USIZE_MAX { CheckedProductFrom(dims, k + 1); }
    }
  }

  /** The reported size is the exact product unless a prefix overflows, and then
      it is `usize::MAX`, even when a later dimension is empty. */
  lemma ProductSizeExact(dims: seq<Dim>)
    ensures ProductSize(dims)
         == if dims == [] then 0 else if Overflows(dims) then USIZE_MAX else Product(dims, |dims|)
  {
    if dims != [] {
      CheckedProductFrom(dims, 0);
      assert dims[0..] == dims;
    }
  }

  lemma {:induction false} EmptyProduct(dims: seq<Dim>, k: nat)
    requires k <= |dims| && exists d :: 0 <= d < k && dims[d].values == []
    ensures Product(dims, k) == 0
  {
    if dims[k - 1].values != [] { EmptyProduct(dims, k - 1); }
  }

  /** The documented "0 if any dimension is empty" holds exactly when no prefix of the
      sizes overflows. */
  lemma EmptyIsZero(dims: seq<Dim>)
    requires exists d :: 0 <= d < |dims| && dims[d].values == []
    ensures ProductSize(dims) == 0 <==> !Overflows(dims)
  {
    ProductSizeExact(dims);
    EmptyProduct(dims, |dims|);
  }

  /** It fails on eight dimensions of 256 values and an empty one. */
  lemma EmptyDimensionHidden(dims: seq<Dim>)
    requires |dims| == 9 && dims[8].values == []
    requires forall d :: 0 <= d < 8 ==> |dims[d].values| == 256
    ensures Product(dims, 9) == 0 && ProductSize(dims) == USIZE_MAX
  {
    assert Product(dims, 1) == 0x100 && Product(dims, 2) == 0x1_0000 && Product(dims, 3) == 0x100_0000;
    assert Product(dims, 4) == 0x1_0000_0000 && Product(dims, 5) == 0x100_0000_0000;
    assert Product(dims, 6) == 0x1_0000_0000_0000 && Product(dims, 7) == 0x100_0000_0000_0000;
    assert Product(dims, 8) > USIZE_MAX;
    ProductSizeExact(dims);
  }

  // ── Mixed radix ────────────────────────────────────────────────────────────

  lemma DivMod(b: nat, j: nat, n: nat)
    requires j < n
    ensures (b * n + j) / n == b && (b * n + j) % n == j
  {
    var i := b * n + j;
    assert i == n * (i / n) + i % n;
    if i / n < b { Multiple(i / n + 1, b, n); }
    if i / n > b { Multiple(b + 1, i / n, n); }
  }

  lemma Multiple(a: nat, b: nat, n: nat)
    requires a <= b
    ensures a * n <= b * n
  {
  }

  lemma InRange(b: nat, j: nat, n: nat, m: nat)
    requires b < m && j < n
    ensures b * n + j < m * n
  {
    Multiple(b + 1, m, n);
    assert (b + 1) * n == b * n + n;
  }

  lemma QuotientInRange(i: nat, n: nat, m: nat)
    requires i < m * n
    ensures n > 0 && i / n < m && i % n < n && i == (i / n) * n + i % n
  {
    assert i == n * (i / n) + i % n;
    if i / n >= m { Multiple(m, i / n, n); }
  }

  /** The context at position `i` of the product of the first `k` dimensions: the
      digits of `i` in the mixed radix of their sizes, last dimension fastest. */
  ghost function TupleAt(dims: seq<Dim>, k: nat, i: nat): Context
    requires k <= |dims| && i < Product(dims, k)
  {
    if k == 0 then map[] else
      var dim := dims[k - 1];
      var n := |dim.values|;
      QuotientInRange(i, n, Product(dims, k - 1));
      TupleAt(dims, k - 1, i / n)[dim.id := Entry(dim, dim.values[i % n])]
  }

  ghost predicate NoneEmpty(dims: seq<Dim>) {
    forall d :: 0 <= d < |dims| ==> dims[d].values != []
  }

  /** `out` is the whole product of the first `k` dimensions, in order. */
  ghost predicate Enumerates(out: seq<Context>, dims: seq<Dim>, k: nat)
    requires k <= |dims|
  {
    && |out| == Product(dims, k)
    && forall i :: 0 <= i < |out| ==> out[i] == TupleAt(dims, k, i)
  }

  /** The cartesian product as contexts; none when a dimension is empty. */
  method Cartesian(dims: seq<Dim>) returns (out: seq<Context>)
    ensures dims == [] || !NoneEmpty(dims) ==> out == []
    ensures dims != [] ==> Enumerates(out, dims, |dims|)
  {
    if dims == [] || exists d :: 0 <= d < |dims| && dims[d].values == [] {
      if dims != [] { EmptyProduct(dims, |dims|); }
      return [];
    }
    out := [map[]];
    for k := 0 to |dims|
      invariant Enumerates(out, dims, k)
    {
      out := Extend(out, dims, k);
    }
  }

  /** One round of the product: every context so far with every value of `dims[k]`. */
  method Extend(out: seq<Context>, dims: seq<Dim>, k: nat) returns (next: seq<Context>)
    requires k < |dims| && Enumerates(out, dims, k)
    ensures Enumerates(next, dims, k + 1)
  {
    var dim := dims[k];
    var n := |dim.values|;
    next := [];
    for b := 0 to |out|
      invariant |next| == b * n
      invariant Prefix(next, dims, k)
    {
      for j := 0 to n
        invariant |next| == b * n + j
        invariant Prefix(next, dims, k)
      {
        PrefixNext(next, dims, k, b, j);
        next := next + [out[b][dim.id := Entry(dim, dim.values[j])]];
      }
      assert (b + 1) * n == b * n + n;
    }
  }

  ghost predicate Prefix(next: seq<Context>, dims: seq<Dim>, k: nat)
    requires k < |dims|
  {
    && |next| <= Product(dims, k + 1)
    && forall i :: 0 <= i < |next| ==> next[i] == TupleAt(dims, k + 1, i)
  }

  lemma PrefixNext(next: seq<Context>, dims: seq<Dim>, k: nat, b: nat, j: nat)
    requires k < |dims| && b < Product(dims, k) && j < |dims[k].values|
    requires |next| == b * |dims[k].values| + j && Prefix(next, dims, k)
    ensures Prefix(next + [TupleAt(dims, k, b)[dims[k].id := Entry(dims[k], dims[k].values[j])]], dims, k)
  {
    var n := |dims[k].values|;
    InRange(b, j, n, Product(dims, k));
    DivMod(b, j, n);
  }

  // ── Every tuple, once ──────────────────────────────────────────────────────

  /** `digits[d]` chooses a value of dimension `d`. */
  ghost predicate Choice(dims: seq<Dim>, digits: seq<nat>, k: nat) {
    k <= |dims| && k <= |digits| && forall d :: 0 <= d < k ==> digits[d] < |dims[d].values|
  }

  /** The context a choice of values stands for. */
  ghost function Chosen(dims: seq<Dim>, digits: seq<nat>, k: nat): Context
    requires Choice(dims, digits, k)
  {
    if k == 0 then map[]
    else Chosen(dims, digits, k - 1)[dims[k - 1].id := Entry(dims[k - 1], dims[k - 1].values[digits[k - 1]])]
  }

  /** Each dimension's chosen value is exposed under the dimension's id and alias. */
  lemma {:induction false} ChosenHolds(dims: seq<Dim>, digits: seq<nat>, k: nat, d: nat)
    requires Choice(dims, digits, k) && d < k
    requires forall i, j :: 0 <= i < j < k ==> dims[i].id != dims[j].id
    ensures dims[d].id in Chosen(dims, digits, k)
    ensures Chosen(dims, digits, k)[dims[d].id] == Obj([Field(dims[d].alias, dims[d].values[digits[d]])])
  {
    if d < k - 1 { ChosenHolds(dims, digits, k - 1, d); }
  }

  ghost function Position(dims: seq<Dim>, digits: seq<nat>, k: nat): nat
    requires Choice(dims, digits, k)
  {
    if k == 0 then 0
    else Position(dims, digits, k - 1) * |dims[k - 1].values| + digits[k - 1]
  }

  /** Every choice of one value per dimension is enumerated, at its own position. */
  lemma {:induction false} EveryTuple(dims: seq<Dim>, digits: seq<nat>, k: nat)
    requires Choice(dims, digits, k)
    ensures Position(dims, digits, k) < Product(dims, k)
    ensures TupleAt(dims, k, Position(dims, digits, k)) == Chosen(dims, digits, k)
  {
    if k > 0 {
      EveryTuple(dims, digits, k - 1);
      var b, j, n := Position(dims, digits, k - 1), digits[k - 1], |dims[k - 1].values|;
      InRange(b, j, n, Product(dims, k - 1));
      DivMod(b, j, n);
    }
  }

  /** Every position enumerates some choice of one value per dimension. */
  lemma {:induction false} OnlyTuples(dims: seq<Dim>, k: nat, i: nat) returns (digits: seq<nat>)
    requires k <= |dims| && i < Product(dims, k)
    ensures |digits| == k && Choice(dims, digits, k) && Position(dims, digits, k) == i
  {
    if k == 0 {
      digits := [];
    } else {
      var n := |dims[k - 1].values|;
      QuotientInRange(i, n, Product(dims, k - 1));
      var q, r := i / n, i % n;
      hide Product;
      var prev := OnlyTuples(dims, k - 1, q);
      digits := prev + [r];
      PositionPrefix(dims, prev, r, k - 1);
      PositionNext(dims, digits, k, q);
    }
  }

  lemma PositionNext(dims: seq<Dim>, digits: seq<nat>, k: nat, q: nat)
    requires 0 < k <= |dims| && k <= |digits| && Choice(dims, digits, k - 1) && Position(dims, digits, k - 1) == q
    requires digits[k - 1] < |dims[k - 1].values|
    ensures Choice(dims, digits, k) && Position(dims, digits, k) == q * |dims[k - 1].values| + digits[k - 1]
  {
  }

  lemma {:induction false} PositionPrefix(dims: seq<Dim>, digits: seq<nat>, j: nat, k: nat)
    requires |digits| >= k && Choice(dims, digits, k)
    ensures Choice(dims, digits + [j], k) && Position(dims, digits + [j], k) == Position(dims, digits, k)
  {
    if k > 0 { PositionPrefix(dims, digits, j, k - 1); }
  }

  ghost predicate DistinctDims(dims: seq<Dim>) {
    && (forall d, e :: 0 <= d < e < |dims| ==> dims[d].id != dims[e].id)
    && (forall d, x, y :: 0 <= d < |dims| && 0 <= x < y < |dims[d].values| ==>
          dims[d].values[x] != dims[d].values[y])
  }

  lemma {:induction false} TupleKeys(dims: seq<Dim>, k: nat, i: nat, id: string)
    requires k <= |dims| && i < Product(dims, k)
    ensures id in TupleAt(dims, k, i) <==> exists d :: 0 <= d < k && dims[d].id == id
  {
    if k > 0 {
      var n := |dims[k - 1].values|;
      QuotientInRange(i, n, Product(dims, k - 1));
      TupleKeys(dims, k - 1, i / n, id);
    }
  }

  lemma NewId(dims: seq<Dim>, k: nat, i: nat)
    requires 0 < k <= |dims| && DistinctDims(dims) && i < Product(dims, k - 1)
    ensures dims[k - 1].id !in TupleAt(dims, k - 1, i)
  {
    TupleKeys(dims, k - 1, i, dims[k - 1].id);
  }

  /** `q` and `r` are the leading part and the last digit of `i` in radix `n`. */
  ghost predicate Digits(i: nat, n: nat, q: nat, r: nat) {
    r < n && q == i / n && r == i % n
  }

  lemma TupleStep(dims: seq<Dim>, k: nat, i: nat) returns (q: nat, r: nat)
    requires 0 < k <= |dims| && i < Product(dims, k)
    ensures q < Product(dims, k - 1) && r < |dims[k - 1].values| && Digits(i, |dims[k - 1].values|, q, r)
    ensures TupleAt(dims, k, i)
         == TupleAt(dims, k - 1, q)[dims[k - 1].id := Entry(dims[k - 1], dims[k - 1].values[r])]
  {
    var n := |dims[k - 1].values|;
    QuotientInRange(i, n, Product(dims, k - 1));
    q, r := i / n, i % n;
  }

  /** With distinct dimension ids and distinct values, no tuple repeats. */
  lemma {:induction false} TuplesDistinct(dims: seq<Dim>, k: nat, i: nat, j: nat)
    requires k <= |dims| && DistinctDims(dims) && i < Product(dims, k) && j < Product(dims, k)
    requires TupleAt(dims, k, i) == TupleAt(dims, k, j)
    ensures i == j
  {
    if k > 0 {
      hide Digits;
      var dim := dims[k - 1];
      var qi, ri := TupleStep(dims, k, i);
      var qj, rj := TupleStep(dims, k, j);
      NewId(dims, k, qi);
      NewId(dims, k, qj);
      LastDigit(TupleAt(dims, k - 1, qi), TupleAt(dims, k - 1, qj), dim, ri, rj);
      TuplesDistinct(dims, k - 1, qi, qj);
      SameDigits(i, j, |dim.values|, qi, ri);
    }
  }

  lemma SameDigits(i: nat, j: nat, n: nat, q: nat, r: nat)
    requires Digits(i, n, q, r) && Digits(j, n, q, r)
    ensures i == j
  {
    assert i == n * (i / n) + i % n && j == n * (j / n) + j % n;
  }

  lemma LastDigit(a: Context, b: Context, dim: Dim, x: nat, y: nat)
    requires x < |dim.values| && y < |dim.values| && dim.id !in a && dim.id !in b
    requires forall i, j :: 0 <= i < j < |dim.values| ==> dim.values[i] != dim.values[j]
    requires a[dim.id := Entry(dim, dim.values[x])] == b[dim.id := Entry(dim, dim.values[y])]
    ensures x == y && a == b
  {
    assert a[dim.id := Entry(dim, dim.values[x])][dim.id] == b[dim.id := Entry(dim, dim.values[y])][dim.id];
    SameWithout(a, b, dim.id, Entry(dim, dim.values[x]));
  }

  lemma SameWithout(a: Context, b: Context, id: string, x: Value)
    requires id !in a && id !in b && a[id := x] == b[id := x]
    ensures a == b
  {
    forall k ensures k in a <==> k in b {
      assert k in a[id := x] <==> k in b[id := x];
    }
    forall k | k in a ensures a[k] == b[k] {
      assert a[id := x][k] == b[id := x][k];
    }
  }

  /** A size below `usize::MAX` is the number of tuples `cartesian` yields. */
  lemma SizeBelowMaxIsExact(dims: seq<Dim>, out: seq<Context>)
    requires ProductSize(dims) < USIZE_MAX
    requires dims != [] ==> Enumerates(out, dims, |dims|)
    requires dims == [] ==> out == []
    ensures ProductSize(dims) == |out|
  {
    ProductSizeExact(dims);
  }
}
