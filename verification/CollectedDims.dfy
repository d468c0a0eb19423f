/** Collected (list-valued) dimensions: the tuple key both sides compute, and the
    injection of stored lists into a tuple's context
    (cli/src/discovery_matrix.rs `collected_tuple_key`, `inject_collected`). */
module CollectedDims {
  import opened Json
  import opened RequestMatrix
  import opened Sorting
  import opened Text
  import DedupKey

  /** A chained discovery row publishing one list per upstream tuple. */
  datatype CollectedDim =
    CollectedDim(id: string, alias: string, dims: seq<string>, byTuple: map<string, seq<Value>>)

  /** What a context holds for a dimension; absent counts as null. */
  function At(ctx: Context, d: string): Value {
    if d in ctx then ctx[d] else Null
  }

  function KeyParts(dims: seq<string>, ctx: Context): seq<string> {
    if dims == [] then [] else [dims[0] + ("=" + Print(At(ctx, dims[0])))] + KeyParts(dims[1..], ctx)
  }

  function TupleKey(dims: seq<string>, ctx: Context): string {
    Join(KeyParts(dims, ctx), "&")
  }

  ghost predicate WellFormedContext(ctx: Context) {
    forall d :: d in ctx ==> WellFormed(ctx[d])
  }

  ghost predicate Agree(dims: seq<string>, a: Context, b: Context) {
    forall i :: 0 <= i < |dims| ==> At(a, dims[i]) == At(b, dims[i])
  }

  // ── The key identifies the tuple ───────────────────────────────────────────

  /** The key as its first part and a rest that continues no number. */
  lemma TupleKeySplit(dims: seq<string>, ctx: Context) returns (rest: string)
    requires dims != []
    ensures TupleKey(dims, ctx) == dims[0] + ("=" + (Print(At(ctx, dims[0])) + rest))
    ensures rest == if |dims| == 1 then [] else "&" + TupleKey(dims[1..], ctx)
    ensures Follow(rest)
  {
    var parts := KeyParts(dims, ctx);
    assert |KeyParts(dims[1..], ctx)| > 0 <==> |dims| > 1;
    assert parts[1..] == KeyParts(dims[1..], ctx);
    rest := if |dims| == 1 then [] else "&" + TupleKey(dims[1..], ctx);
    var p := Print(At(ctx, dims[0]));
    assert parts[0] == dims[0] + ("=" + p);
    assert parts[0] + rest == dims[0] + ("=" + (p + rest));
    if |dims| == 1 { assert parts[0] + rest == parts[0]; }
  }

  lemma {:induction false} AgreeSameKey(dims: seq<string>, a: Context, b: Context)
    requires Agree(dims, a, b)
    ensures KeyParts(dims, a) == KeyParts(dims, b)
  {
    if dims != [] {
      assert forall i :: 0 <= i < |dims| - 1 ==> dims[1..][i] == dims[i + 1];
      AgreeSameKey(dims[1..], a, b);
    }
  }

  lemma {:induction false} SameKeyAgree(dims: seq<string>, a: Context, b: Context)
    requires WellFormedContext(a) && WellFormedContext(b) && TupleKey(dims, a) == TupleKey(dims, b)
    ensures Agree(dims, a, b)
  {
    if dims != [] {
      var ra := TupleKeySplit(dims, a);
      var rb := TupleKeySplit(dims, b);
      var pa, pb := Print(At(a, dims[0])) + ra, Print(At(b, dims[0])) + rb;
      Cancel(dims[0], "=" + pa, "=" + pb);
      Cancel("=", pa, pb);
      PrintInjective(At(a, dims[0]), At(b, dims[0]), ra, rb);
      if |dims| > 1 {
        Cancel("&", TupleKey(dims[1..], a), TupleKey(dims[1..], b));
        SameKeyAgree(dims[1..], a, b);
        assert forall i :: 1 <= i < |dims| ==> dims[i] == dims[1..][i - 1];
      }
    }
  }

  /** Two contexts get the same key exactly when they agree on every listed
      dimension. */
  lemma TupleKeyExact(dims: seq<string>, a: Context, b: Context)
    requires WellFormedContext(a) && WellFormedContext(b)
    ensures TupleKey(dims, a) == TupleKey(dims, b) <==> Agree(dims, a, b)
  {
    if Agree(dims, a, b) { AgreeSameKey(dims, a, b); }
    if TupleKey(dims, a) == TupleKey(dims, b) { SameKeyAgree(dims, a, b); }
  }

  /** Agreement is identity of the stored values: two values that are equal up to
      key order still get different keys. */
  lemma NestedKeyOrderMatters(x: Value, y: Value)
    requires x == Obj([Field("a", Null), Field("b", Null)]) && y == Obj([Field("b", Null), Field("a", Null)])
    ensures DedupKey.Equal(x, y) && TupleKey(["d"], map["d" := x]) != TupleKey(["d"], map["d" := y])
  {
    assert DedupKey.FieldMatches(x.fields[0], y.fields) && DedupKey.FieldMatches(x.fields[1], y.fields);
    TupleKeyExact(["d"], map["d" := x], map["d" := y]);
    assert At(map["d" := x], ["d"][0]) == x && At(map["d" := y], ["d"][0]) == y;
  }

  // ── Injection ──────────────────────────────────────────────────────────────

  /** The list stored for the tuple `ctx`; empty when none is. */
  function Stored(cd: CollectedDim, ctx: Context): seq<Value> {
    var key := TupleKey(cd.dims, ctx);
    if key in cd.byTuple then cd.byTuple[key] else []
  }

  function Injected(cd: CollectedDim, ctx: Context): Value {
    Obj([Field(cd.alias, Arr(Stored(cd, ctx)))])
  }

  ghost predicate Ids(collected: seq<CollectedDim>, id: string) {
    exists i :: 0 <= i < |collected| && collected[i].id == id
  }

  /** Ids are distinct and no collected dimension is keyed by another's id. */
  ghost predicate Independent(collected: seq<CollectedDim>) {
    forall i, j :: 0 <= i < |collected| && 0 <= j < |collected| && i != j ==>
      collected[i].id != collected[j].id && collected[j].id !in collected[i].dims
  }

  /** The enriched context: every collected dimension contributes the list stored
      for the tuple as it came in, and nothing else changes. */
  ghost predicate Enriched(ctx: Context, collected: seq<CollectedDim>, r: Context) {
    && (forall id :: id in r <==> id in ctx || Ids(collected, id))
    && (forall i :: 0 <= i < |collected| ==>
          collected[i].id in r && r[collected[i].id] == Injected(collected[i], ctx))
    && (forall id :: id in ctx && !Ids(collected, id) ==> id in r && r[id] == ctx[id])
  }

  /** A tuple under enrichment. */
  class Tuple {
    var ctx: Context

    constructor (ctx: Context)
      ensures this.ctx == ctx
    {
      this.ctx := ctx;
    }

    /** Enrich the tuple in place with every collected dimension. */
    method InjectCollected(collected: seq<CollectedDim>)
      modifies this
      ensures Independent(collected) ==> Enriched(old(ctx), collected, ctx)
      ensures ctx == InjectAll(old(ctx), collected)
    {
      for i := 0 to |collected|
        invariant ctx == InjectAll(old(ctx), collected[..i])
      {
        var cd := collected[i];
        var list := Stored(cd, ctx);
        ctx := ctx[cd.id := Obj([Field(cd.alias, Arr(list))])];
        assert collected[..i + 1][..i] == collected[..i];
      }
      assert collected[..|collected|] == collected;
      if Independent(collected) { InjectAllEnriches(old(ctx), collected); }
    }
  }

  ghost function InjectAll(ctx: Context, collected: seq<CollectedDim>): Context {
    if collected == [] then ctx
    else
      var last := collected[|collected| - 1];
      var before := InjectAll(ctx, collected[..|collected| - 1]);
      before[last.id := Injected(last, before)]
  }

  /** A later injection reads the tuple as it came in. */
  lemma InjectedUnchanged(cd: CollectedDim, ctx: Context, r: Context)
    requires forall d :: d in cd.dims ==> At(ctx, d) == At(r, d)
    ensures Injected(cd, ctx) == Injected(cd, r)
  {
    AgreeSameKey(cd.dims, ctx, r);
  }

  lemma {:induction false} InjectAllEnriches(ctx: Context, collected: seq<CollectedDim>)
    requires Independent(collected)
    ensures Enriched(ctx, collected, InjectAll(ctx, collected))
  {
    if collected != [] {
      hide Injected, Ids;
      var n := |collected| - 1;
      var init, last := collected[..n], collected[n];
      InjectAllEnriches(ctx, init);
      var before := InjectAll(ctx, init);
      forall d | d in last.dims ensures At(ctx, d) == At(before, d) {
      }
      InjectedUnchanged(last, ctx, before);
      EnrichedNext(ctx, collected, before);
    }
  }

  lemma IdsNext(collected: seq<CollectedDim>, id: string)
    requires collected != []
    ensures var n := |collected| - 1;
            Ids(collected, id) <==> Ids(collected[..n], id) || id == collected[n].id
  {
    var n := |collected| - 1;
    if Ids(collected[..n], id) {
      var i :| 0 <= i < n && collected[..n][i].id == id;
      assert collected[i].id == id;
    }
    if Ids(collected, id) && collected[n].id != id {
      var i :| 0 <= i < |collected| && collected[i].id == id;
      assert collected[..n][i].id == id;
    }
  }

  lemma EnrichedNext(ctx: Context, collected: seq<CollectedDim>, before: Context)
    requires collected != [] && Independent(collected)
    requires Enriched(ctx, collected[..|collected| - 1], before)
    ensures var last := collected[|collected| - 1];
            Enriched(ctx, collected, before[last.id := Injected(last, ctx)])
  {
    hide Ids, Injected;
    var n := |collected| - 1;
    var init, last := collected[..n], collected[n];
    var r := before[last.id := Injected(last, ctx)];
    forall id ensures Ids(collected, id) <==> Ids(init, id) || id == last.id {
      IdsNext(collected, id);
    }
    forall i | 0 <= i < |collected|
      ensures collected[i].id in r && r[collected[i].id] == Injected(collected[i], ctx)
    {
      if i < n { assert init[i] == collected[i] && collected[i].id != last.id; }
    }
  }

  /** The order of the collected dimensions does not matter. */
  lemma OrderIrrelevant(ctx: Context, a: seq<CollectedDim>, b: seq<CollectedDim>)
    requires Independent(a) && Independent(b) && multiset(a) == multiset(b)
    ensures InjectAll(ctx, a) == InjectAll(ctx, b)
  {
    hide Independent, InjectAll, Injected, Enriched, Ids;
    InjectAllEnriches(ctx, a);
    InjectAllEnriches(ctx, b);
    EnrichedUnique(ctx, a, b, InjectAll(ctx, a), InjectAll(ctx, b));
  }

  /** Enrichment determines the context, whatever the order of the dimensions. */
  lemma EnrichedUnique(ctx: Context, a: seq<CollectedDim>, b: seq<CollectedDim>, x: Context, y: Context)
    requires Enriched(ctx, a, x) && Enriched(ctx, b, y) && multiset(a) == multiset(b)
    ensures x == y
  {
    hide Ids, Injected;
    forall id ensures Ids(a, id) <==> Ids(b, id) {
      if Ids(a, id) { SameIds(a, b, id); }
      if Ids(b, id) { SameIds(b, a, id); }
    }
    assert x.Keys == y.Keys;
    forall id | id in x ensures x[id] == y[id] {
      if Ids(a, id) { SameInjected(ctx, a, b, x, y, id); }
    }
  }

  lemma SameInjected(ctx: Context, a: seq<CollectedDim>, b: seq<CollectedDim>, x: Context, y: Context, id: string)
    requires Enriched(ctx, a, x) && Enriched(ctx, b, y) && multiset(a) == multiset(b) && Ids(a, id)
    ensures id in x && id in y && x[id] == y[id]
  {
    hide Injected;
    var i :| 0 <= i < |a| && a[i].id == id;
    MultisetMember(a, b, a[i]);
    var j :| 0 <= j < |b| && b[j] == a[i];
  }

  lemma SameIds(a: seq<CollectedDim>, b: seq<CollectedDim>, id: string)
    requires multiset(a) == multiset(b) && Ids(a, id)
    ensures Ids(b, id)
  {
    var i :| 0 <= i < |a| && a[i].id == id;
    MultisetMember(a, b, a[i]);
    var j :| 0 <= j < |b| && b[j] == a[i];
  }

  /** Reordering keeps independence, so the premise above is one about either order. */
  lemma IndependentReorder(a: seq<CollectedDim>, b: seq<CollectedDim>)
    requires Independent(a) && multiset(a) == multiset(b)
    ensures Independent(b)
  {
    assert Distinct(a);
    DistinctPermutation(a, b);
    forall i, j | 0 <= i < |b| && 0 <= j < |b| && i != j
      ensures b[i].id != b[j].id && b[j].id !in b[i].dims
    {
      MultisetMember(a, b, b[i]);
      MultisetMember(a, b, b[j]);
      var p :| 0 <= p < |a| && a[p] == b[i];
      var q :| 0 <= q < |a| && a[q] == b[j];
      assert b[i] != b[j];
    }
  }

  // ── Storing and reading back ───────────────────────────────────────────────

  /** A finished run of the chained discovery: its tuple and its values. */
  datatype Published = Published(ctx: Context, list: seq<Value>)

  /** Each run inserts its values under its tuple's key. */
  function StoreAll(dims: seq<string>, runs: seq<Published>): map<string, seq<Value>> {
    if runs == [] then map[]
    else
      var last := runs[|runs| - 1];
      StoreAll(dims, runs[..|runs| - 1])[TupleKey(dims, last.ctx) := last.list]
  }

  /** The list of the last run on a tuple that agrees with `ctx`; empty when none does. */
  ghost function LastAgreeing(dims: seq<string>, runs: seq<Published>, ctx: Context): seq<Value> {
    if runs == [] then []
    else
      var last := runs[|runs| - 1];
      if Agree(dims, last.ctx, ctx) then last.list else LastAgreeing(dims, runs[..|runs| - 1], ctx)
  }

  /** A consuming tuple reads its own list: the one published for the tuple it
      agrees with, never another tuple's. */
  lemma {:induction false} ReadsOwnList(cd: CollectedDim, runs: seq<Published>, ctx: Context)
    requires cd.byTuple == StoreAll(cd.dims, runs) && WellFormedContext(ctx)
    requires forall i :: 0 <= i < |runs| ==> WellFormedContext(runs[i].ctx)
    ensures Stored(cd, ctx) == LastAgreeing(cd.dims, runs, ctx)
    decreases |runs|
  {
    hide Agree, TupleKey, WellFormedContext;
    if runs != [] {
      var n := |runs| - 1;
      ReadsOwnList(cd.(byTuple := StoreAll(cd.dims, runs[..n])), runs[..n], ctx);
      TupleKeyExact(cd.dims, runs[n].ctx, ctx);
    }
  }

  /** And it is exposed under the dimension's alias. */
  lemma ExposedUnderAlias(cd: CollectedDim, runs: seq<Published>, ctx: Context)
    requires cd.byTuple == StoreAll(cd.dims, runs) && WellFormedContext(ctx)
    requires forall i :: 0 <= i < |runs| ==> WellFormedContext(runs[i].ctx)
    ensures Injected(cd, ctx) == Obj([Field(cd.alias, Arr(LastAgreeing(cd.dims, runs, ctx)))])
  {
    hide StoreAll, WellFormedContext, LastAgreeing, Stored;
    ReadsOwnList(cd, runs, ctx);
  }
}
