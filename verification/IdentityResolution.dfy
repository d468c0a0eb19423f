/** Asking the sinks where they write: only rows that could share a destination with
    a relevant row are built, identical configs once
    (cli/src/destination.rs `Identities::resolve`). */
module IdentityResolution {
  import opened Json
  import opened Outcomes
  import opened Destination

  ghost predicate DistinctIds(rows: seq<Row>) {
    forall i, j :: 0 <= i < j < |rows| ==> rows[i].id != rows[j].id
  }

  /** Rows as expansion yields them: distinct ids, sink kinds without NUL. */
  ghost predicate ValidRows(rows: seq<Row>) {
    && DistinctIds(rows)
    && forall i :: 0 <= i < |rows| ==> NulFree(rows[i].kind) && WellFormed(rows[i].config)
  }

  // ── Who is asked ───────────────────────────────────────────────────────────

  /** Some relevant row has this sink kind. */
  ghost predicate RelevantKind(rows: seq<Row>, relevant: Row -> bool, kind: string) {
    exists i :: 0 <= i < |rows| && relevant(rows[i]) && rows[i].kind == kind
  }

  ghost predicate Candidate(sinks: Sinks, rows: seq<Row>, relevant: Row -> bool, row: Row) {
    RelevantKind(rows, relevant, row.kind) && TokenFree(sinks, row)
  }

  /** Candidates of a kind among the first `k` rows. */
  ghost function KindCount(sinks: Sinks, rows: seq<Row>, relevant: Row -> bool, kind: string, k: nat): nat
    requires k <= |rows|
  {
    if k == 0 then 0
    else KindCount(sinks, rows, relevant, kind, k - 1)
         + if Candidate(sinks, rows, relevant, rows[k - 1]) && rows[k - 1].kind == kind then 1 else 0
  }

  /** Built and asked: a candidate whose kind has at least two of them. */
  ghost predicate Asked(sinks: Sinks, rows: seq<Row>, relevant: Row -> bool, row: Row) {
    && Candidate(sinks, rows, relevant, row)
    && KindCount(sinks, rows, relevant, row.kind, |rows|) > 1
  }

  lemma {:induction false} KindCountTwo(sinks: Sinks, rows: seq<Row>, relevant: Row -> bool, i: nat, j: nat, k: nat)
    requires i < k <= |rows| && j < k && i != j && rows[i].kind == rows[j].kind
    requires Candidate(sinks, rows, relevant, rows[i]) && Candidate(sinks, rows, relevant, rows[j])
    ensures KindCount(sinks, rows, relevant, rows[i].kind, k) > 1
  {
    hide Candidate;
    if i < k - 1 && j < k - 1 {
      KindCountTwo(sinks, rows, relevant, i, j, k - 1);
    } else if i < k - 1 {
      KindCountOne(sinks, rows, relevant, i, k - 1);
    } else {
      KindCountOne(sinks, rows, relevant, j, k - 1);
    }
  }

  lemma {:induction false} KindCountOne(sinks: Sinks, rows: seq<Row>, relevant: Row -> bool, i: nat, k: nat)
    requires i < k <= |rows| && Candidate(sinks, rows, relevant, rows[i])
    ensures KindCount(sinks, rows, relevant, rows[i].kind, k) > 0
  {
    hide Candidate;
    if i < k - 1 { KindCountOne(sinks, rows, relevant, i, k - 1); }
  }

  // ── What the result says ───────────────────────────────────────────────────

  /** `ids` holds exactly what the asked rows report. */
  ghost predicate Resolved(sinks: Sinks, rows: seq<Row>, asked: Row -> bool, ids: Identities, k: nat)
    requires k <= |rows|
  {
    && (forall i :: 0 <= i < k ==>
          (rows[i].id in ids <==> asked(rows[i]) && Reported(sinks, rows[i]).Some?))
    && (forall i :: 0 <= i < k && rows[i].id in ids ==> Reported(sinks, rows[i]) == Some(ids[rows[i].id]))
    && (forall id :: id in ids ==> exists i :: 0 <= i < k && rows[i].id == id)
  }

  ghost function AskedBy(sinks: Sinks, rows: seq<Row>, relevant: Row -> bool): Row -> bool {
    row => Asked(sinks, rows, relevant, row)
  }

  /** Had every token-free sink been asked. */
  ghost function AskAll(sinks: Sinks): Row -> bool {
    row => TokenFree(sinks, row)
  }

  /** Pruning loses nothing: a relevant row and any other row get the answer the
      full set of reports would give. */
  lemma PruningLosesNothing(sinks: Sinks, rows: seq<Row>, relevant: Row -> bool,
                            ids: Identities, full: Identities, i: nat, j: nat)
    requires ValidRows(rows) && i < |rows| && j < |rows| && i != j && relevant(rows[i])
    requires Resolved(sinks, rows, AskedBy(sinks, rows, relevant), ids, |rows|)
    requires Resolved(sinks, rows, AskAll(sinks), full, |rows|)
    ensures Same(sinks, ids, rows[i], rows[j]) <==> Same(sinks, full, rows[i], rows[j])
  {
    hide Reported, Identity, HasRuntimeToken, NulFree, WellFormed, KindCount;
    var a, b := rows[i], rows[j];
    if TokenFree(sinks, a) && TokenFree(sinks, b) {
      if a.kind == b.kind {
        assert Candidate(sinks, rows, relevant, a) && Candidate(sinks, rows, relevant, b);
        KindCountTwo(sinks, rows, relevant, i, j, |rows|);
        assert AskedBy(sinks, rows, relevant)(a) && AskedBy(sinks, rows, relevant)(b);
        assert AskAll(sinks)(a) && AskAll(sinks)(b);
      } else if Reported(sinks, a).Some? && Reported(sinks, a) == Reported(sinks, b) {
        ReportedTagged(sinks, a, b);
      }
    }
  }

  // ── The resolution loop ────────────────────────────────────────────────────

  function ConfigKey(row: Row): string {
    row.kind + ("\0" + Print(row.config))
  }

  /** The cache key determines what the sink reports. */
  lemma SameConfigKey(sinks: Sinks, a: Row, b: Row)
    requires NulFree(a.kind) && NulFree(b.kind) && WellFormed(a.config) && WellFormed(b.config)
    requires ConfigKey(a) == ConfigKey(b)
    ensures Reported(sinks, a) == Reported(sinks, b)
  {
    hide Print, WellFormed;
    TagInjective(a.kind, Print(a.config), b.kind, Print(b.config));
    SameText(a.config, b.config);
  }

  /** Every cached answer is what some earlier row with that key reports. */
  ghost predicate CacheSound(sinks: Sinks, rows: seq<Row>, cache: map<string, Option<string>>) {
    forall key :: key in cache ==>
      exists i :: 0 <= i < |rows| && ConfigKey(rows[i]) == key && cache[key] == Reported(sinks, rows[i])
  }

  /** Ask a sink, or reuse the answer for an identical config. */
  method AskCached(sinks: Sinks, rows: seq<Row>, i: nat, cache: map<string, Option<string>>)
    returns (reported: Option<string>, cache': map<string, Option<string>>)
    requires ValidRows(rows) && i < |rows| && CacheSound(sinks, rows, cache)
    ensures reported == Reported(sinks, rows[i]) && CacheSound(sinks, rows, cache')
  {
    hide Reported, ConfigKey, NulFree, WellFormed;
    var key := ConfigKey(rows[i]);
    if key in cache {
      reported, cache' := cache[key], cache;
      ghost var k :| 0 <= k < |rows| && ConfigKey(rows[k]) == key && cache[key] == Reported(sinks, rows[k]);
      SameConfigKey(sinks, rows[i], rows[k]);
    } else {
      reported := Reported(sinks, rows[i]);
      cache' := cache[key := reported];
      CacheAdd(sinks, rows, cache, i);
    }
  }

  lemma CacheAdd(sinks: Sinks, rows: seq<Row>, cache: map<string, Option<string>>, i: nat)
    requires i < |rows| && CacheSound(sinks, rows, cache)
    ensures CacheSound(sinks, rows, cache[ConfigKey(rows[i]) := Reported(sinks, rows[i])])
  {
    hide Reported, ConfigKey;
    var next := cache[ConfigKey(rows[i]) := Reported(sinks, rows[i])];
    forall key | key in next
      ensures exists k :: 0 <= k < |rows| && ConfigKey(rows[k]) == key && next[key] == Reported(sinks, rows[k])
    {
      if key == ConfigKey(rows[i]) {
        assert next[key] == Reported(sinks, rows[i]);
      } else {
        assert key in cache;
      }
    }
  }

  method Resolve(sinks: Sinks, rows: seq<Row>, relevant: Row -> bool) returns (ids: Identities)
    requires ValidRows(rows)
    ensures Resolved(sinks, rows, AskedBy(sinks, rows, relevant), ids, |rows|)
  {
    hide Reported, ConfigKey, NulFree, WellFormed, HasRuntimeToken;
    var kinds := RelevantKinds(rows, relevant);
    var perKind := CountKinds(sinks, rows, relevant, kinds);
    ids := map[];
    var byConfig: map<string, Option<string>> := map[];
    for i := 0 to |rows|
      invariant CacheSound(sinks, rows, byConfig)
      invariant Resolved(sinks, rows, AskedBy(sinks, rows, relevant), ids, i)
    {
      var n := rows[i];
      var before := ids;
      if n.kind in kinds && TokenFree(sinks, n) && perKind[n.kind] > 1 {
        var reported;
        reported, byConfig := AskCached(sinks, rows, i, byConfig);
        if reported.Some? {
          ids := ids[n.id := reported.value];
        }
      }
      ResolvedNext(sinks, rows, AskedBy(sinks, rows, relevant), before, i);
    }
  }

  /** One more row: its report joins exactly when it was asked and reported one. */
  lemma ResolvedNext(sinks: Sinks, rows: seq<Row>, asked: Row -> bool, ids: Identities, k: nat)
    requires k < |rows| && DistinctIds(rows) && Resolved(sinks, rows, asked, ids, k)
    ensures var r := Reported(sinks, rows[k]);
            Resolved(sinks, rows, asked,
                     if asked(rows[k]) && r.Some? then ids[rows[k].id := r.value] else ids, k + 1)
  {
    hide Reported;
    var r := Reported(sinks, rows[k]);
    assert rows[k].id !in ids;
    var next := if asked(rows[k]) && r.Some? then ids[rows[k].id := r.value] else ids;
    forall id | id in next ensures exists i :: 0 <= i < k + 1 && rows[i].id == id {
      if id != rows[k].id {
        var i :| 0 <= i < k && rows[i].id == id;
      }
    }
  }

  /** The identities with every asked row's report exist, so what is said of all such
      identities is said of some. */
  lemma {:induction false} ResolvedExists(sinks: Sinks, rows: seq<Row>, asked: Row -> bool, k: nat)
    returns (ids: Identities)
    requires k <= |rows| && DistinctIds(rows)
    ensures Resolved(sinks, rows, asked, ids, k)
  {
    hide Reported;
    ids := map[];
    if k > 0 {
      hide Resolved;
      var before := ResolvedExists(sinks, rows, asked, k - 1);
      var r := Reported(sinks, rows[k - 1]);
      ids := if asked(rows[k - 1]) && r.Some? then before[rows[k - 1].id := r.value] else before;
      ResolvedNext(sinks, rows, asked, before, k - 1);
    }
  }

  method RelevantKinds(rows: seq<Row>, relevant: Row -> bool) returns (kinds: set<string>)
    ensures forall kind :: kind in kinds <==> RelevantKind(rows, relevant, kind)
  {
    kinds := {};
    for i := 0 to |rows|
      invariant forall kind :: kind in kinds <==>
                  exists j :: 0 <= j < i && relevant(rows[j]) && rows[j].kind == kind
    {
      if relevant(rows[i]) { kinds := kinds + {rows[i].kind}; }
    }
  }

  method CountKinds(sinks: Sinks, rows: seq<Row>, relevant: Row -> bool, kinds: set<string>)
    returns (perKind: map<string, nat>)
    requires forall kind :: kind in kinds <==> RelevantKind(rows, relevant, kind)
    ensures forall kind :: KindCount(sinks, rows, relevant, kind, |rows|)
                        == if kind in perKind then perKind[kind] else 0
    ensures forall i :: 0 <= i < |rows| && Candidate(sinks, rows, relevant, rows[i]) ==> rows[i].kind in perKind
  {
    hide HasRuntimeToken, RelevantKind;
    perKind := map[];
    for i := 0 to |rows|
      invariant forall kind :: KindCount(sinks, rows, relevant, kind, i)
                            == if kind in perKind then perKind[kind] else 0
      invariant forall j :: 0 <= j < i && Candidate(sinks, rows, relevant, rows[j]) ==> rows[j].kind in perKind
    {
      var kind := rows[i].kind;
      if kind in kinds && TokenFree(sinks, rows[i]) {
        perKind := perKind[kind := 1 + if kind in perKind then perKind[kind] else 0];
      }
    }
  }
}
