/** The page-by-page deduplicating accumulator behind a discovery row
    (cli/src/discovery_matrix.rs `ProjectionAcc`). */
module Projection {
  import opened Sequences
  import opened Json
  import opened Outcomes
  import DedupKey

  datatype Projected = Projected(values: seq<Value>, skipped: nat)

  /** What a record projects to: itself without a path, else what the JSONPath
      selects (nothing for an invalid path). */
  function Matches(path: Option<string>, extract: (Value, string) -> seq<Value>, rec: Value): seq<Value> {
    match path
    case None => [rec]
    case Some(p) => extract(rec, p)
  }

  // ── One-shot meaning ───────────────────────────────────────────────────────

  ghost function NonNull(vs: seq<Value>): (r: seq<Value>)
    ensures forall v :: v in r ==> v in vs
  {
    if vs == [] then []
    else NonNull(vs[..|vs| - 1]) + if vs[|vs| - 1].Null? then [] else [vs[|vs| - 1]]
  }

  /** Every non-null match of every record, in order. */
  ghost function AllMatches(path: Option<string>, extract: (Value, string) -> seq<Value>,
                            records: seq<Value>): seq<Value>
  {
    if records == [] then []
    else AllMatches(path, extract, records[..|records| - 1])
         + NonNull(Matches(path, extract, records[|records| - 1]))
  }

  /** The records with no non-null match. */
  ghost function Unmatched(path: Option<string>, extract: (Value, string) -> seq<Value>,
                           records: seq<Value>): nat
  {
    if records == [] then 0
    else Unmatched(path, extract, records[..|records| - 1])
         + if NonNull(Matches(path, extract, records[|records| - 1])) == [] then 1 else 0
  }

  /** No value before `vs[i]` equals it (key order ignored). */
  ghost predicate FirstSeen(vs: seq<Value>, i: nat)
    requires i < |vs|
  {
    forall j :: 0 <= j < i ==> !DedupKey.Equal(vs[j], vs[i])
  }

  /** The first-seen values among the first `k`, in order. */
  ghost function Firsts(vs: seq<Value>, k: nat): seq<Value>
    requires k <= |vs|
  {
    if k == 0 then []
    else Firsts(vs, k - 1) + if FirstSeen(vs, k - 1) then [vs[k - 1]] else []
  }

  /** What projecting all the records at once gives. */
  ghost function OneShot(path: Option<string>, extract: (Value, string) -> seq<Value>,
                         records: seq<Value>): Projected
  {
    var all := AllMatches(path, extract, records);
    Projected(Firsts(all, |all|), Unmatched(path, extract, records))
  }

  ghost predicate AllWellFormed(vs: seq<Value>) {
    forall i :: 0 <= i < |vs| ==> WellFormed(vs[i])
  }

  /** Extraction from a well-formed record yields well-formed values. */
  ghost predicate Extracts(path: Option<string>, extract: (Value, string) -> seq<Value>) {
    path.Some? ==> forall rec :: WellFormed(rec) ==> AllWellFormed(extract(rec, path.value))
  }

  // ── What the kept values say about the matches ─────────────────────────────

  lemma {:induction false} FirstsRepresent(vs: seq<Value>, k: nat, i: nat)
    requires i < k <= |vs| && AllWellFormed(vs)
    ensures exists v :: v in Firsts(vs, k) && DedupKey.Equal(v, vs[i])
    decreases k, i
  {
    hide DedupKey.Equal, WellFormed, Firsts;
    FirstsGrow(vs, k);
    if i < k - 1 {
      FirstsRepresent(vs, k - 1, i);
      var v :| v in Firsts(vs, k - 1) && DedupKey.Equal(v, vs[i]);
    } else if FirstSeen(vs, i) {
      DedupKey.KeyCanonical(vs[i], vs[i]);
    } else {
      var j :| 0 <= j < i && DedupKey.Equal(vs[j], vs[i]);
      FirstsRepresent(vs, k - 1, j);
      var v :| v in Firsts(vs, k - 1) && DedupKey.Equal(v, vs[j]);
      FirstsMember(vs, k - 1, v);
      EqualTransitive(v, vs[j], vs[i]);
    }
  }

  lemma FirstsGrow(vs: seq<Value>, k: nat)
    requires 0 < k <= |vs|
    ensures forall v :: v in Firsts(vs, k - 1) ==> v in Firsts(vs, k)
    ensures FirstSeen(vs, k - 1) ==> vs[k - 1] in Firsts(vs, k)
  {
    hide FirstSeen;
  }

  lemma EqualTransitive(a: Value, b: Value, c: Value)
    requires WellFormed(a) && WellFormed(b) && WellFormed(c)
    requires DedupKey.Equal(a, b) && DedupKey.Equal(b, c)
    ensures DedupKey.Equal(a, c)
  {
    DedupKey.KeyCanonical(a, b);
    DedupKey.KeyCanonical(b, c);
    DedupKey.KeyCanonical(a, c);
  }

  lemma {:induction false} FirstsMember(vs: seq<Value>, k: nat, v: Value)
    requires k <= |vs| && v in Firsts(vs, k)
    ensures exists i :: 0 <= i < k && vs[i] == v && FirstSeen(vs, i)
  {
    if v in Firsts(vs, k - 1) {
      FirstsMember(vs, k - 1, v);
    } else {
      assert vs[k - 1] == v && FirstSeen(vs, k - 1);
    }
  }

  lemma {:induction false} FirstsDistinct(vs: seq<Value>, k: nat, x: nat, y: nat)
    requires k <= |vs| && AllWellFormed(vs) && x < y < |Firsts(vs, k)|
    ensures !DedupKey.Equal(Firsts(vs, k)[x], Firsts(vs, k)[y])
  {
    var prev := Firsts(vs, k - 1);
    if y < |prev| {
      FirstsDistinct(vs, k - 1, x, y);
    } else {
      assert Firsts(vs, k)[x] in prev;
      FirstsMember(vs, k - 1, prev[x]);
    }
  }

  /** The kept values: no two equal, and every match is represented. */
  lemma ProjectionComplete(path: Option<string>, extract: (Value, string) -> seq<Value>, records: seq<Value>)
    requires AllWellFormed(AllMatches(path, extract, records))
    ensures var all, out := AllMatches(path, extract, records), OneShot(path, extract, records).values;
            && (forall x, y :: 0 <= x < y < |out| ==> !DedupKey.Equal(out[x], out[y]))
            && (forall i :: 0 <= i < |all| ==> exists v :: v in out && DedupKey.Equal(v, all[i]))
  {
    var all := AllMatches(path, extract, records);
    forall x, y | 0 <= x < y < |Firsts(all, |all|)|
      ensures !DedupKey.Equal(Firsts(all, |all|)[x], Firsts(all, |all|)[y])
    {
      FirstsDistinct(all, |all|, x, y);
    }
    forall i | 0 <= i < |all|
      ensures exists v :: v in Firsts(all, |all|) && DedupKey.Equal(v, all[i])
    {
      FirstsRepresent(all, |all|, i);
    }
  }

  // ── Appending ──────────────────────────────────────────────────────────────

  lemma {:induction false} FirstsPrefix(vs: seq<Value>, more: seq<Value>, k: nat)
    requires k <= |vs|
    ensures Firsts(vs + more, k) == Firsts(vs, k)
  {
    if k > 0 {
      FirstsPrefix(vs, more, k - 1);
      assert (vs + more)[..k] == vs[..k];
      assert FirstSeen(vs + more, k - 1) == FirstSeen(vs, k - 1) by {
        assert forall j :: 0 <= j < k ==> (vs + more)[j] == vs[j];
      }
    }
  }

  /** The keys of the values seen so far are the keys of the values kept. */
  ghost predicate SeenKeys(seen: set<string>, vs: seq<Value>) {
    && (forall i :: 0 <= i < |vs| ==> DedupKey.Key(vs[i]) in seen)
    && (forall key :: key in seen ==> exists i :: 0 <= i < |vs| && DedupKey.Key(vs[i]) == key)
  }

  /** A value is first-seen exactly when its key is new. */
  lemma FirstSeenByKey(vs: seq<Value>, v: Value, seen: set<string>)
    requires AllWellFormed(vs) && WellFormed(v) && SeenKeys(seen, vs)
    ensures FirstSeen(vs + [v], |vs|) <==> DedupKey.Key(v) !in seen
  {
    forall j | 0 <= j < |vs|
      ensures DedupKey.Equal((vs + [v])[j], v) <==> DedupKey.Key(vs[j]) == DedupKey.Key(v)
    {
      DedupKey.KeyCanonical(vs[j], v);
    }
    if DedupKey.Key(v) in seen {
      var i :| 0 <= i < |vs| && DedupKey.Key(vs[i]) == DedupKey.Key(v);
      assert DedupKey.Equal((vs + [v])[i], v);
    }
  }

  /** What the accumulator holds after the non-null matches `all`. */
  ghost predicate Holds(seen: set<string>, out: seq<Value>, all: seq<Value>) {
    AllWellFormed(all) && out == Firsts(all, |all|) && SeenKeys(seen, all)
  }

  /** One more non-null match: kept exactly when its key is new. */
  lemma HoldsNext(seen: set<string>, out: seq<Value>, all: seq<Value>, v: Value)
    requires Holds(seen, out, all) && WellFormed(v)
    ensures Holds(seen + {DedupKey.Key(v)}, if DedupKey.Key(v) in seen then out else out + [v], all + [v])
  {
    hide SeenKeys, DedupKey.Key, WellFormed, FirstSeen;
    FirstsPrefix(all, [v], |all|);
    assert (all + [v])[..|all|] == all;
    FirstSeenByKey(all, v, seen);
    SeenKeysAppend(all, v, seen);
  }

  lemma SeenKeysAppend(vs: seq<Value>, v: Value, seen: set<string>)
    requires SeenKeys(seen, vs)
    ensures SeenKeys(seen + {DedupKey.Key(v)}, vs + [v])
  {
    var all := vs + [v];
    forall key | key in seen + {DedupKey.Key(v)}
      ensures exists i :: 0 <= i < |all| && DedupKey.Key(all[i]) == key
    {
      if key in seen {
        var i :| 0 <= i < |vs| && DedupKey.Key(vs[i]) == key;
        assert all[i] == vs[i];
      } else {
        assert all[|vs|] == v;
      }
    }
  }

  lemma HistoryNext(path: Option<string>, extract: (Value, string) -> seq<Value>, history: seq<Value>, rec: Value)
    ensures var found := NonNull(Matches(path, extract, rec));
            && AllMatches(path, extract, history + [rec]) == AllMatches(path, extract, history) + found
            && Unmatched(path, extract, history + [rec])
               == Unmatched(path, extract, history) + if found == [] then 1 else 0
  {
    hide NonNull, Matches;
    assert (history + [rec])[..|history|] == history;
  }

  // ── The accumulator ────────────────────────────────────────────────────────

  /** Holds only the distinct projected values, never the records; the ghost fields
      are the history: the records fed and their non-null matches. */
  class ProjectionAcc {
    const path: Option<string>
    const extract: (Value, string) -> seq<Value>
    var seen: set<string>
    var out: seq<Value>
    var skipped: nat
    var records: nat
    ghost var fed: seq<Value>
    ghost var all: seq<Value>

    ghost predicate Valid()
      reads this
    {
      && Extracts(path, extract)
      && records == |fed|
      && Projects(fed)
    }

    /** The fields are the one-shot projection of `history`. */
    ghost predicate Projects(history: seq<Value>)
      reads this
    {
      && all == AllMatches(path, extract, history)
      && skipped == Unmatched(path, extract, history)
      && Holds(seen, out, all)
    }

    constructor (path: Option<string>, extract: (Value, string) -> seq<Value>)
      requires Extracts(path, extract)
      ensures Valid() && fed == [] && this.path == path && this.extract == extract
    {
      this.path, this.extract := path, extract;
      seen, out, skipped, records, fed, all := {}, [], 0, 0, [], [];
    }

    /** Project one page of records. */
    method Push(page: seq<Value>)
      requires Valid() && AllWellFormed(page)
      modifies this
      ensures Valid() && fed == old(fed) + page
    {
      hide Firsts, SeenKeys, DedupKey.Key, AllMatches, Unmatched;
      records := records + |page|;
      ghost var history := fed;
      for r := 0 to |page|
        invariant records == old(records) + |page| && history == old(fed) + page[..r]
        invariant Projects(history)
      {
        PushRecord(page[r], history);
        history := history + [page[r]];
      }
      assert page[..|page|] == page;
      fed := history;
    }

    method PushRecord(rec: Value, ghost history: seq<Value>)
      requires Extracts(path, extract) && WellFormed(rec) && Projects(history)
      modifies `seen, `out, `skipped, `all
      ensures Projects(history + [rec])
    {
      hide Holds, AllMatches, Unmatched, NonNull, WellFormed;
      var matches := Matches(path, extract, rec);
      HistoryNext(path, extract, history, rec);
      var any := PushMatches(matches);
      if !any { skipped := skipped + 1; }
    }

    method PushMatches(matches: seq<Value>) returns (any: bool)
      requires AllWellFormed(matches) && Holds(seen, out, all)
      modifies `seen, `out, `all
      ensures Holds(seen, out, all) && all == old(all) + NonNull(matches)
      ensures any <==> NonNull(matches) != []
    {
      hide Firsts, SeenKeys, DedupKey.Key;
      any := false;
      for i := 0 to |matches|
        invariant Holds(seen, out, all)
        invariant all == old(all) + NonNull(matches[..i])
        invariant any <==> NonNull(matches[..i]) != []
      {
        var v := matches[i];
        assert matches[..i + 1][..i] == matches[..i];
        if v.Null? { continue; }
        any := true;
        HoldsNext(seen, out, all, v);
        if DedupKey.Key(v) !in seen {
          out := out + [v];
        }
        seen := seen + {DedupKey.Key(v)};
        all := all + [v];
      }
      assert matches[..|matches|] == matches;
    }

    method Finish() returns (p: Projected)
      requires Valid()
      ensures p == OneShot(path, extract, fed)
    {
      p := Projected(out, skipped);
    }
  }

  /** Draining a discovery source: whatever the page boundaries, the result is the
      one-shot projection of the concatenated records. */
  method Drain(path: Option<string>, extract: (Value, string) -> seq<Value>, pages: seq<seq<Value>>)
    returns (p: Projected)
    requires Extracts(path, extract) && forall i :: 0 <= i < |pages| ==> AllWellFormed(pages[i])
    ensures p == OneShot(path, extract, Concat(pages))
  {
    var acc := new ProjectionAcc(path, extract);
    for i := 0 to |pages|
      invariant acc.Valid() && acc.fed == Concat(pages[..i])
    {
      acc.Push(pages[i]);
      assert pages[..i + 1][..i] == pages[..i];
    }
    assert pages[..|pages|] == pages;
    p := acc.Finish();
  }
}
