/** What a projection keeps, in terms of the records and their matches alone
    (cli/src/discovery_matrix.rs `ProjectionAcc`). */
module ProjectionMeaning {
  import opened Json
  import opened Outcomes
  import opened Projection
  import DedupKey

  /** `ms[r]` are the matches of record `r`: the record itself without a path, else what
      the path extracts from it. */
  ghost predicate MatchesAre(path: Option<string>, extract: (Value, string) -> seq<Value>, records: seq<Value>,
                             ms: seq<seq<Value>>)
  {
    && |ms| == |records|
    && forall r :: 0 <= r < |records| ==>
         ms[r] == if path.None? then [records[r]] else extract(records[r], path.value)
  }

  /** Match `m` of record `r` is there and not null. */
  ghost predicate At(ms: seq<seq<Value>>, r: int, m: int) {
    0 <= r < |ms| && 0 <= m < |ms[r]| && ms[r][m] != Null
  }

  ghost predicate Before(r: int, m: int, q: int, n: int) {
    r < q || (r == q && m < n)
  }

  /** The first match equal to `v`, key order ignored. */
  ghost predicate FirstAt(ms: seq<seq<Value>>, r: int, m: int, v: Value) {
    && At(ms, r, m) && ms[r][m] == v
    && forall q, n :: At(ms, q, n) && Before(q, n, r, m) ==> !DedupKey.Equal(ms[q][n], v)
  }

  ghost predicate AllNull(vs: seq<Value>) {
    forall m :: 0 <= m < |vs| ==> vs[m] == Null
  }

  // ── Where a match stands among all of them ─────────────────────────────────

  ghost function NonNulls(vs: seq<Value>, k: nat): nat
    requires k <= |vs|
  {
    if k == 0 then 0 else NonNulls(vs, k - 1) + if vs[k - 1] == Null then 0 else 1
  }

  lemma {:induction false} NonNullsPrefix(vs: seq<Value>, k: nat, m: nat)
    requires m <= k <= |vs|
    ensures NonNulls(vs[..k], m) == NonNulls(vs, m)
  {
    if m > 0 { NonNullsPrefix(vs, k, m - 1); }
  }

  lemma {:induction false} NonNullAt(vs: seq<Value>, m: nat)
    ensures |NonNull(vs)| == NonNulls(vs, |vs|)
    ensures m < |vs| && vs[m] != Null ==> NonNulls(vs, m) < |NonNull(vs)| && NonNull(vs)[NonNulls(vs, m)] == vs[m]
  {
    if vs != [] {
      var k := |vs| - 1;
      NonNullAt(vs[..k], m);
      NonNullsPrefix(vs, k, k);
      if m < k { NonNullsPrefix(vs, k, m); }
    }
  }

  lemma {:induction false} NonNullsGrow(vs: seq<Value>, m: nat, n: nat)
    requires m <= n <= |vs|
    ensures NonNulls(vs, m) <= NonNulls(vs, n)
    ensures m < n && vs[m] != Null ==> NonNulls(vs, m) < NonNulls(vs, n)
    decreases n
  {
    if m < n { NonNullsGrow(vs, m, n - 1); }
  }

  lemma {:induction false} NonNullFrom(vs: seq<Value>, i: nat) returns (m: nat)
    requires i < |NonNull(vs)|
    ensures m < |vs| && vs[m] != Null && NonNulls(vs, m) == i
  {
    var k := |vs| - 1;
    NonNullAt(vs[..k], 0);
    NonNullsPrefix(vs, k, k);
    if i < |NonNull(vs[..k])| {
      m := NonNullFrom(vs[..k], i);
      NonNullsPrefix(vs, k, m);
    } else {
      m := k;
    }
  }

  /** The number of non-null matches before match `m` of record `r`. */
  ghost function Rank(ms: seq<seq<Value>>, r: nat, m: nat): nat
    requires r < |ms| && m <= |ms[r]|
  {
    Total(ms, r) + NonNulls(ms[r], m)
  }

  ghost function Total(ms: seq<seq<Value>>, r: nat): nat
    requires r <= |ms|
  {
    if r == 0 then 0 else Total(ms, r - 1) + NonNulls(ms[r - 1], |ms[r - 1]|)
  }

  lemma {:induction false} TotalGrows(ms: seq<seq<Value>>, r: nat, q: nat)
    requires r <= q <= |ms|
    ensures Total(ms, r) <= Total(ms, q)
  {
    if r < q { TotalGrows(ms, r, q - 1); }
  }

  lemma RankGrows(ms: seq<seq<Value>>, r: nat, m: nat, q: nat, n: nat)
    requires At(ms, r, m) && At(ms, q, n) && Before(r, m, q, n)
    ensures Rank(ms, r, m) < Rank(ms, q, n)
  {
    NonNullsGrow(ms[r], m, |ms[r]|);
    if r < q { TotalGrows(ms, r + 1, q); } else { NonNullsGrow(ms[r], m, n); }
  }

  /** The non-null matches of the first `k` records, in order. */
  ghost function Flat(ms: seq<seq<Value>>, k: nat): seq<Value>
    requires k <= |ms|
  {
    if k == 0 then [] else Flat(ms, k - 1) + NonNull(ms[k - 1])
  }

  lemma {:induction false} FlatIs(path: Option<string>, extract: (Value, string) -> seq<Value>,
                                  records: seq<Value>, ms: seq<seq<Value>>, k: nat)
    requires MatchesAre(path, extract, records, ms) && k <= |ms|
    ensures AllMatches(path, extract, records[..k]) == Flat(ms, k)
  {
    hide NonNull;
    if k > 0 {
      FlatIs(path, extract, records, ms, k - 1);
      assert records[..k][..k - 1] == records[..k - 1];
      assert Matches(path, extract, records[k - 1]) == ms[k - 1];
    }
  }

  lemma {:induction false} FlatLength(ms: seq<seq<Value>>, k: nat)
    requires k <= |ms|
    ensures |Flat(ms, k)| == Total(ms, k)
  {
    hide NonNull, NonNulls;
    if k > 0 {
      FlatLength(ms, k - 1);
      NonNullAt(ms[k - 1], 0);
    }
  }

  lemma {:induction false} FlatAt(ms: seq<seq<Value>>, k: nat, r: nat, m: nat)
    requires r < k <= |ms| && At(ms, r, m)
    ensures Rank(ms, r, m) < |Flat(ms, k)| && Flat(ms, k)[Rank(ms, r, m)] == ms[r][m]
  {
    hide NonNull, NonNulls, Total;
    FlatLength(ms, k - 1);
    if r < k - 1 { FlatAt(ms, k - 1, r, m); } else { NonNullAt(ms[r], m); }
  }

  lemma {:induction false} FlatFrom(ms: seq<seq<Value>>, k: nat, i: nat) returns (r: nat, m: nat)
    requires k <= |ms| && i < |Flat(ms, k)|
    ensures r < k && At(ms, r, m) && Rank(ms, r, m) == i
  {
    hide NonNull, NonNulls, Total;
    FlatLength(ms, k - 1);
    if i < |Flat(ms, k - 1)| {
      r, m := FlatFrom(ms, k - 1, i);
    } else {
      r := k - 1;
      m := NonNullFrom(ms[r], i - |Flat(ms, k - 1)|);
    }
  }

  /** All matches hold every non-null match, at its rank. */
  lemma MatchAtRank(path: Option<string>, extract: (Value, string) -> seq<Value>,
                    records: seq<Value>, ms: seq<seq<Value>>, r: nat, m: nat)
    requires MatchesAre(path, extract, records, ms) && At(ms, r, m)
    ensures Rank(ms, r, m) < |AllMatches(path, extract, records)|
    ensures AllMatches(path, extract, records)[Rank(ms, r, m)] == ms[r][m]
  {
    hide AllMatches, Flat, Rank;
    FlatIs(path, extract, records, ms, |ms|);
    assert records[..|ms|] == records;
    FlatAt(ms, |ms|, r, m);
  }

  /** And nothing else. */
  lemma RankedMatch(path: Option<string>, extract: (Value, string) -> seq<Value>,
                    records: seq<Value>, ms: seq<seq<Value>>, i: nat) returns (r: nat, m: nat)
    requires MatchesAre(path, extract, records, ms) && i < |AllMatches(path, extract, records)|
    ensures At(ms, r, m) && Rank(ms, r, m) == i && AllMatches(path, extract, records)[i] == ms[r][m]
  {
    hide AllMatches, Flat, Rank;
    FlatIs(path, extract, records, ms, |ms|);
    assert records[..|ms|] == records;
    r, m := FlatFrom(ms, |ms|, i);
    FlatAt(ms, |ms|, r, m);
  }

  // ── The kept values ────────────────────────────────────────────────────────

  lemma {:induction false} KeptFrom(vs: seq<Value>, k: nat, x: nat) returns (i: nat)
    requires k <= |vs| && x < |Firsts(vs, k)|
    ensures i < k && vs[i] == Firsts(vs, k)[x] && FirstSeen(vs, i) && |Firsts(vs, i)| == x
  {
    hide FirstSeen;
    if x < |Firsts(vs, k - 1)| { i := KeptFrom(vs, k - 1, x); } else { i := k - 1; }
  }

  lemma {:induction false} FirstsLonger(vs: seq<Value>, i: nat, j: nat)
    requires i <= j <= |vs|
    ensures |Firsts(vs, i)| <= |Firsts(vs, j)|
  {
    hide FirstSeen;
    if i < j { FirstsLonger(vs, i, j - 1); }
  }

  lemma FirstSeenIsFirst(path: Option<string>, extract: (Value, string) -> seq<Value>, records: seq<Value>,
                         ms: seq<seq<Value>>, r: nat, m: nat)
    requires MatchesAre(path, extract, records, ms) && At(ms, r, m)
    requires var all := AllMatches(path, extract, records);
             Rank(ms, r, m) < |all| && FirstSeen(all, Rank(ms, r, m))
    ensures FirstAt(ms, r, m, ms[r][m])
  {
    hide DedupKey.Equal, AllMatches, Rank, MatchesAre;
    MatchAtRank(path, extract, records, ms, r, m);
    forall q, n | At(ms, q, n) && Before(q, n, r, m) ensures !DedupKey.Equal(ms[q][n], ms[r][m]) {
      RankGrows(ms, q, n, r, m);
      MatchAtRank(path, extract, records, ms, q, n);
    }
  }

  /** Every value of the result is the first match equal to it, so none is null and none
      is invented. */
  lemma KeptIsFirst(path: Option<string>, extract: (Value, string) -> seq<Value>, records: seq<Value>,
                    ms: seq<seq<Value>>, x: nat) returns (r: nat, m: nat)
    requires MatchesAre(path, extract, records, ms) && x < |OneShot(path, extract, records).values|
    ensures FirstAt(ms, r, m, OneShot(path, extract, records).values[x])
    ensures OneShot(path, extract, records).values[x] != Null
    ensures Rank(ms, r, m) < |AllMatches(path, extract, records)|
    ensures |Firsts(AllMatches(path, extract, records), Rank(ms, r, m))| == x
  {
    hide Firsts, FirstSeen, Rank, MatchesAre, FirstAt;
    var all := AllMatches(path, extract, records);
    var i := KeptFrom(all, |all|, x);
    r, m := RankedMatch(path, extract, records, ms, i);
    FirstSeenIsFirst(path, extract, records, ms, r, m);
  }

  /** The values stand in the order of their first matches. */
  lemma KeptInOrder(path: Option<string>, extract: (Value, string) -> seq<Value>, records: seq<Value>,
                    ms: seq<seq<Value>>, x: nat, y: nat, r: nat, m: nat, q: nat, n: nat)
    requires MatchesAre(path, extract, records, ms) && x < y < |OneShot(path, extract, records).values|
    requires AllWellFormed(AllMatches(path, extract, records))
    requires FirstAt(ms, r, m, OneShot(path, extract, records).values[x])
    requires FirstAt(ms, q, n, OneShot(path, extract, records).values[y])
    ensures Before(r, m, q, n)
  {
    hide OneShot, MatchesAre, Rank, AllMatches, Firsts, DedupKey.Equal;
    var a, b := KeptIsFirst(path, extract, records, ms, x);
    var c, d := KeptIsFirst(path, extract, records, ms, y);
    FirstUnique(path, extract, records, ms, a, b, r, m);
    FirstUnique(path, extract, records, ms, c, d, q, n);
    var all := AllMatches(path, extract, records);
    if Before(c, d, a, b) {
      RankGrows(ms, c, d, a, b);
      FirstsLonger(all, Rank(ms, c, d), Rank(ms, a, b));
    }
  }

  lemma FirstUnique(path: Option<string>, extract: (Value, string) -> seq<Value>, records: seq<Value>,
                    ms: seq<seq<Value>>, r: nat, m: nat, q: nat, n: nat)
    requires MatchesAre(path, extract, records, ms) && AllWellFormed(AllMatches(path, extract, records))
    requires At(ms, r, m) && At(ms, q, n) && ms[r][m] == ms[q][n]
    requires FirstAt(ms, r, m, ms[r][m]) && FirstAt(ms, q, n, ms[q][n])
    ensures r == q && m == n
  {
    hide AllMatches, MatchesAre, DedupKey.Equal;
    MatchAtRank(path, extract, records, ms, r, m);
    DedupKey.KeyCanonical(ms[r][m], ms[r][m]);
    assert Before(r, m, q, n) || Before(q, n, r, m) || (r == q && m == n);
  }

  /** Every non-null match of every record is represented. */
  lemma MatchRepresented(path: Option<string>, extract: (Value, string) -> seq<Value>, records: seq<Value>,
                         ms: seq<seq<Value>>, r: nat, m: nat)
    requires MatchesAre(path, extract, records, ms) && At(ms, r, m)
    requires AllWellFormed(AllMatches(path, extract, records))
    ensures exists v :: v in OneShot(path, extract, records).values && DedupKey.Equal(v, ms[r][m])
  {
    hide MatchesAre, Rank, AllMatches, Firsts, DedupKey.Equal;
    MatchAtRank(path, extract, records, ms, r, m);
    ProjectionComplete(path, extract, records);
  }

  /** The records all of whose matches are null. */
  ghost function NullRecords(ms: seq<seq<Value>>): set<nat> {
    set r: nat | r < |ms| && AllNull(ms[r])
  }

  lemma NullRecordsNext(ms: seq<seq<Value>>)
    requires ms != []
    ensures var k := |ms| - 1;
            |NullRecords(ms)| == |NullRecords(ms[..k])| + if AllNull(ms[k]) then 1 else 0
  {
    hide AllNull;
    var k := |ms| - 1;
    var before, now := NullRecords(ms[..k]), NullRecords(ms);
    assert forall r: nat :: r in before <==> r < k && r in now;
    assert now == if AllNull(ms[k]) then before + {k} else before;
  }

  /** They are the ones counted as skipped. */
  lemma {:induction false} SkippedAre(path: Option<string>, extract: (Value, string) -> seq<Value>,
                                      records: seq<Value>, ms: seq<seq<Value>>)
    requires MatchesAre(path, extract, records, ms)
    ensures OneShot(path, extract, records).skipped == |NullRecords(ms)|
    decreases |records|
  {
    hide AllNull, NonNull, Firsts, AllMatches;
    if records == [] {
      assert NullRecords(ms) == {};
    } else {
      hide NullRecords;
      var k := |records| - 1;
      SkippedAre(path, extract, records[..k], ms[..k]);
      assert Matches(path, extract, records[k]) == ms[k];
      NullOnly(ms[k]);
      NullRecordsNext(ms);
    }
  }

  lemma {:induction false} NullOnly(vs: seq<Value>)
    ensures NonNull(vs) == [] <==> AllNull(vs)
  {
    if vs != [] {
      var k := |vs| - 1;
      NullOnly(vs[..k]);
      assert AllNull(vs) <==> AllNull(vs[..k]) && vs[k] == Null by {
        assert forall m :: 0 <= m < k ==> vs[..k][m] == vs[m];
      }
    }
  }
}
