/** Execution levels: a memoised longest-path computation with a cycle guard
    (cli/src/destination.rs `levels`). */
module ExecutionLevels {
  import opened Outcomes
  import opened Destination

  type Graph = map<string, Row>

  /** The rows a row waits for: every `depends_on` row and its parent. */
  function Prereqs(row: Row): (r: seq<string>)
    ensures forall p :: p in r <==> WaitsFor(row, p)
  {
    row.dependsOn + if row.parent.Some? then [row.parent.value] else []
  }

  /** A row runs after its parent and every row it depends on. */
  predicate WaitsFor(row: Row, p: string) {
    p in row.dependsOn || row.parent == Some(p)
  }

  /** Every id on `c` is a row, and each waits for the next. */
  ghost predicate Chain(g: Graph, c: seq<string>) {
    && c != []
    && (forall i :: 0 <= i < |c| ==> c[i] in g)
    && (forall i :: 0 < i < |c| ==> WaitsFor(g[c[i - 1]], c[i]))
  }

  /** `a` waits, directly or not, for `b`. */
  ghost predicate Waits(g: Graph, a: string, b: string) {
    exists c :: Chain(g, c) && |c| > 1 && c[0] == a && c[|c| - 1] == b
  }

  ghost predicate Acyclic(g: Graph) {
    forall id :: !Waits(g, id, id)
  }

  ghost predicate Attains(g: Graph, id: string, l: nat) {
    exists c :: Chain(g, c) && c[0] == id && |c| == l + 1
  }

  ghost predicate Caps(g: Graph, id: string, l: nat) {
    forall c :: Chain(g, c) && c[0] == id ==> |c| <= l + 1
  }

  /** The longest chain of prerequisites below `id` has `l` edges. */
  ghost predicate Longest(g: Graph, id: string, l: nat) {
    Attains(g, id, l) && Caps(g, id, l)
  }

  // ── Chains ─────────────────────────────────────────────────────────────────

  lemma Prepend(g: Graph, id: string, c: seq<string>)
    requires Chain(g, c) && id in g && WaitsFor(g[id], c[0])
    ensures Chain(g, [id] + c)
  {
    hide Prereqs, WaitsFor;
    var all := [id] + c;
    forall i | 0 < i < |all| ensures WaitsFor(g[all[i - 1]], all[i]) {
      if i > 1 { assert all[i - 1] == c[i - 2] && all[i] == c[i - 1]; }
    }
  }

  lemma Tail(g: Graph, c: seq<string>)
    requires Chain(g, c) && |c| > 1
    ensures Chain(g, c[1..]) && WaitsFor(g[c[0]], c[1])
  {
    hide Prereqs, WaitsFor;
    var tail := c[1..];
    forall i | 0 < i < |tail| ensures WaitsFor(g[tail[i - 1]], tail[i]) {
      assert tail[i - 1] == c[i] && tail[i] == c[i + 1];
    }
    assert WaitsFor(g[c[1 - 1]], c[1]);
  }

  /** Two chains meeting at an id join. */
  lemma {:induction false} JoinChains(g: Graph, a: seq<string>, b: seq<string>)
    requires Chain(g, a) && Chain(g, b) && a[|a| - 1] == b[0]
    ensures Chain(g, a + b[1..]) && (a + b[1..])[0] == a[0]
    ensures (a + b[1..])[|a + b[1..]| - 1] == b[|b| - 1]
    decreases |a|
  {
    hide Prereqs, WaitsFor, Chain;
    if |a| == 1 {
      assert a + b[1..] == b by { ChainNonempty(g, b); }
      ChainNonempty(g, a);
    } else {
      ChainNonempty(g, a);
      ChainNonempty(g, b);
      Tail(g, a);
      JoinChains(g, a[1..], b);
      ChainMember(g, a, 0);
      Prepend(g, a[0], a[1..] + b[1..]);
      assert [a[0]] + (a[1..] + b[1..]) == a + b[1..];
    }
  }

  lemma ChainNonempty(g: Graph, c: seq<string>)
    requires Chain(g, c)
    ensures c != []
  {
  }

  lemma ChainMember(g: Graph, c: seq<string>, i: nat)
    requires Chain(g, c) && i < |c|
    ensures c[i] in g
  {
  }

  lemma WaitsNext(g: Graph, a: string, b: string, p: string)
    requires (a == b || Waits(g, a, b)) && a in g && b in g && p in g && p in Prereqs(g[b])
    ensures Waits(g, a, p)
  {
    hide Prereqs, WaitsFor;
    var step := [b, p];
    assert Chain(g, step);
    if a == b {
      assert step[0] == a;
    } else {
      var c :| Chain(g, c) && |c| > 1 && c[0] == a && c[|c| - 1] == b;
      JoinChains(g, c, step);
    }
  }

  // ── One step of the recurrence ─────────────────────────────────────────────

  lemma AttainsZero(g: Graph, id: string)
    requires id in g
    ensures Attains(g, id, 0)
  {
    assert Chain(g, [id]);
  }

  lemma AttainsNext(g: Graph, id: string, p: string, l: nat)
    requires id in g && p in Prereqs(g[id]) && Attains(g, p, l)
    ensures Attains(g, id, l + 1)
  {
    hide Prereqs, WaitsFor;
    var c :| Chain(g, c) && c[0] == p && |c| == l + 1;
    Prepend(g, id, c);
    assert ([id] + c)[0] == id;
  }

  /** The in-set prerequisites of `id` among the first `k` are capped below `l`. */
  ghost predicate CappedBelow(g: Graph, prereqs: seq<string>, k: nat, l: nat)
    requires k <= |prereqs|
  {
    forall j :: 0 <= j < k && prereqs[j] in g ==> exists m :: 0 <= m < l && Caps(g, prereqs[j], m)
  }

  lemma CapsNext(g: Graph, id: string, l: nat)
    requires id in g && CappedBelow(g, Prereqs(g[id]), |Prereqs(g[id])|, l)
    ensures Caps(g, id, l)
  {
    hide Prereqs, WaitsFor;
    forall c | Chain(g, c) && c[0] == id ensures |c| <= l + 1 {
      if |c| > 1 {
        Tail(g, c);
        var p := Prereqs(g[id]);
        var j :| 0 <= j < |p| && p[j] == c[1];
        var m :| 0 <= m < l && Caps(g, p[j], m);
        assert Chain(g, c[1..]) && c[1..][0] == p[j];
      }
    }
  }

  lemma LongestUnique(g: Graph, id: string, l: nat, m: nat)
    requires Longest(g, id, l) && Longest(g, id, m)
    ensures l == m
  {
    var c :| Chain(g, c) && c[0] == id && |c| == l + 1;
    var d :| Chain(g, d) && d[0] == id && |d| == m + 1;
  }

  /** A row that waits for another runs strictly later. */
  lemma LongestGrows(g: Graph, a: string, b: string, l: nat, m: nat)
    requires Waits(g, a, b) && Longest(g, a, l) && Longest(g, b, m)
    ensures l > m
  {
    var c :| Chain(g, c) && |c| > 1 && c[0] == a && c[|c| - 1] == b;
    var d :| Chain(g, d) && d[0] == b && |d| == m + 1;
    JoinChains(g, c, d);
    assert |c + d[1..]| <= l + 1;
  }

  // ── The memoised computation ───────────────────────────────────────────────

  class LevelSolver {
    const g: Graph
    var memo: map<string, nat>
    var visiting: set<string>

    constructor (g: Graph)
      ensures this.g == g && memo == map[] && visiting == {}
    {
      this.g, memo, visiting := g, map[], {};
    }

    /** On an acyclic graph every memoised level is the longest chain. */
    ghost predicate Sound()
      reads this
    {
      && memo.Keys <= g.Keys
      && (Acyclic(g) ==> forall id :: id in memo ==> Longest(g, id, memo[id]))
    }

    /** Everything being visited waits for `id`. */
    ghost predicate Above(id: string)
      reads this
    {
      visiting <= g.Keys && forall v :: v in visiting ==> Waits(g, v, id)
    }

    method Level(id: string) returns (l: nat)
      requires Sound() && Above(id)
      modifies this
      ensures Sound() && visiting == old(visiting)
      ensures old(memo.Keys) <= memo.Keys
      ensures id in g && id !in visiting ==> id in memo
      ensures id in g && Acyclic(g) ==> Longest(g, id, l)
      decreases g.Keys - visiting, 0
    {
      if id in memo { return memo[id]; }
      if id !in g { return 0; }
      if id in visiting {
        assert Waits(g, id, id);
        return 0;
      }
      visiting := visiting + {id};
      l := MaxOverPrereqs(id);
      visiting := visiting - {id};
      memo := memo[id := l];
    }

    /** One more than the deepest in-set prerequisite; 0 without any. */
    method MaxOverPrereqs(id: string) returns (l: nat)
      requires id in g && id in visiting && Sound()
      requires Above'(id)
      modifies this
      ensures Sound() && visiting == old(visiting)
      ensures old(memo.Keys) <= memo.Keys
      ensures Acyclic(g) ==> Longest(g, id, l)
      decreases g.Keys - visiting, 1
    {
      hide Longest, Caps, Attains, Waits, Acyclic;
      var prereqs := Prereqs(g[id]);
      l := 0;
      AttainsZero(g, id);
      for i := 0 to |prereqs|
        invariant Sound() && visiting == old(visiting) && old(memo.Keys) <= memo.Keys
        invariant Acyclic(g) ==> Attains(g, id, l) && CappedBelow(g, prereqs, i, l)
      {
        var p := prereqs[i];
        if p in g {
          StepDown(id, p);
          var lp := Level(p);
          NextPrereq(g, id, prereqs, i, l, lp);
          if lp + 1 > l { l := lp + 1; }
        }
      }
      if Acyclic(g) { CapsNext(g, id, l); LongestFrom(g, id, l); }
    }

    /** While `id` itself is being visited, the others above it wait for it. */
    ghost predicate Above'(id: string)
      reads this
    {
      visiting <= g.Keys && forall v :: v in visiting ==> v == id || Waits(g, v, id)
    }

    lemma StepDown(id: string, p: string)
      requires id in g && p in g && p in Prereqs(g[id]) && Above'(id)
      ensures Above(p)
    {
      hide Waits, Prereqs, WaitsFor;
      forall v | v in visiting ensures Waits(g, v, p) {
        WaitsNext(g, v, id, p);
      }
    }
  }

  lemma LongestFrom(g: Graph, id: string, l: nat)
    requires Attains(g, id, l) && Caps(g, id, l)
    ensures Longest(g, id, l)
  {
  }

  /** Taking one more prerequisite into the maximum. */
  lemma NextPrereq(g: Graph, id: string, prereqs: seq<string>, i: nat, l: nat, lp: nat)
    requires id in g && prereqs == Prereqs(g[id]) && i < |prereqs|
    requires Acyclic(g) ==> Attains(g, id, l) && CappedBelow(g, prereqs, i, l) && Longest(g, prereqs[i], lp)
    ensures Acyclic(g) ==>
              var l' := if lp + 1 > l then lp + 1 else l;
              Attains(g, id, l') && CappedBelow(g, prereqs, i + 1, l')
  {
    hide Caps, Attains, Prereqs, WaitsFor, Acyclic;
    if Acyclic(g) {
      AttainsNext(g, id, prereqs[i], lp);
    }
  }

  function ById(rows: seq<Row>): (g: Graph)
    ensures forall id :: id in g <==> exists i :: 0 <= i < |rows| && rows[i].id == id
    ensures forall id :: id in g ==> g[id].id == id
  {
    if rows == [] then map[]
    else ById(rows[..|rows| - 1])[rows[|rows| - 1].id := rows[|rows| - 1]]
  }

  /** Of rows with one id the last is kept. */
  lemma {:induction false} ByIdIs(rows: seq<Row>, i: nat)
    requires i < |rows| && forall j :: i < j < |rows| ==> rows[j].id != rows[i].id
    ensures rows[i].id in ById(rows) && ById(rows)[rows[i].id] == rows[i]
  {
    if i < |rows| - 1 { ByIdIs(rows[..|rows| - 1], i); }
  }

  /** The level of every row. It terminates on every row set, cyclic ones included. */
  method Levels(rows: seq<Row>) returns (levels: map<string, nat>)
    ensures forall id :: id in levels <==> id in ById(rows)
    ensures Acyclic(ById(rows)) ==> forall id :: id in levels ==> Longest(ById(rows), id, levels[id])
  {
    hide Longest, Acyclic, ById;
    var g := ById(rows);
    var solver := new LevelSolver(g);
    for i := 0 to |rows|
      invariant solver.Sound() && solver.visiting == {}
      invariant forall j :: 0 <= j < i ==> rows[j].id in solver.memo
    {
      var l := solver.Level(rows[i].id);
    }
    levels := solver.memo;
  }
}
