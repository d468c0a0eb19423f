/** Facts about the file graph a composition walks: denotations do not depend on
    the nesting bound, and "no walk meets a file twice" splits along the edges. */
module ComposeGraph {
  import opened Json
  import opened Outcomes
  import opened Sorting
  import opened ComposeSpec

  // ── The nesting bound only decides success ─────────────────────────────────

  lemma {:induction false} FuelIncludes(w: World, n: nat, m: nat, y: Yaml, p: Path)
    requires n <= m && IncludesOf(w, n, y, p).Some?
    ensures IncludesOf(w, m, y, p) == IncludesOf(w, n, y, p)
    decreases n, 1, y
  {
    match y
    case Tagged(tag, payload) => FuelFragment(w, n, m, w.resolve(p, payload.s));
    case Sequence(items) => FuelItems(w, n, m, items, p);
    case Mapping(entries) => FuelEntries(w, n, m, entries, p);
    case _ =>
  }

  lemma {:induction false} FuelItems(w: World, n: nat, m: nat, items: seq<Yaml>, p: Path)
    requires n <= m && ItemsOf(w, n, items, p).Some?
    ensures ItemsOf(w, m, items, p) == ItemsOf(w, n, items, p)
    decreases n, 1, items
  {
    if items != [] {
      FuelItems(w, n, m, items[..|items| - 1], p);
      FuelIncludes(w, n, m, items[|items| - 1], p);
    }
  }

  lemma {:induction false} FuelEntries(w: World, n: nat, m: nat, entries: seq<Entry>, p: Path)
    requires n <= m && EntriesOf(w, n, entries, p).Some?
    ensures EntriesOf(w, m, entries, p) == EntriesOf(w, n, entries, p)
    decreases n, 1, entries
  {
    if entries != [] {
      FuelEntries(w, n, m, entries[..|entries| - 1], p);
      FuelEntry(w, n, m, entries[|entries| - 1], p);
    }
  }

  lemma {:induction false} FuelEntry(w: World, n: nat, m: nat, e: Entry, p: Path)
    requires n <= m && EntryOf(w, n, e, p).Some?
    ensures EntryOf(w, m, e, p) == EntryOf(w, n, e, p)
    decreases n, 1, e
  {
    FuelIncludes(w, n, m, e.value, p);
  }

  lemma {:induction false} FuelFragment(w: World, n: nat, m: nat, p: Path)
    requires n <= m && FragmentOf(w, n, p).Some?
    ensures FragmentOf(w, m, p) == FragmentOf(w, n, p)
    decreases n, 0
  {
    FuelIncludes(w, n - 1, m - 1, Content(w, p, false).value, p);
  }

  lemma FuelLoaded(w: World, n: nat, m: nat, p: Path)
    requires n <= m && LoadedOf(w, n, p).Some?
    ensures LoadedOf(w, m, p) == LoadedOf(w, n, p)
  {
    if w.files[p].YamlFile? { FuelIncludes(w, n, m, w.files[p].y, p); }
  }

  /** A document loads to one value. */
  lemma LoadsUnique(w: World, p: Path, u: Value, v: Value)
    requires Loads(w, p, u) && Loads(w, p, v)
    ensures u == v
  {
    var n: nat :| LoadedOf(w, n, p) == Some(u);
    var m: nat :| LoadedOf(w, m, p) == Some(v);
    if n <= m { FuelLoaded(w, n, m, p); } else { FuelLoaded(w, m, n, p); }
  }

  // ── No walk meets a file twice ─────────────────────────────────────────────

  /** No walk from `node` repeats a file or meets one of `visited`. */
  ghost predicate Clear(w: World, visited: seq<Path>, node: Node) {
    forall walk :: Walk(w, walk) && walk[0] == node ==> Distinct(visited + Paths(walk))
  }

  ghost predicate TargetsClear(w: World, visited: seq<Path>, targets: set<Path>) {
    forall t :: t in targets ==> Clear(w, visited, Node(t, false))
  }

  ghost predicate BasesClear(w: World, visited: seq<Path>, p: Path, bases: seq<string>) {
    forall i :: 0 <= i < |bases| ==> Clear(w, visited, Node(w.resolve(p, bases[i]), true))
  }

  lemma PrependWalk(w: World, node: Node, walk: seq<Node>)
    requires Walk(w, walk) && Edge(w, node, walk[0])
    ensures Walk(w, [node] + walk) && Paths([node] + walk) == [node.path] + Paths(walk)
  {
    hide Edge;
    var all := [node] + walk;
    forall i | 0 < i < |all| ensures Edge(w, all[i - 1], all[i]) {
      if i > 1 { assert all[i - 1] == walk[i - 2] && all[i] == walk[i - 1]; }
    }
  }

  lemma TailWalk(w: World, walk: seq<Node>)
    requires Walk(w, walk) && |walk| > 1
    ensures Walk(w, walk[1..]) && Paths(walk) == [walk[0].path] + Paths(walk[1..])
    ensures Edge(w, walk[0], walk[1])
  {
    hide Edge;
    var tail := walk[1..];
    forall i | 0 < i < |tail| ensures Edge(w, tail[i - 1], tail[i]) {
      assert tail[i - 1] == walk[i] && tail[i] == walk[i + 1];
    }
    assert Edge(w, walk[1 - 1], walk[1]);
  }

  lemma ClearHere(w: World, visited: seq<Path>, node: Node)
    requires Clear(w, visited, node)
    ensures Distinct(visited + [node.path]) && node.path !in visited
  {
    assert Walk(w, [node]) && Paths([node]) == [node.path];
    assert forall i :: 0 <= i < |visited| ==> (visited + [node.path])[i] == visited[i];
    assert (visited + [node.path])[|visited|] == node.path;
  }

  lemma ClearNext(w: World, visited: seq<Path>, node: Node, next: Node)
    requires Clear(w, visited, node) && Edge(w, node, next)
    ensures Clear(w, visited + [node.path], next)
  {
    hide Edge, Distinct;
    forall walk | Walk(w, walk) && walk[0] == next ensures Distinct(visited + [node.path] + Paths(walk)) {
      PrependWalk(w, node, walk);
      assert visited + [node.path] + Paths(walk) == visited + ([node.path] + Paths(walk));
    }
  }

  lemma ClearFromNext(w: World, visited: seq<Path>, node: Node)
    requires Distinct(visited + [node.path])
    requires forall next :: Edge(w, node, next) ==> Clear(w, visited + [node.path], next)
    ensures Clear(w, visited, node)
  {
    hide Edge, Distinct;
    forall walk | Walk(w, walk) && walk[0] == node ensures Distinct(visited + Paths(walk)) {
      LongWalk(w, visited, walk);
    }
  }

  lemma LongWalk(w: World, visited: seq<Path>, walk: seq<Node>)
    requires Walk(w, walk) && Distinct(visited + [walk[0].path])
    requires forall next :: Edge(w, walk[0], next) ==> Clear(w, visited + [walk[0].path], next)
    ensures Distinct(visited + Paths(walk))
  {
    hide Edge, Distinct;
    var p := walk[0].path;
    if |walk| == 1 {
      assert Paths(walk) == [p];
    } else {
      TailWalk(w, walk);
      var tail := walk[1..];
      assert visited + ([p] + Paths(tail)) == visited + [p] + Paths(tail);
    }
  }

  /** A fragment is clear when its includes are, one file deeper. */
  lemma FragmentClear(w: World, visited: seq<Path>, p: Path, y: Yaml)
    requires Content(w, p, false) == Some(y)
    ensures Clear(w, visited, Node(p, false)) <==>
            Distinct(visited + [p]) && TargetsClear(w, visited + [p], Targets(w, y, p))
  {
    hide Clear, Targets, Distinct;
    var node := Node(p, false);
    if Clear(w, visited, node) {
      ClearHere(w, visited, node);
      forall t | t in Targets(w, y, p) ensures Clear(w, visited + [p], Node(t, false)) {
        ClearNext(w, visited, node, Node(t, false));
      }
    }
    if Distinct(visited + [p]) && TargetsClear(w, visited + [p], Targets(w, y, p)) {
      forall next | Edge(w, node, next) ensures Clear(w, visited + [p], next) {
        assert next == Node(next.path, false);
      }
      ClearFromNext(w, visited, node);
    }
  }

  ghost function DocTargets(w: World, p: Path): set<Path> {
    if Content(w, p, true).Some? then Targets(w, Content(w, p, true).value, p) else {}
  }

  /** A document is clear when its includes and its bases are, one file deeper. */
  lemma DocumentClear(w: World, visited: seq<Path>, p: Path, n: nat, v: Value)
    requires LoadedOf(w, n, p) == Some(v) && Bases(v).Some?
    ensures Clear(w, visited, Node(p, true)) <==>
            && Distinct(visited + [p])
            && TargetsClear(w, visited + [p], DocTargets(w, p))
            && BasesClear(w, visited + [p], p, Bases(v).value)
  {
    hide Clear, Targets, Distinct, LoadedOf, Content, Bases;
    var node := Node(p, true);
    assert Loads(w, p, v);
    if Clear(w, visited, node) {
      ClearHere(w, visited, node);
      forall t | t in DocTargets(w, p) ensures Clear(w, visited + [p], Node(t, false)) {
        assert Includes(w, node, Node(t, false));
        ClearNext(w, visited, node, Node(t, false));
      }
      forall i | 0 <= i < |Bases(v).value|
        ensures Clear(w, visited + [p], Node(w.resolve(p, Bases(v).value[i]), true))
      {
        var q := w.resolve(p, Bases(v).value[i]);
        assert IsBase(w, p, v, q);
        assert Extends(w, node, Node(q, true));
        ClearNext(w, visited, node, Node(q, true));
      }
    }
    if && Distinct(visited + [p])
       && TargetsClear(w, visited + [p], DocTargets(w, p))
       && BasesClear(w, visited + [p], p, Bases(v).value) {
      forall next | Edge(w, node, next) ensures Clear(w, visited + [p], next) {
        if Includes(w, node, next) {
          assert next == Node(next.path, false);
        } else {
          DocumentBase(w, p, v, next);
        }
      }
      ClearFromNext(w, visited, node);
    }
  }

  lemma DocumentBase(w: World, p: Path, v: Value, next: Node)
    requires Loads(w, p, v) && Extends(w, Node(p, true), next)
    ensures IsBase(w, p, v, next.path) && next.doc
  {
    var u :| Loads(w, p, u) && IsBase(w, p, u, next.path);
    LoadsUnique(w, p, u, v);
  }
}
