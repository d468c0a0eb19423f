/** The composition pre-pass (cli/src/compose.rs): a recursive loader over the file
    graph, one cycle stack shared by `extends` and `!include`. */
module Compose {
  import opened Json
  import opened Outcomes
  import opened Sorting
  import opened Merge
  import opened ComposeSpec
  import opened ComposeGraph

  datatype Error =
    | ReadConfig(path: Path)
    | UnknownExtension(path: Path)
    | ParseConfig(path: Path)
    | IncludeNotFound(path: Path, referencedBy: Path)
    | BadInclude(path: Path)
    | BadExtends(path: Path)
    | CompositionCycle(chain: seq<Path>)
    | DepthExceeded
    | UnknownProfile(name: string, known: seq<string>)

  // ── Every reported error is real ───────────────────────────────────────────

  /** A tag other than `!include`, or an `!include` whose payload is not a path. */
  ghost predicate BadTag(y: Yaml) {
    match y
    case Tagged(tag, payload) => !(tag == "include" && payload.Text?)
    case Sequence(items) => exists i :: 0 <= i < |items| && BadTag(items[i])
    case Mapping(entries) => exists i :: 0 <= i < |entries| && BadTag(entries[i].value)
    case _ => false
  }

  ghost predicate Unconvertible(w: World, p: Path) {
    && p in w.files
    && match w.files[p]
       case Malformed => true
       case YamlFile(y) => exists n: nat :: IncludesOf(w, n, y, p).Some? && w.toJson(IncludesOf(w, n, y, p).value).None?
       case JsonFile(v) => w.toYaml(v).None?
       case _ => false
  }

  /** The walk `walk` through the file graph shows what `e` reports. */
  ghost predicate Explains(w: World, walk: seq<Node>, e: Error)
    requires walk != []
  {
    var last := walk[|walk| - 1];
    match e
    case CompositionCycle(chain) => chain == Paths(walk) && last.path in chain[..|walk| - 1]
    case DepthExceeded => |walk| > MAX_DEPTH + 1
    case IncludeNotFound(p, from) =>
      |walk| > 1 && last.path == p && p !in w.files && walk[|walk| - 2].path == from
    case ReadConfig(p) => last.path == p && (p in w.files ==> w.files[p].Unreadable?)
    case UnknownExtension(p) => last.path == p && p in w.files && w.files[p].UnknownFormat?
    case ParseConfig(p) => last.path == p && Unconvertible(w, p)
    case BadInclude(p) =>
      last.path == p && Content(w, p, last.doc).Some? && BadTag(Content(w, p, last.doc).value)
    case BadExtends(p) => last == Node(p, true) && exists v :: Loads(w, p, v) && Bases(v).None?
    case UnknownProfile(_, _) => false
  }

  /** Some walk continuing `trail` shows what `e` reports. */
  ghost predicate Real(w: World, trail: seq<Node>, e: Error) {
    exists walk :: Walk(w, walk) && trail <= walk && Explains(w, walk, e)
  }

  lemma RealShorter(w: World, trail: seq<Node>, node: Node, e: Error)
    requires Real(w, trail + [node], e)
    ensures Real(w, trail, e)
  {
    hide Explains, Walk;
    var walk :| Walk(w, walk) && trail + [node] <= walk && Explains(w, walk, e);
    assert trail <= trail + [node] <= walk;
  }

  /** `visited` is the stack of files on the walk `trail`. */
  ghost predicate OnTrail(w: World, trail: seq<Node>, visited: seq<Path>) {
    visited == Paths(trail) && Distinct(visited) && (trail == [] || Walk(w, trail))
  }

  ghost predicate Reached(w: World, trail: seq<Node>, node: Node) {
    trail == [] || Edge(w, trail[|trail| - 1], node)
  }

  lemma Push(w: World, trail: seq<Node>, visited: seq<Path>, node: Node)
    requires OnTrail(w, trail, visited) && Reached(w, trail, node)
    ensures Walk(w, trail + [node]) && Paths(trail + [node]) == visited + [node.path]
    ensures node.path !in visited ==> OnTrail(w, trail + [node], visited + [node.path])
  {
    hide Edge;
  }

  /** The stack ends at `including`, and every one of `targets` is included by it. */
  ghost predicate Ready(w: World, trail: seq<Node>, visited: seq<Path>, including: Path, targets: set<Path>) {
    && trail != [] && OnTrail(w, trail, visited)
    && trail[|trail| - 1].path == including
    && forall t :: t in targets ==> Edge(w, trail[|trail| - 1], Node(t, false))
  }

  /** Files a nesting level may still hold below depth `depth`. */
  function Room(depth: nat): nat {
    if depth > MAX_DEPTH then 0 else MAX_DEPTH + 1 - depth
  }

  lemma ReportHere(w: World, trail: seq<Node>, walk: seq<Node>, e: Error)
    requires Walk(w, walk) && trail <= walk && Explains(w, walk, e)
    ensures Real(w, trail, e)
  {
  }

  /** The depth guard's error: one file more than a walk may hold. */
  lemma TooDeep(w: World, trail: seq<Node>, visited: seq<Path>, node: Node)
    requires OnTrail(w, trail, visited) && Reached(w, trail, node) && |trail| > MAX_DEPTH
    ensures Real(w, trail, DepthExceeded)
    ensures DocumentOf(w, Room(|trail|), node.path).None? && FragmentOf(w, Room(|trail|), node.path).None?
  {
    hide OnTrail, Reached, Walk;
    Push(w, trail, visited, node);
    ReportHere(w, trail, trail + [node], DepthExceeded);
  }

  /** The cycle guard's error: the stack and the file met again are a walk. */
  lemma MetAgain(w: World, trail: seq<Node>, visited: seq<Path>, node: Node)
    requires OnTrail(w, trail, visited) && Reached(w, trail, node) && node.path in visited
    ensures Real(w, trail, CompositionCycle(visited + [node.path])) && !Clear(w, visited, node)
  {
    hide OnTrail, Reached, Walk, Clear;
    Push(w, trail, visited, node);
    NotClear(w, visited, node);
    ReportHere(w, trail, trail + [node], CompositionCycle(visited + [node.path]));
  }

  lemma BadExtendsHere(w: World, trail: seq<Node>, p: Path, v: Value)
    requires Walk(w, trail + [Node(p, true)]) && Loads(w, p, v) && Bases(v).None?
    ensures Real(w, trail, BadExtends(p))
  {
    hide Walk, Loads, Bases;
    ReportHere(w, trail, trail + [Node(p, true)], BadExtends(p));
  }

  lemma BadTagHere(w: World, trail: seq<Node>, p: Path, y: Yaml)
    requires Walk(w, trail + [Node(p, false)]) && Content(w, p, false) == Some(y) && BadTag(y)
    ensures Real(w, trail, BadInclude(p))
  {
    hide Walk, BadTag, Content;
    ReportHere(w, trail, trail + [Node(p, false)], BadInclude(p));
  }

  /** A fragment from the file's tree. */
  lemma FragmentFrom(w: World, n: nat, p: Path)
    requires n > 0
    ensures FragmentOf(w, n, p)
         == if Content(w, p, false).None? then None else IncludesOf(w, n - 1, Content(w, p, false).value, p)
  {
    hide IncludesOf;
  }

  lemma LoadsHere(w: World, n: nat, p: Path, v: Value)
    requires LoadedOf(w, n, p) == Some(v)
    ensures Loads(w, p, v)
  {
  }

  /** A document from its loaded value. */
  lemma DocumentFrom(w: World, n: nat, p: Path, v: Value)
    requires n > 0 && LoadedOf(w, n - 1, p) == Some(v)
    ensures Bases(v).None? ==> DocumentOf(w, n, p).None?
    ensures Bases(v).Some? ==>
              var bases, own := Bases(v).value, WithoutKey(v, "extends");
              var docs := DocumentsOf(w, n - 1, p, bases);
              DocumentOf(w, n, p) == if docs.None? then None
                                     else Some(if bases == [] then own else Merged(Folded(docs.value), own))
  {
    hide LoadedOf, Bases, DocumentsOf, Merged, Folded;
  }

  // ── Splitting the conditions over a tree ───────────────────────────────────

  lemma {:induction false} ItemsPrefix(w: World, n: nat, items: seq<Yaml>, p: Path, k: nat)
    requires k <= |items|
    ensures ItemsOf(w, n, items, p).Some? ==> ItemsOf(w, n, items[..k], p).Some?
    ensures ItemTargets(w, items[..k], p) <= ItemTargets(w, items, p)
  {
    hide IncludesOf, Targets;
    if k < |items| {
      ItemsPrefix(w, n, items[..|items| - 1], p, k);
      assert items[..|items| - 1][..k] == items[..k];
    } else {
      assert items[..k] == items;
    }
  }

  lemma {:induction false} EntriesPrefix(w: World, n: nat, entries: seq<Entry>, p: Path, k: nat)
    requires k <= |entries|
    ensures EntriesOf(w, n, entries, p).Some? ==> EntriesOf(w, n, entries[..k], p).Some?
    ensures EntryTargets(w, entries[..k], p) <= EntryTargets(w, entries, p)
  {
    hide EntryOf, EntryTarget;
    if k < |entries| {
      EntriesPrefix(w, n, entries[..|entries| - 1], p, k);
      assert entries[..|entries| - 1][..k] == entries[..k];
    } else {
      assert entries[..k] == entries;
    }
  }

  lemma {:induction false} DocumentsPrefix(w: World, n: nat, p: Path, bases: seq<string>, k: nat)
    requires k <= |bases|
    ensures DocumentsOf(w, n, p, bases).Some? ==> DocumentsOf(w, n, p, bases[..k]).Some?
  {
    hide DocumentOf;
    if k < |bases| {
      DocumentsPrefix(w, n, p, bases[..|bases| - 1], k);
      assert bases[..|bases| - 1][..k] == bases[..k];
    } else {
      assert bases[..k] == bases;
    }
  }

  /** One more item: its targets and its result come last. */
  lemma ItemsNext(w: World, n: nat, items: seq<Yaml>, p: Path, k: nat)
    requires k < |items|
    ensures ItemTargets(w, items[..k + 1], p) == ItemTargets(w, items[..k], p) + Targets(w, items[k], p)
    ensures ItemsOf(w, n, items[..k + 1], p) ==
            if ItemsOf(w, n, items[..k], p).Some? && IncludesOf(w, n, items[k], p).Some?
            then Some(ItemsOf(w, n, items[..k], p).value + [IncludesOf(w, n, items[k], p).value])
            else None
  {
    hide IncludesOf, Targets;
    assert items[..k + 1][..k] == items[..k];
  }

  lemma EntriesNext(w: World, n: nat, entries: seq<Entry>, p: Path, k: nat)
    requires k < |entries|
    ensures EntryTargets(w, entries[..k + 1], p)
         == EntryTargets(w, entries[..k], p) + Targets(w, entries[k].value, p)
    ensures EntriesOf(w, n, entries[..k + 1], p) ==
            if EntriesOf(w, n, entries[..k], p).Some? && IncludesOf(w, n, entries[k].value, p).Some?
            then Some(EntriesOf(w, n, entries[..k], p).value
                      + [Entry(entries[k].key, IncludesOf(w, n, entries[k].value, p).value)])
            else None
  {
    hide IncludesOf, Targets;
    assert entries[..k + 1][..k] == entries[..k];
  }

  lemma DocumentsNext(w: World, n: nat, p: Path, bases: seq<string>, k: nat)
    requires k < |bases|
    ensures DocumentsOf(w, n, p, bases[..k + 1]) ==
            if DocumentsOf(w, n, p, bases[..k]).Some? && DocumentOf(w, n, w.resolve(p, bases[k])).Some?
            then Some(DocumentsOf(w, n, p, bases[..k]).value + [DocumentOf(w, n, w.resolve(p, bases[k])).value])
            else None
  {
    hide DocumentOf;
    assert bases[..k + 1][..k] == bases[..k];
  }

  // ── The loader ─────────────────────────────────────────────────────────────

  class Composer {
    const w: World
    /** The canonical paths being composed, outermost first. */
    var visited: seq<Path>

    constructor (w: World)
      ensures this.w == w && visited == []
    {
      this.w, visited := w, [];
    }

    /** Substitute `!include` tags throughout a tree. Succeeds exactly when every
        include denotes something within the depth limit and no walk below meets
        a file on the stack. */
    method ResolveIncludes(y: Yaml, including: Path, depth: nat, ghost trail: seq<Node>)
      returns (r: Result<Yaml, Error>)
      requires |trail| == depth + 1 && Ready(w, trail, visited, including, Targets(w, y, including))
      modifies this
      ensures r.Ok? ==> visited == old(visited)
      ensures r.Ok? <==>
              && IncludesOf(w, Room(depth + 1), y, including).Some?
              && TargetsClear(w, old(visited), Targets(w, y, including))
      ensures r.Ok? ==> IncludesOf(w, Room(depth + 1), y, including) == Some(r.value)
      ensures r.Err? ==> (r.error == BadInclude(including) && BadTag(y)) || Real(w, trail, r.error)
      decreases Room(depth + 1), 1, y
    {
      match y
      case Tagged(tag, payload) =>
        r := IncludeTag(y, including, depth, trail);
      case Sequence(items) =>
        var s := ResolveItems(items, including, depth, trail);
        r := match s case Ok(out) => Ok(Sequence(out)) case Err(e) => Err(e);
      case Mapping(entries) =>
        var s := ResolveEntries(entries, including, depth, trail);
        r := match s case Ok(out) => Ok(Mapping(out)) case Err(e) => Err(e);
      case _ =>
        r := Ok(y);
    }

    method ResolveItems(items: seq<Yaml>, including: Path, depth: nat, ghost trail: seq<Node>)
      returns (r: Result<seq<Yaml>, Error>)
      requires |trail| == depth + 1 && Ready(w, trail, visited, including, ItemTargets(w, items, including))
      modifies this
      ensures r.Ok? ==> visited == old(visited)
      ensures r.Ok? <==>
              && ItemsOf(w, Room(depth + 1), items, including).Some?
              && TargetsClear(w, old(visited), ItemTargets(w, items, including))
      ensures r.Ok? ==> ItemsOf(w, Room(depth + 1), items, including) == Some(r.value)
      ensures r.Err? ==> (r.error == BadInclude(including) && exists i :: 0 <= i < |items| && BadTag(items[i]))
                         || Real(w, trail, r.error)
      decreases Room(depth + 1), 1, items
    {
      hide Clear, Edge, Real, OnTrail, Targets, IncludesOf, BadTag, ItemsOf, ItemTargets;
      var out := [];
      ghost var n := Room(depth + 1);
      ItemsNone(w, n, including);
      for i := 0 to |items|
        invariant visited == old(visited)
        invariant ItemsOf(w, n, items[..i], including) == Some(out)
        invariant TargetsClear(w, old(visited), ItemTargets(w, items[..i], including))
      {
        ItemsNext(w, n, items, including, i);
        ItemsPrefix(w, n, items, including, i + 1);
        var s := ResolveIncludes(items[i], including, depth, trail);
        if s.Err? { return Err(s.error); }
        out := out + [s.value];
      }
      assert items[..|items|] == items;
      r := Ok(out);
    }

    method ResolveEntries(entries: seq<Entry>, including: Path, depth: nat, ghost trail: seq<Node>)
      returns (r: Result<seq<Entry>, Error>)
      requires |trail| == depth + 1 && Ready(w, trail, visited, including, EntryTargets(w, entries, including))
      modifies this
      ensures r.Ok? ==> visited == old(visited)
      ensures r.Ok? <==>
              && EntriesOf(w, Room(depth + 1), entries, including).Some?
              && TargetsClear(w, old(visited), EntryTargets(w, entries, including))
      ensures r.Ok? ==> EntriesOf(w, Room(depth + 1), entries, including) == Some(r.value)
      ensures r.Err? ==> (r.error == BadInclude(including) && exists i :: 0 <= i < |entries| && BadTag(entries[i].value))
                         || Real(w, trail, r.error)
      decreases Room(depth + 1), 1, entries
    {
      hide Clear, Edge, Real, OnTrail, Targets, IncludesOf, BadTag, EntriesOf, EntryTargets;
      var out := [];
      ghost var n := Room(depth + 1);
      EntriesNone(w, n, including);
      for i := 0 to |entries|
        invariant visited == old(visited)
        invariant EntriesOf(w, n, entries[..i], including) == Some(out)
        invariant TargetsClear(w, old(visited), EntryTargets(w, entries[..i], including))
      {
        EntriesNext(w, n, entries, including, i);
        EntriesPrefix(w, n, entries, including, i + 1);
        var s := ResolveEntry(entries[i], including, depth, trail);
        if s.Err? { return Err(s.error); }
        out := out + [Entry(entries[i].key, s.value)];
      }
      assert entries[..|entries|] == entries;
      r := Ok(out);
    }

    /** A mapping's value is resolved in place; its key is left alone. */
    method ResolveEntry(e: Entry, including: Path, depth: nat, ghost trail: seq<Node>)
      returns (r: Result<Yaml, Error>)
      requires |trail| == depth + 1 && Ready(w, trail, visited, including, Targets(w, e.value, including))
      modifies this
      ensures r.Ok? ==> visited == old(visited)
      ensures r.Ok? <==>
              && IncludesOf(w, Room(depth + 1), e.value, including).Some?
              && TargetsClear(w, old(visited), Targets(w, e.value, including))
      ensures r.Ok? ==> IncludesOf(w, Room(depth + 1), e.value, including) == Some(r.value)
      ensures r.Err? ==> (r.error == BadInclude(including) && BadTag(e.value)) || Real(w, trail, r.error)
      decreases Room(depth + 1), 1, e
    {
      r := ResolveIncludes(e.value, including, depth, trail);
    }

    method IncludeTag(y: Yaml, including: Path, depth: nat, ghost trail: seq<Node>)
      returns (r: Result<Yaml, Error>)
      requires y.Tagged?
      requires |trail| == depth + 1 && Ready(w, trail, visited, including, Targets(w, y, including))
      modifies this
      ensures r.Ok? ==> visited == old(visited)
      ensures r.Ok? <==>
              && IncludesOf(w, Room(depth + 1), y, including).Some?
              && TargetsClear(w, old(visited), Targets(w, y, including))
      ensures r.Ok? ==> IncludesOf(w, Room(depth + 1), y, including) == Some(r.value)
      ensures r.Err? ==> (r.error == BadInclude(including) && BadTag(y)) || Real(w, trail, r.error)
      decreases Room(depth + 1), 0, 1
    {
      hide Clear, Edge, Real, OnTrail;
      if y.tag == "include" {
        if !y.payload.Text? {
          return Err(BadInclude(including));
        }
        var target := w.resolve(including, y.payload.s);
        assert target in Targets(w, y, including);
        if target !in w.files {
          MissingTarget(w, trail, visited, Node(target, false));
          return Err(IncludeNotFound(target, including));
        }
        r := LoadFragment(target, depth + 1, trail);
      } else {
        r := Err(BadInclude(including));
      }
    }

    /** Load an `!include` target: a raw node, `extends` and `profiles` are data. */
    method LoadFragment(path: Path, depth: nat, ghost trail: seq<Node>) returns (r: Result<Yaml, Error>)
      requires |trail| == depth && OnTrail(w, trail, visited) && Reached(w, trail, Node(path, false))
      requires path in w.files
      modifies this
      ensures r.Ok? ==> visited == old(visited)
      ensures r.Ok? <==>
              FragmentOf(w, Room(depth), path).Some? && Clear(w, old(visited), Node(path, false))
      ensures r.Ok? ==> FragmentOf(w, Room(depth), path) == Some(r.value)
      ensures r.Err? ==> Real(w, trail, r.error)
      decreases Room(depth), 0, 0
    {
      hide Clear, Edge, Real, Targets, IncludesOf, BadTag, OnTrail, Reached, Distinct, Walk, Explains, FragmentOf,
           TargetsClear;
      ghost var node := Node(path, false);
      ghost var walk := trail + [node];
      Push(w, trail, visited, node);
      if depth > MAX_DEPTH {
        TooDeep(w, trail, visited, node);
        return Err(DepthExceeded);
      }
      if path in visited {
        MetAgain(w, trail, visited, node);
        return Err(CompositionCycle(visited + [path]));
      }
      visited := visited + [path];
      r := ReadFragment(path);
      FragmentFrom(w, Room(depth), path);
      if r.Err? {
        ReportHere(w, trail, walk, r.error);
        return;
      }
      var y := r.value;
      FragmentClear(w, old(visited), path, y);
      FragmentEdges(w, path, y);
      r := ResolveIncludes(y, path, depth, walk);
      if r.Ok? {
        OnTrailDistinct(w, walk, visited);
        visited := visited[..|visited| - 1];
      } else if r.error == BadInclude(path) && BadTag(y) {
        BadTagHere(w, trail, path, y);
      } else {
        RealShorter(w, trail, node, r.error);
      }
    }

    method ReadFragment(path: Path) returns (r: Result<Yaml, Error>)
      requires path in w.files
      ensures r.Ok? <==> Content(w, path, false).Some?
      ensures r.Ok? ==> Content(w, path, false) == Some(r.value)
      ensures r.Err? ==> forall walk: seq<Node> :: walk != [] && walk[|walk| - 1].path == path ==> Explains(w, walk, r.error)
    {
      match w.files[path]
      case Unreadable => r := Err(ReadConfig(path));
      case UnknownFormat => r := Err(UnknownExtension(path));
      case Malformed => r := Err(ParseConfig(path));
      case YamlFile(y) => r := Ok(y);
      case JsonFile(v) =>
        var c := w.toYaml(v);
        r := if c.Some? then Ok(c.value) else Err(ParseConfig(path));
    }

    /** Parse one file, substituting its includes. `trail` ends at the file. */
    method LoadValue(path: Path, depth: nat, ghost trail: seq<Node>) returns (r: Result<Value, Error>)
      requires |trail| == depth + 1 && OnTrail(w, trail, visited) && trail[depth] == Node(path, true)
      modifies this
      ensures r.Ok? ==> visited == old(visited)
      ensures r.Ok? <==>
              LoadedOf(w, Room(depth + 1), path).Some? && TargetsClear(w, old(visited), DocTargets(w, path))
      ensures r.Ok? ==> LoadedOf(w, Room(depth + 1), path) == Some(r.value)
      ensures r.Err? ==> Real(w, trail, r.error)
      decreases Room(depth + 1), 2
    {
      hide Clear, Edge, Real, Targets, IncludesOf, BadTag;
      if path !in w.files {
        ReportHere(w, trail, trail, ReadConfig(path));
        return Err(ReadConfig(path));
      }
      match w.files[path]
      case Unreadable =>
        ReportHere(w, trail, trail, ReadConfig(path));
        r := Err(ReadConfig(path));
      case UnknownFormat =>
        ReportHere(w, trail, trail, UnknownExtension(path));
        r := Err(UnknownExtension(path));
      case Malformed =>
        ReportHere(w, trail, trail, ParseConfig(path));
        r := Err(ParseConfig(path));
      case JsonFile(v) =>
        r := Ok(v);
      case YamlFile(y) =>
        DocumentEdges(w, path, y);
        var s := ResolveIncludes(y, path, depth, trail);
        if s.Err? {
          if s.error == BadInclude(path) && BadTag(y) { ReportHere(w, trail, trail, s.error); }
          return Err(s.error);
        }
        var c := w.toJson(s.value);
        if c.Some? {
          r := Ok(c.value);
        } else {
          ReportHere(w, trail, trail, ParseConfig(path));
          r := Err(ParseConfig(path));
        }
    }

    /** Load a document and resolve its `extends` chain: bases folded left to right,
        the child over them. The stack is restored on success, so a file reached
        along two branches is no cycle. */
    method ComposeDocument(path: Path, depth: nat, ghost trail: seq<Node>) returns (r: Result<Value, Error>)
      requires ValidWorld(w)
      requires |trail| == depth && OnTrail(w, trail, visited) && Reached(w, trail, Node(path, true))
      modifies this
      ensures r.Ok? ==> visited == old(visited)
      ensures r.Ok? <==>
              DocumentOf(w, Room(depth), path).Some? && Clear(w, old(visited), Node(path, true))
      ensures r.Ok? ==> DocumentOf(w, Room(depth), path) == Some(r.value) && WellFormed(r.value)
      ensures r.Err? ==> Real(w, trail, r.error)
      decreases Room(depth), 3
    {
      hide Clear, Edge, Real, OnTrail, Reached, Distinct, LoadedOf, DocumentOf, DocumentsOf, Explains, Walk,
           Bases, WithoutKey, Merged, Folded, WellFormed, TargetsClear, BasesClear, DocTargets, Loads;
      ghost var node := Node(path, true);
      ghost var walk := trail + [node];
      Push(w, trail, visited, node);
      if depth > MAX_DEPTH {
        TooDeep(w, trail, visited, node);
        return Err(DepthExceeded);
      }
      if path in visited {
        MetAgain(w, trail, visited, node);
        return Err(CompositionCycle(visited + [path]));
      }
      visited := visited + [path];
      r := LoadValue(path, depth, walk);
      if r.Err? {
        TargetsNotClear(w, old(visited), path, Room(depth + 1));
        RealShorter(w, trail, node, r.error);
        return;
      }
      var loaded := r.value;
      LoadedWellFormed(w, Room(depth + 1), path);
      DocumentFrom(w, Room(depth), path, loaded);
      LoadsHere(w, Room(depth + 1), path, loaded);
      var bases := Bases(loaded);
      if bases.None? {
        BadExtendsHere(w, trail, path, loaded);
        return Err(BadExtends(path));
      }
      OnTrailDistinct(w, walk, visited);
      DocumentClear(w, old(visited), path, Room(depth + 1), loaded);
      r := ComposeBases(path, bases.value, WithoutKey(loaded, "extends"), depth, walk, loaded);
      if r.Ok? {
        visited := visited[..|visited| - 1];
      } else {
        RealShorter(w, trail, node, r.error);
      }
    }

    /** Merge the bases in order, then the child. */
    method ComposeBases(path: Path, bases: seq<string>, own: Value, depth: nat, ghost trail: seq<Node>,
                        ghost loaded: Value)
      returns (r: Result<Value, Error>)
      requires ValidWorld(w) && WellFormed(own)
      requires |trail| == depth + 1 && OnTrail(w, trail, visited) && trail[depth] == Node(path, true)
      requires Loads(w, path, loaded) && Bases(loaded) == Some(bases)
      modifies this
      ensures r.Ok? ==> visited == old(visited)
      ensures r.Ok? <==>
              && DocumentsOf(w, Room(depth + 1), path, bases).Some?
              && BasesClear(w, old(visited), path, bases)
      ensures r.Ok? ==> WellFormed(r.value)
      ensures r.Ok? && bases == [] ==> r.value == own
      ensures r.Ok? && bases != [] ==>
                r.value == Merged(Folded(DocumentsOf(w, Room(depth + 1), path, bases).value), own)
      ensures r.Err? ==> Real(w, trail, r.error)
      decreases Room(depth + 1), 4
    {
      hide Clear, Edge, Real, OnTrail, DocumentsOf, DocumentOf, Merged, WellFormed, Loads;
      ghost var n := Room(depth + 1);
      DocumentsNone(w, n, path, bases);
      if bases == [] {
        assert bases[..0] == bases;
        return Ok(own);
      }
      var acc := new Slot(Obj([]));
      EmptyObject();
      for i := 0 to |bases|
        invariant visited == old(visited) && WellFormed(acc.value)
        invariant DocumentsOf(w, n, path, bases[..i]).Some?
        invariant acc.value == Folded(DocumentsOf(w, n, path, bases[..i]).value)
        invariant BasesClear(w, old(visited), path, bases[..i])
      {
        var basePath := w.resolve(path, bases[i]);
        DocumentsNext(w, n, path, bases, i);
        DocumentsPrefix(w, n, path, bases, i + 1);
        BaseEdge(w, path, loaded, i);
        if basePath !in w.files {
          MissingBase(w, n, basePath);
          MissingTarget(w, trail, visited, Node(basePath, true));
          return Err(IncludeNotFound(basePath, path));
        }
        r := ComposeDocument(basePath, depth + 1, trail);
        if r.Err? { return; }
        ghost var docs := DocumentsOf(w, n, path, bases[..i]).value;
        FoldedNext(docs, r.value);
        MergedWellFormed(acc.value, r.value);
        MergeValue(acc, r.value);
      }
      assert bases[..|bases|] == bases;
      MergedWellFormed(acc.value, own);
      MergeValue(acc, own);
      r := Ok(acc.value);
    }
  }

  lemma EmptyObject()
    ensures WellFormed(Obj([])) && Folded([]) == Obj([])
  {
  }

  lemma FoldedNext(docs: seq<Value>, d: Value)
    ensures Folded(docs + [d]) == Merged(Folded(docs), d)
  {
    assert (docs + [d])[..|docs + [d]| - 1] == docs;
  }

  lemma DocumentsNone(w: World, n: nat, p: Path, bases: seq<string>)
    ensures DocumentsOf(w, n, p, bases[..0]) == Some([])
  {
  }

  lemma MissingBase(w: World, n: nat, p: Path)
    requires p !in w.files
    ensures DocumentOf(w, n, p).None?
  {
  }

  lemma BaseEdge(w: World, p: Path, v: Value, i: nat)
    requires Loads(w, p, v) && Bases(v).Some? && i < |Bases(v).value|
    ensures Edge(w, Node(p, true), Node(w.resolve(p, Bases(v).value[i]), true))
  {
    assert IsBase(w, p, v, w.resolve(p, Bases(v).value[i]));
  }

  lemma DocumentEdges(w: World, p: Path, y: Yaml)
    requires Content(w, p, true) == Some(y)
    ensures forall t :: t in Targets(w, y, p) ==> Edge(w, Node(p, true), Node(t, false))
  {
  }

  lemma LoadedWellFormed(w: World, n: nat, p: Path)
    requires ValidWorld(w) && LoadedOf(w, n, p).Some?
    ensures WellFormed(LoadedOf(w, n, p).value) && WellFormed(WithoutKey(LoadedOf(w, n, p).value, "extends"))
  {
    WithoutKeyWellFormed(LoadedOf(w, n, p).value, "extends");
  }

  /** A document whose loading fails is not composed, whatever its bases. */
  lemma TargetsNotClear(w: World, visited: seq<Path>, p: Path, n: nat)
    requires !(LoadedOf(w, n, p).Some? && TargetsClear(w, visited + [p], DocTargets(w, p)))
    ensures !(DocumentOf(w, n + 1, p).Some? && Clear(w, visited, Node(p, true)))
  {
    hide Clear, Targets;
    if DocumentOf(w, n + 1, p).Some? && Clear(w, visited, Node(p, true)) {
      DocumentClear(w, visited, p, n, LoadedOf(w, n, p).value);
    }
  }

  lemma ItemsNone(w: World, n: nat, p: Path)
    ensures forall items: seq<Yaml> :: ItemsOf(w, n, items[..0], p) == Some([]) && ItemTargets(w, items[..0], p) == {}
  {
  }

  lemma EntriesNone(w: World, n: nat, p: Path)
    ensures forall entries: seq<Entry> ::
              EntriesOf(w, n, entries[..0], p) == Some([]) && EntryTargets(w, entries[..0], p) == {}
  {
  }

  lemma MissingTarget(w: World, trail: seq<Node>, visited: seq<Path>, node: Node)
    requires trail != [] && OnTrail(w, trail, visited) && Reached(w, trail, node) && node.path !in w.files
    ensures Real(w, trail, IncludeNotFound(node.path, trail[|trail| - 1].path))
  {
    Push(w, trail, visited, node);
    ReportHere(w, trail, trail + [node], IncludeNotFound(node.path, trail[|trail| - 1].path));
  }

  lemma NotClear(w: World, visited: seq<Path>, node: Node)
    requires node.path in visited
    ensures !Clear(w, visited, node)
  {
    if Clear(w, visited, node) { ClearHere(w, visited, node); }
  }

  lemma FragmentEdges(w: World, p: Path, y: Yaml)
    requires Content(w, p, false) == Some(y)
    ensures forall t :: t in Targets(w, y, p) ==> Edge(w, Node(p, false), Node(t, false))
  {
  }

  lemma OnTrailDistinct(w: World, trail: seq<Node>, visited: seq<Path>)
    requires OnTrail(w, trail, visited)
    ensures Distinct(visited) && |visited| == |trail|
  {
  }

  // ── The entry point ────────────────────────────────────────────────────────

  /** The names of the profiles a document offers. */
  function KnownProfiles(merged: Value): seq<string> {
    if merged.Obj? && Get(merged.fields, "profiles").Some? && Get(merged.fields, "profiles").value.Obj?
    then Keys(Get(merged.fields, "profiles").value.fields)
    else []
  }

  lemma ProfileWellFormed(merged: Value, name: string)
    requires WellFormed(merged) && ProfileOf(merged, name).Some?
    ensures WellFormed(ProfileOf(merged, name).value)
  {
    GetWellFormed(merged.fields, "profiles");
    GetWellFormed(Get(merged.fields, "profiles").value.fields, name);
  }

  lemma GetWellFormed(fields: seq<Field>, key: string)
    requires WellFormedFields(fields) && Get(fields, key).Some?
    ensures WellFormed(Get(fields, key).value)
  {
  }

  /** Deep-merge `profiles[name]` over the document when a profile is selected. */
  method ApplyProfile(slot: Slot, profile: Option<string>) returns (e: Option<Error>)
    requires WellFormed(slot.value)
    modifies slot
    ensures profile.None? ==> e.None? && slot.value == old(slot.value)
    ensures profile.Some? ==> (e.None? <==> ProfileOf(old(slot.value), profile.value).Some?)
    ensures profile.Some? && e.None? ==>
              slot.value == Merged(old(slot.value), ProfileOf(old(slot.value), profile.value).value)
    ensures e.Some? ==> e.value == UnknownProfile(profile.value, KnownProfiles(old(slot.value)))
  {
    if profile.None? { return None; }
    var overlay := ProfileOf(slot.value, profile.value);
    if overlay.None? { return Some(UnknownProfile(profile.value, KnownProfiles(slot.value))); }
    ProfileWellFormed(slot.value, profile.value);
    MergeValue(slot, overlay.value);
    e := None;
  }

  /** Compose an entry file with an optional profile (the path taken when the text
      may hold directives). */
  method Compose(w: World, entry: Path, profile: Option<string>) returns (r: Result<Value, Error>)
    requires ValidWorld(w)
    ensures r.Ok? <==> ComposedOf(w, entry, profile).Some? && Clear(w, [], Node(entry, true))
    ensures r.Ok? ==> ComposedOf(w, entry, profile) == Some(r.value)
    ensures r.Err? && !r.error.UnknownProfile? ==> Real(w, [], r.error)
    ensures r.Err? && r.error.UnknownProfile? ==>
              && DocumentOf(w, MAX_DEPTH + 1, entry).Some?
              && profile == Some(r.error.name)
              && ProfileOf(DocumentOf(w, MAX_DEPTH + 1, entry).value, r.error.name).None?
  {
    hide Clear, Real, DocumentOf, Stripped, ProfileOf, Edge;
    if entry !in w.files || w.files[entry].Unreadable? {
      UnreadableEntry(w, entry);
      return Err(ReadConfig(entry));
    }
    var composer := new Composer(w);
    r := composer.ComposeDocument(entry, 0, []);
    if r.Err? {
      NotProfile(w, r.error);
      return;
    }
    var slot := new Slot(r.value);
    var e := ApplyProfile(slot, profile);
    r := if e.Some? then Err(e.value) else Ok(Stripped(slot.value));
  }

  lemma NotProfile(w: World, e: Error)
    requires Real(w, [], e)
    ensures !e.UnknownProfile?
  {
  }

  lemma UnreadableEntry(w: World, entry: Path)
    requires entry !in w.files || w.files[entry].Unreadable?
    ensures DocumentOf(w, MAX_DEPTH + 1, entry).None? && Real(w, [], ReadConfig(entry))
  {
    var walk := [Node(entry, true)];
    assert Walk(w, walk);
    ReportHere(w, [], walk, ReadConfig(entry));
  }
}
