/** What a composed configuration means: the file graph with its two kinds of edges
    (`extends`, `!include`) and the value a document denotes
    (cli/src/compose.rs). */
module ComposeSpec {
  import opened Json
  import opened Outcomes
  import opened Merge

  /** A canonical path. */
  type Path = string

  /** A YAML node tree; `!include` tags survive parsing. */
  datatype Yaml =
    | Text(s: string)
    | Scalar(v: Value)
    | Sequence(items: seq<Yaml>)
    | Mapping(entries: seq<Entry>)
    | Tagged(tag: string, payload: Yaml)

  datatype Entry = Entry(key: Yaml, value: Yaml)

  /** A file as reading and parsing see it. */
  datatype File = YamlFile(y: Yaml) | JsonFile(v: Value) | Malformed | UnknownFormat | Unreadable

  /** The file system (canonical path to file), relative-path resolution against a
      referencing file, and the conversions between YAML and JSON trees. */
  datatype World = World(files: map<Path, File>, resolve: (Path, string) -> Path,
                         toJson: Yaml -> Option<Value>, toYaml: Value -> Option<Yaml>)

  /** Parsing and conversion never yield an object with a repeated key. */
  ghost predicate ValidWorld(w: World) {
    && (forall p :: p in w.files && w.files[p].JsonFile? ==> WellFormed(w.files[p].v))
    && (forall y :: w.toJson(y).Some? ==> WellFormed(w.toJson(y).value))
  }

  const MAX_DEPTH := 32

  // ── Top-level directives ───────────────────────────────────────────────────

  function Strings(items: seq<Value>): Option<seq<string>> {
    if items == [] then Some([])
    else
      var rest := Strings(items[..|items| - 1]);
      if rest.Some? && items[|items| - 1].Str? then Some(rest.value + [items[|items| - 1].s]) else None
  }

  /** The `extends` list of a document; `None` when it is not a string or a list of strings. */
  function Bases(doc: Value): Option<seq<string>> {
    if !doc.Obj? then Some([])
    else match Get(doc.fields, "extends")
      case None => Some([])
      case Some(Str(s)) => Some([s])
      case Some(Arr(items)) => Strings(items)
      case Some(_) => None
  }

  // ── Denotation ─────────────────────────────────────────────────────────────
  // `n` bounds the number of files nested below the one at hand. No stack of
  // visited files is involved.

  ghost function IncludesOf(w: World, n: nat, y: Yaml, p: Path): Option<Yaml>
    decreases n, 1, y
  {
    match y
    case Tagged(tag, payload) =>
      if tag == "include" && payload.Text? then FragmentOf(w, n, w.resolve(p, payload.s)) else None
    case Sequence(items) =>
      var r := ItemsOf(w, n, items, p);
      if r.Some? then Some(Sequence(r.value)) else None
    case Mapping(entries) =>
      var r := EntriesOf(w, n, entries, p);
      if r.Some? then Some(Mapping(r.value)) else None
    case _ => Some(y)
  }

  ghost function ItemsOf(w: World, n: nat, items: seq<Yaml>, p: Path): Option<seq<Yaml>>
    decreases n, 1, items
  {
    if items == [] then Some([])
    else
      var init := ItemsOf(w, n, items[..|items| - 1], p);
      var last := IncludesOf(w, n, items[|items| - 1], p);
      if init.Some? && last.Some? then Some(init.value + [last.value]) else None
  }

  ghost function EntriesOf(w: World, n: nat, entries: seq<Entry>, p: Path): Option<seq<Entry>>
    decreases n, 1, entries
  {
    if entries == [] then Some([])
    else
      var init := EntriesOf(w, n, entries[..|entries| - 1], p);
      var last := EntryOf(w, n, entries[|entries| - 1], p);
      if init.Some? && last.Some? then Some(init.value + [last.value]) else None
  }

  ghost function EntryOf(w: World, n: nat, e: Entry, p: Path): Option<Entry>
    decreases n, 1, e
  {
    var r := IncludesOf(w, n, e.value, p);
    if r.Some? then Some(Entry(e.key, r.value)) else None
  }

  /** The tree a file contributes: a fragment converts JSON, a document keeps it apart. */
  function Content(w: World, p: Path, doc: bool): Option<Yaml> {
    if p !in w.files then None
    else match w.files[p]
      case YamlFile(y) => Some(y)
      case JsonFile(v) => if doc then None else w.toYaml(v)
      case _ => None
  }

  /** An `!include` target: a raw node, its own includes substituted. */
  ghost function FragmentOf(w: World, n: nat, p: Path): Option<Yaml>
    decreases n, 0
  {
    if n == 0 || Content(w, p, false).None? then None
    else IncludesOf(w, n - 1, Content(w, p, false).value, p)
  }

  /** A document before `extends`: includes substituted, as JSON. */
  ghost function LoadedOf(w: World, n: nat, p: Path): Option<Value> {
    if p !in w.files then None
    else match w.files[p]
      case YamlFile(y) =>
        var r := IncludesOf(w, n, y, p);
        if r.Some? then w.toJson(r.value) else None
      case JsonFile(v) => Some(v)
      case _ => None
  }

  /** The bases folded left to right over an empty object. */
  function Folded(docs: seq<Value>): Value {
    if docs == [] then Obj([]) else Merged(Folded(docs[..|docs| - 1]), docs[|docs| - 1])
  }

  /** A composed document: its bases folded left to right, then its own content. */
  ghost function DocumentOf(w: World, n: nat, p: Path): Option<Value>
    decreases n, 0
  {
    if n == 0 then None
    else
      var loaded := LoadedOf(w, n - 1, p);
      if loaded.None? || Bases(loaded.value).None? then None
      else
        var bases, own := Bases(loaded.value).value, WithoutKey(loaded.value, "extends");
        var docs := DocumentsOf(w, n - 1, p, bases);
        if docs.None? then None
        else Some(if bases == [] then own else Merged(Folded(docs.value), own))
  }

  ghost function DocumentsOf(w: World, n: nat, p: Path, bases: seq<string>): (r: Option<seq<Value>>)
    ensures r.Some? ==> |r.value| == |bases|
    decreases n, 1, bases
  {
    if bases == [] then Some([])
    else
      var init := DocumentsOf(w, n, p, bases[..|bases| - 1]);
      var last := DocumentOf(w, n, w.resolve(p, bases[|bases| - 1]));
      if init.Some? && last.Some? then Some(init.value + [last.value]) else None
  }

  /** The selected profile's overlay, when the document has it. */
  function ProfileOf(merged: Value, name: string): Option<Value> {
    if merged.Obj? && Get(merged.fields, "profiles").Some? && Get(merged.fields, "profiles").value.Obj?
    then Get(Get(merged.fields, "profiles").value.fields, name)
    else None
  }

  function Stripped(v: Value): Value {
    WithoutKey(WithoutKey(v, "profiles"), "extends")
  }

  /** The whole composition: document, then profile, then metadata removed. */
  ghost function ComposedOf(w: World, entry: Path, profile: Option<string>): Option<Value> {
    var doc := DocumentOf(w, MAX_DEPTH + 1, entry);
    if doc.None? then None
    else match profile
      case None => Some(Stripped(doc.value))
      case Some(name) =>
        var overlay := ProfileOf(doc.value, name);
        if overlay.Some? then Some(Stripped(Merged(doc.value, overlay.value))) else None
  }

  // ── The file graph ─────────────────────────────────────────────────────────

  /** A file in one of its two roles: a document (whose `extends` is followed) or a fragment. */
  datatype Node = Node(path: Path, doc: bool)

  /** The files a tree includes. */
  ghost function Targets(w: World, y: Yaml, p: Path): set<Path> {
    match y
    case Tagged(tag, payload) =>
      if tag == "include" && payload.Text? then {w.resolve(p, payload.s)} else {}
    case Sequence(items) => ItemTargets(w, items, p)
    case Mapping(entries) => EntryTargets(w, entries, p)
    case _ => {}
  }

  ghost function ItemTargets(w: World, items: seq<Yaml>, p: Path): set<Path> {
    if items == [] then {}
    else ItemTargets(w, items[..|items| - 1], p) + Targets(w, items[|items| - 1], p)
  }

  ghost function EntryTargets(w: World, entries: seq<Entry>, p: Path): set<Path> {
    if entries == [] then {}
    else EntryTargets(w, entries[..|entries| - 1], p) + EntryTarget(w, entries[|entries| - 1], p)
  }

  ghost function EntryTarget(w: World, e: Entry, p: Path): set<Path> {
    Targets(w, e.value, p)
  }

  /** `v` is what document `p` loads to, at whatever nesting bound suffices. */
  ghost predicate Loads(w: World, p: Path, v: Value) {
    exists n: nat :: LoadedOf(w, n, p) == Some(v)
  }

  ghost predicate Includes(w: World, a: Node, b: Node) {
    !b.doc && Content(w, a.path, a.doc).Some? && b.path in Targets(w, Content(w, a.path, a.doc).value, a.path)
  }

  ghost predicate Extends(w: World, a: Node, b: Node) {
    a.doc && b.doc && exists v :: Loads(w, a.path, v) && IsBase(w, a.path, v, b.path)
  }

  ghost predicate IsBase(w: World, p: Path, v: Value, q: Path) {
    Bases(v).Some? && exists i :: 0 <= i < |Bases(v).value| && w.resolve(p, Bases(v).value[i]) == q
  }

  ghost predicate Edge(w: World, a: Node, b: Node) {
    Includes(w, a, b) || Extends(w, a, b)
  }

  ghost predicate Walk(w: World, walk: seq<Node>) {
    walk != [] && forall i :: 0 < i < |walk| ==> Edge(w, walk[i - 1], walk[i])
  }

  function Paths(walk: seq<Node>): (r: seq<Path>)
    ensures |r| == |walk| && forall i :: 0 <= i < |walk| ==> r[i] == walk[i].path
  {
    seq(|walk|, i requires 0 <= i < |walk| => walk[i].path)
  }
}
