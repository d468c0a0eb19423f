/** When composition succeeds, in terms of the file graph alone, and what a composed
    document looks like. */
module ComposeTheorems {
  import opened Json
  import opened Outcomes
  import opened Sorting
  import opened Merge
  import opened ComposeSpec
  import opened ComposeGraph
  import opened Compose

  // ── Success, read off the graph ────────────────────────────────────────────

  /** A file fit for its role: a fragment parses and has only proper includes, a
      document loads to a value whose `extends` is well shaped. */
  ghost predicate Sound(w: World, node: Node) {
    if node.doc then exists v :: Loads(w, node.path, v) && Bases(v).Some?
    else Content(w, node.path, false).Some? && !BadTag(Content(w, node.path, false).value)
  }

  /** Every walk from `node` visits at most `n` files, all of them sound. */
  ghost predicate Bounded(w: World, n: nat, node: Node) {
    forall walk :: Walk(w, walk) && walk[0] == node ==> |walk| <= n && Sound(w, walk[|walk| - 1])
  }

  ghost predicate Denotes(w: World, n: nat, node: Node) {
    if node.doc then DocumentOf(w, n, node.path).Some? else FragmentOf(w, n, node.path).Some?
  }

  lemma {:induction false} IncludesDenote(w: World, n: nat, y: Yaml, p: Path)
    ensures IncludesOf(w, n, y, p).Some? <==>
            !BadTag(y) && forall t :: t in Targets(w, y, p) ==> FragmentOf(w, n, t).Some?
    decreases y
  {
    hide FragmentOf;
    match y
    case Tagged(tag, payload) =>
      if !BadTag(y) { assert w.resolve(p, payload.s) in Targets(w, y, p); }
    case Sequence(items) => ItemsDenote(w, n, items, p);
    case Mapping(entries) => EntriesDenote(w, n, entries, p);
    case _ =>
  }

  lemma {:induction false} ItemsDenote(w: World, n: nat, items: seq<Yaml>, p: Path)
    ensures ItemsOf(w, n, items, p).Some? <==>
            && (forall i :: 0 <= i < |items| ==> !BadTag(items[i]))
            && (forall t :: t in ItemTargets(w, items, p) ==> FragmentOf(w, n, t).Some?)
    decreases items
  {
    hide FragmentOf, BadTag, IncludesOf, Targets;
    if items != [] {
      var init := items[..|items| - 1];
      ItemsDenote(w, n, init, p);
      IncludesDenote(w, n, items[|items| - 1], p);
      assert forall i :: 0 <= i < |init| ==> items[i] == init[i];
    }
  }

  lemma {:induction false} EntriesDenote(w: World, n: nat, entries: seq<Entry>, p: Path)
    ensures EntriesOf(w, n, entries, p).Some? <==>
            && (forall i :: 0 <= i < |entries| ==> !BadTag(entries[i].value))
            && (forall t :: t in EntryTargets(w, entries, p) ==> FragmentOf(w, n, t).Some?)
    decreases entries
  {
    hide FragmentOf, BadTag, IncludesOf, Targets;
    if entries != [] {
      var init := entries[..|entries| - 1];
      EntriesDenote(w, n, init, p);
      EntryDenotes(w, n, entries[|entries| - 1], p);
      assert forall i :: 0 <= i < |init| ==> entries[i] == init[i];
    }
  }

  lemma {:induction false} EntryDenotes(w: World, n: nat, e: Entry, p: Path)
    ensures IncludesOf(w, n, e.value, p).Some? <==>
            !BadTag(e.value) && forall t :: t in Targets(w, e.value, p) ==> FragmentOf(w, n, t).Some?
    decreases e
  {
    IncludesDenote(w, n, e.value, p);
  }

  lemma {:induction false} DocumentsDenote(w: World, n: nat, p: Path, bases: seq<string>)
    ensures DocumentsOf(w, n, p, bases).Some? <==>
            forall i :: 0 <= i < |bases| ==> DocumentOf(w, n, w.resolve(p, bases[i])).Some?
  {
    hide DocumentOf;
    if bases != [] {
      var init := bases[..|bases| - 1];
      DocumentsDenote(w, n, p, init);
      assert forall i :: 0 <= i < |init| ==> bases[i] == init[i];
    }
  }

  lemma FragmentDenotes(w: World, n: nat, p: Path)
    requires n > 0
    ensures FragmentOf(w, n, p).Some? <==>
            && Sound(w, Node(p, false))
            && forall next :: Edge(w, Node(p, false), next) ==> Denotes(w, n - 1, next)
  {
    hide IncludesOf, BadTag, Targets;
    var node := Node(p, false);
    if Content(w, p, false).Some? {
      var y := Content(w, p, false).value;
      IncludesDenote(w, n - 1, y, p);
      assert FragmentOf(w, n, p) == IncludesOf(w, n - 1, y, p);
      if FragmentOf(w, n, p).Some? {
        forall next | Edge(w, node, next) ensures Denotes(w, n - 1, next) {
          assert FragmentOf(w, n - 1, next.path).Some?;
        }
      }
      if forall next :: Edge(w, node, next) ==> Denotes(w, n - 1, next) {
        forall t | t in Targets(w, y, p) ensures FragmentOf(w, n - 1, t).Some? {
          assert Edge(w, node, Node(t, false));
          assert Denotes(w, n - 1, Node(t, false));
        }
      }
    }
  }

  /** What a document loads to at one bound it loads to at any bound its includes fit. */
  lemma LoadedWithin(w: World, n: nat, p: Path, v: Value)
    requires Loads(w, p, v)
    requires forall t :: t in DocTargets(w, p) ==> FragmentOf(w, n, t).Some?
    ensures LoadedOf(w, n, p) == Some(v)
  {
    hide IncludesOf, BadTag, Targets, FragmentOf;
    var m: nat :| LoadedOf(w, m, p) == Some(v);
    if w.files[p].YamlFile? {
      var y := w.files[p].y;
      IncludesDenote(w, m, y, p);
      IncludesDenote(w, n, y, p);
      if n <= m { FuelIncludes(w, n, m, y, p); } else { FuelIncludes(w, m, n, y, p); }
    }
  }

  lemma LoadedTargets(w: World, n: nat, p: Path)
    requires LoadedOf(w, n, p).Some?
    ensures forall t :: t in DocTargets(w, p) ==> FragmentOf(w, n, t).Some?
  {
    hide IncludesOf, BadTag, Targets, FragmentOf;
    if w.files[p].YamlFile? { IncludesDenote(w, n, w.files[p].y, p); }
  }

  lemma DocumentDenotes(w: World, n: nat, p: Path)
    requires n > 0
    ensures DocumentOf(w, n, p).Some? <==>
            && Sound(w, Node(p, true))
            && forall next :: Edge(w, Node(p, true), next) ==> Denotes(w, n - 1, next)
  {
    if DocumentOf(w, n, p).Some? { DocumentEdgesDenote(w, n, p); }
    if Sound(w, Node(p, true)) && forall next :: Edge(w, Node(p, true), next) ==> Denotes(w, n - 1, next) {
      EdgesDenoteDocument(w, n, p);
    }
  }

  lemma DocumentEdgesDenote(w: World, n: nat, p: Path)
    requires n > 0 && DocumentOf(w, n, p).Some?
    ensures Sound(w, Node(p, true))
    ensures forall next :: Edge(w, Node(p, true), next) ==> Denotes(w, n - 1, next)
  {
    hide LoadedOf, FragmentOf, Bases, Content, Targets;
    var v := LoadedOf(w, n - 1, p).value;
    assert Loads(w, p, v);
    LoadedTargets(w, n - 1, p);
    DocumentsDenote(w, n - 1, p, Bases(v).value);
    forall next | Edge(w, Node(p, true), next) ensures Denotes(w, n - 1, next) {
      if Includes(w, Node(p, true), next) {
        assert next.path in DocTargets(w, p);
      } else {
        DocumentBase(w, p, v, next);
      }
    }
  }

  lemma EdgesDenoteDocument(w: World, n: nat, p: Path)
    requires n > 0 && Sound(w, Node(p, true))
    requires forall next :: Edge(w, Node(p, true), next) ==> Denotes(w, n - 1, next)
    ensures DocumentOf(w, n, p).Some?
  {
    hide LoadedOf, FragmentOf, Bases, Content, Targets, Loads;
    var node := Node(p, true);
    var v :| Loads(w, p, v) && Bases(v).Some?;
    forall t | t in DocTargets(w, p) ensures FragmentOf(w, n - 1, t).Some? {
      assert Includes(w, node, Node(t, false));
      assert Edge(w, node, Node(t, false));
    }
    LoadedWithin(w, n - 1, p, v);
    forall i | 0 <= i < |Bases(v).value|
      ensures DocumentOf(w, n - 1, w.resolve(p, Bases(v).value[i])).Some?
    {
      BaseEdge(w, p, v, i);
      assert Denotes(w, n - 1, Node(w.resolve(p, Bases(v).value[i]), true));
    }
    DocumentsDenote(w, n - 1, p, Bases(v).value);
  }

  lemma BoundedNext(w: World, n: nat, node: Node, next: Node)
    requires n > 0 && Bounded(w, n, node) && Edge(w, node, next)
    ensures Bounded(w, n - 1, next)
  {
    hide Edge, Sound;
    forall walk | Walk(w, walk) && walk[0] == next ensures |walk| <= n - 1 && Sound(w, walk[|walk| - 1]) {
      PrependWalk(w, node, walk);
      var all := [node] + walk;
      assert all[|all| - 1] == walk[|walk| - 1];
    }
  }

  lemma BoundedHere(w: World, n: nat, node: Node)
    requires Bounded(w, n, node)
    ensures n > 0 && Sound(w, node)
  {
    assert Walk(w, [node]);
  }

  lemma BoundedFromNext(w: World, n: nat, node: Node, walk: seq<Node>)
    requires n > 0 && Sound(w, node) && Walk(w, walk) && walk[0] == node
    requires forall next :: Edge(w, node, next) ==> Bounded(w, n - 1, next)
    ensures |walk| <= n && Sound(w, walk[|walk| - 1])
  {
    hide Edge, Sound;
    if |walk| > 1 {
      TailWalk(w, walk);
      var tail := walk[1..];
      assert Bounded(w, n - 1, tail[0]);
      assert tail[|tail| - 1] == walk[|walk| - 1];
    }
  }

  /** A node denotes something within `n` files exactly when every walk from it is
      that short and sound. */
  lemma {:induction false} DenotesIffBounded(w: World, n: nat, node: Node)
    ensures Denotes(w, n, node) <==> Bounded(w, n, node)
    decreases n
  {
    hide Edge, Sound, Bounded;
    if Bounded(w, n, node) { BoundedHere(w, n, node); }
    if n > 0 {
      StepDenotes(w, n, node);
      forall next | Edge(w, node, next) ensures Denotes(w, n - 1, next) <==> Bounded(w, n - 1, next) {
        DenotesIffBounded(w, n - 1, next);
      }
      if Bounded(w, n, node) {
        forall next | Edge(w, node, next) ensures Denotes(w, n - 1, next) { BoundedNext(w, n, node, next); }
      }
      if Denotes(w, n, node) { DenotesBounded(w, n, node); }
    }
  }

  lemma StepDenotes(w: World, n: nat, node: Node)
    requires n > 0
    ensures Denotes(w, n, node) <==>
            Sound(w, node) && forall next :: Edge(w, node, next) ==> Denotes(w, n - 1, next)
  {
    hide Edge, Sound, DocumentOf, FragmentOf;
    if node.doc { DocumentDenotes(w, n, node.path); } else { FragmentDenotes(w, n, node.path); }
    assert node == Node(node.path, node.doc);
  }

  lemma DenotesBounded(w: World, n: nat, node: Node)
    requires n > 0 && Sound(w, node)
    requires forall next :: Edge(w, node, next) ==> Bounded(w, n - 1, next)
    ensures Bounded(w, n, node)
  {
    hide Edge, Sound;
    forall walk | Walk(w, walk) && walk[0] == node ensures |walk| <= n && Sound(w, walk[|walk| - 1]) {
      BoundedFromNext(w, n, node, walk);
    }
  }

  /** The document knows the selected profile, if one is selected. */
  ghost predicate ProfileKnown(w: World, entry: Path, profile: Option<string>) {
    profile.Some? ==>
      && DocumentOf(w, MAX_DEPTH + 1, entry).Some?
      && ProfileOf(DocumentOf(w, MAX_DEPTH + 1, entry).value, profile.value).Some?
  }

  /** Composition succeeds exactly when every walk of extends/include edges from the
      entry is at most 32 edges long, meets no file twice, and stays on sound files,
      and the document knows the selected profile. */
  lemma ComposeExactly(w: World, entry: Path, profile: Option<string>)
    ensures ComposedOf(w, entry, profile).Some? && Clear(w, [], Node(entry, true)) <==>
            && ProfileKnown(w, entry, profile)
            && forall walk :: Walk(w, walk) && walk[0] == Node(entry, true) ==>
                 && |walk| <= MAX_DEPTH + 1
                 && Sound(w, walk[|walk| - 1])
                 && Distinct(Paths(walk))
  {
    hide Sound, Edge, DocumentOf, Stripped, Distinct, Walk, ProfileOf, Merged;
    var node := Node(entry, true);
    DenotesIffBounded(w, MAX_DEPTH + 1, node);
    assert forall walk :: [] + Paths(walk) == Paths(walk);
  }

  // ── The composed document ──────────────────────────────────────────────────

  lemma StrippedLacks(v: Value, f: Field)
    requires WellFormed(v) && v.Obj? && f in Stripped(v).fields
    ensures f.key != "extends" && f.key != "profiles"
  {
    WithoutKeyWellFormed(v, "profiles");
    RemoveMember(WithoutKey(v, "profiles").fields, "extends", f);
    RemoveMember(v.fields, "profiles", f);
  }

  /** No top-level `extends` or `profiles` is left for the config schema to refuse. */
  lemma NoDirectivesLeft(w: World, entry: Path, profile: Option<string>, f: Field)
    requires ValidWorld(w) && ComposedOf(w, entry, profile).Some? && ComposedOf(w, entry, profile).value.Obj?
    requires f in ComposedOf(w, entry, profile).value.fields
    ensures f.key != "extends" && f.key != "profiles"
  {
    hide DocumentOf, Merged, ProfileOf, WellFormed, Stripped;
    DocumentWellFormed(w, MAX_DEPTH + 1, entry);
    var doc := DocumentOf(w, MAX_DEPTH + 1, entry).value;
    if profile.Some? {
      ProfileWellFormed(doc, profile.value);
      var merged := Merged(doc, ProfileOf(doc, profile.value).value);
      MergedWellFormed(doc, ProfileOf(doc, profile.value).value);
      StrippedKeepsKind(merged);
      StrippedLacks(merged, f);
    } else {
      StrippedKeepsKind(doc);
      StrippedLacks(doc, f);
    }
  }

  lemma StrippedKeepsKind(v: Value)
    ensures Stripped(v).Obj? <==> v.Obj?
  {
  }

  lemma {:induction false} DocumentWellFormed(w: World, n: nat, p: Path)
    requires ValidWorld(w) && DocumentOf(w, n, p).Some?
    ensures WellFormed(DocumentOf(w, n, p).value)
    decreases n, 0
  {
    hide WellFormed, Merged, LoadedOf, Bases;
    LoadedWellFormed(w, n - 1, p);
    var loaded := LoadedOf(w, n - 1, p).value;
    var bases, own := Bases(loaded).value, WithoutKey(loaded, "extends");
    var docs := DocumentsOf(w, n - 1, p, bases).value;
    FoldedWellFormed(w, n - 1, p, bases);
    MergedWellFormed(Folded(docs), own);
  }

  lemma {:induction false} FoldedWellFormed(w: World, n: nat, p: Path, bases: seq<string>)
    requires ValidWorld(w) && DocumentsOf(w, n, p, bases).Some?
    ensures WellFormed(Folded(DocumentsOf(w, n, p, bases).value))
    decreases n, 1, bases
  {
    hide WellFormed, Merged, DocumentOf;
    if bases == [] {
      EmptyObject();
    } else {
      var init := bases[..|bases| - 1];
      FoldedWellFormed(w, n, p, init);
      var last := w.resolve(p, bases[|bases| - 1]);
      DocumentWellFormed(w, n, last);
      var docs, d := DocumentsOf(w, n, p, init).value, DocumentOf(w, n, last).value;
      FoldedNext(docs, d);
      MergedWellFormed(Folded(docs), d);
    }
  }

  // ── Documents without directives ───────────────────────────────────────────

  /** No tag anywhere in the tree. */
  predicate Plain(y: Yaml) {
    match y
    case Tagged(_, _) => false
    case Sequence(items) => forall i :: 0 <= i < |items| ==> Plain(items[i])
    case Mapping(entries) => forall i :: 0 <= i < |entries| ==> Plain(entries[i].value)
    case _ => true
  }

  lemma {:induction false} PlainIncludes(w: World, n: nat, y: Yaml, p: Path)
    requires Plain(y)
    ensures IncludesOf(w, n, y, p) == Some(y) && Targets(w, y, p) == {}
    decreases y
  {
    match y
    case Sequence(items) => PlainItems(w, n, items, p);
    case Mapping(entries) => PlainEntries(w, n, entries, p);
    case _ =>
  }

  lemma {:induction false} PlainItems(w: World, n: nat, items: seq<Yaml>, p: Path)
    requires forall i :: 0 <= i < |items| ==> Plain(items[i])
    ensures ItemsOf(w, n, items, p) == Some(items) && ItemTargets(w, items, p) == {}
    decreases items
  {
    hide Plain, IncludesOf, Targets, ItemsOf, ItemTargets;
    ItemsStep(w, n, items, p);
    if items != [] {
      var init := items[..|items| - 1];
      PlainItems(w, n, init, p);
      PlainIncludes(w, n, items[|items| - 1], p);
      assert items == init + [items[|items| - 1]];
    }
  }

  lemma ItemsStep(w: World, n: nat, items: seq<Yaml>, p: Path)
    ensures items == [] ==> ItemsOf(w, n, items, p) == Some([]) && ItemTargets(w, items, p) == {}
    ensures items != [] ==>
              var init, last := items[..|items| - 1], items[|items| - 1];
              && (ItemsOf(w, n, init, p) == Some(init) && IncludesOf(w, n, last, p) == Some(last)
                  ==> ItemsOf(w, n, items, p) == Some(init + [last]))
              && ItemTargets(w, items, p) == ItemTargets(w, init, p) + Targets(w, last, p)
  {
    hide IncludesOf, Targets;
  }

  lemma {:induction false} PlainEntries(w: World, n: nat, entries: seq<Entry>, p: Path)
    requires forall i :: 0 <= i < |entries| ==> Plain(entries[i].value)
    ensures EntriesOf(w, n, entries, p) == Some(entries) && EntryTargets(w, entries, p) == {}
    decreases entries
  {
    hide Plain, EntryOf, EntryTarget, EntriesOf, EntryTargets;
    EntriesStep(w, n, entries, p);
    if entries != [] {
      var init := entries[..|entries| - 1];
      PlainEntries(w, n, init, p);
      PlainEntry(w, n, entries[|entries| - 1], p);
      assert entries == init + [entries[|entries| - 1]];
    }
  }

  lemma EntriesStep(w: World, n: nat, entries: seq<Entry>, p: Path)
    ensures entries == [] ==> EntriesOf(w, n, entries, p) == Some([]) && EntryTargets(w, entries, p) == {}
    ensures entries != [] ==>
              var init, last := entries[..|entries| - 1], entries[|entries| - 1];
              && (EntriesOf(w, n, init, p) == Some(init) && EntryOf(w, n, last, p) == Some(last)
                  ==> EntriesOf(w, n, entries, p) == Some(init + [last]))
              && EntryTargets(w, entries, p) == EntryTargets(w, init, p) + EntryTarget(w, last, p)
  {
    hide EntryOf, EntryTarget;
  }

  lemma {:induction false} PlainEntry(w: World, n: nat, e: Entry, p: Path)
    requires Plain(e.value)
    ensures EntryOf(w, n, e, p) == Some(e) && EntryTarget(w, e, p) == {}
    decreases e
  {
    PlainIncludes(w, n, e.value, p);
  }

  /** The document a directive-free file holds. */
  ghost predicate PlainFile(w: World, entry: Path, v: Value) {
    && entry in w.files
    && (match w.files[entry]
        case YamlFile(y) => Plain(y) && w.toJson(y) == Some(v)
        case JsonFile(j) => j == v
        case _ => false)
    && (v.Obj? ==> !HasKey(v.fields, "extends") && !HasKey(v.fields, "profiles"))
  }

  /** On a document with no directives and no profile the merge path returns that
      document, as the fast path does. */
  lemma FastPathAgrees(w: World, entry: Path, v: Value)
    requires PlainFile(w, entry, v)
    ensures ComposedOf(w, entry, None) == Some(v) && Clear(w, [], Node(entry, true))
  {
    hide IncludesOf, Targets, Clear, Plain;
    var n := MAX_DEPTH;
    if w.files[entry].YamlFile? { PlainIncludes(w, n, w.files[entry].y, entry); }
    assert LoadedOf(w, n, entry) == Some(v) && Bases(v) == Some([]);
    assert WithoutKey(v, "extends") == v && WithoutKey(v, "profiles") == v;
    assert DocumentsOf(w, n, entry, []) == Some([]);
    assert DocumentOf(w, n + 1, entry) == Some(v);
    DocumentClear(w, [], entry, n, v);
  }
}
