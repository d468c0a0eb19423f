/** What a composed document holds, read off the files alone: which documents
    `extends` brings in and in what order, what each key ends up with, where included
    fragments go, and what a profile changes (cli/src/compose.rs). */
module ComposeMeaning {
  import opened Json
  import opened Outcomes
  import opened Merge
  import opened ComposeSpec
  import opened Compose
  import opened ComposeTheorems

  // ── Fields ─────────────────────────────────────────────────────────────────

  /** The value a field is listed with is the value under its key. */
  lemma GetListed(fields: seq<Field>, key: string, v: Value)
    requires DistinctKeys(fields)
    ensures Get(fields, key) == Some(v) <==> Field(key, v) in fields
  {
    if Field(key, v) in fields {
      var i :| 0 <= i < |fields| && fields[i] == Field(key, v);
      FindDistinct(fields, i);
    }
  }

  /** What is under the keys of an object after one is removed. */
  lemma GetRemoved(fields: seq<Field>, key: string, k: string)
    requires DistinctKeys(fields)
    ensures Get(Remove(fields, key), k) == if k == key then None else Get(fields, k)
  {
    hide Remove;
    var r := Remove(fields, key);
    RemoveDistinct(fields, key);
    if Get(r, k).Some? {
      var v := Get(r, k).value;
      GetListed(r, k, v);
      RemoveMember(fields, key, Field(k, v));
      GetListed(fields, k, v);
    } else if Get(fields, k).Some? && k != key {
      var v := Get(fields, k).value;
      GetListed(fields, k, v);
      RemoveMember(fields, key, Field(k, v));
      GetListed(r, k, v);
    }
  }

  /** What a deep merge puts under a key that one or both sides hold. */
  function Over(below: Option<Value>, above: Option<Value>): Option<Value> {
    match (below, above)
    case (_, None) => below
    case (None, _) => above
    case (Some(b), Some(a)) => if b.Obj? && a.Obj? then Some(Obj(MergedFields(b.fields, a.fields))) else Some(a)
  }

  lemma GetOver(below: seq<Field>, above: seq<Field>, k: string)
    ensures Get(MergedFields(below, above), k) == Over(Get(below, k), Get(above, k))
  {
    GetMerged(below, above, k);
  }

  // ── Which documents a document extends ─────────────────────────────────────

  /** `doc` names exactly `names` as its bases, in this order: no `extends`, one
      string, or a list of strings. */
  ghost predicate ExtendsAre(doc: Value, names: seq<string>) {
    if !doc.Obj? || (forall f :: f in doc.fields ==> f.key != "extends") then names == []
    else
      || (exists s :: Field("extends", Str(s)) in doc.fields && names == [s])
      || (exists items :: Field("extends", Arr(items)) in doc.fields && |names| == |items|
                          && forall i :: 0 <= i < |items| ==> items[i] == Str(names[i]))
  }

  lemma {:induction false} StringsIs(items: seq<Value>)
    ensures Strings(items).Some? <==> forall i :: 0 <= i < |items| ==> items[i].Str?
    ensures Strings(items).Some? ==>
              |Strings(items).value| == |items|
              && forall i :: 0 <= i < |items| ==> items[i] == Str(Strings(items).value[i])
  {
    if items != [] { StringsIs(items[..|items| - 1]); }
  }

  lemma ExtendsListed(doc: Value, v: Value)
    requires WellFormed(doc) && doc.Obj?
    ensures Get(doc.fields, "extends") == Some(v) <==> Field("extends", v) in doc.fields
    ensures Get(doc.fields, "extends").None? <==> forall f :: f in doc.fields ==> f.key != "extends"
  {
    GetListed(doc.fields, "extends", v);
    var i := Find(doc.fields, "extends");
    if i < |doc.fields| { assert doc.fields[i] in doc.fields; }
  }

  lemma SameNames(a: seq<string>, b: seq<string>, items: seq<Value>)
    requires |a| == |items| == |b|
    requires forall i :: 0 <= i < |items| ==> items[i] == Str(a[i]) && items[i] == Str(b[i])
    ensures a == b
  {
    forall i | 0 <= i < |a| ensures a[i] == b[i] { assert items[i] == Str(a[i]); }
  }

  lemma BasesAre(doc: Value, names: seq<string>)
    requires WellFormed(doc)
    ensures Bases(doc) == Some(names) <==> ExtendsAre(doc, names)
  {
    hide WellFormed;
    if doc.Obj? {
      ExtendsListed(doc, Null);
      match Get(doc.fields, "extends")
      case None =>
      case Some(v) =>
        ExtendsListed(doc, v);
        forall u | Field("extends", u) in doc.fields ensures u == v { ExtendsListed(doc, u); }
        if v.Arr? {
          StringsIs(v.items);
          if ExtendsAre(doc, names) { SameNames(names, Strings(v.items).value, v.items); }
        }
    }
  }

  // ── Documents ──────────────────────────────────────────────────────────────

  lemma {:induction false} DocumentsAre(w: World, n: nat, p: Path, names: seq<string>, docs: seq<Value>)
    requires |docs| == |names|
    ensures DocumentsOf(w, n, p, names) == Some(docs) <==>
            forall i :: 0 <= i < |names| ==> DocumentOf(w, n, w.resolve(p, names[i])) == Some(docs[i])
  {
    hide DocumentOf;
    if names != [] {
      var k := |names| - 1;
      DocumentsAre(w, n, p, names[..k], docs[..k]);
      assert docs == docs[..k] + [docs[k]];
      if DocumentsOf(w, n, p, names) == Some(docs) {
        var init := DocumentsOf(w, n, p, names[..k]).value;
        assert docs[..k] == init;
      }
    }
  }

  /** A document whose `extends` is one string: that document over an empty object,
      then the document's own keys. */
  lemma ExtendsOne(w: World, n: nat, p: Path, fields: seq<Field>, s: string, b: Value)
    requires WellFormed(Obj(fields)) && LoadedOf(w, n, p) == Some(Obj(fields))
    requires Field("extends", Str(s)) in fields && DocumentOf(w, n, w.resolve(p, s)) == Some(b)
    ensures DocumentOf(w, n + 1, p) == Some(Merged(Merged(Obj([]), b), Obj(Remove(fields, "extends"))))
  {
    hide LoadedOf, DocumentsOf, Bases, WellFormed, Merged, Remove;
    BasesAre(Obj(fields), [s]);
    DocumentsAre(w, n, p, [s], [b]);
    assert [b][..0] == [];
    assert Folded([b]) == Merged(Obj([]), b);
  }

  /** A document whose `extends` is a list: its documents folded in list order, then the
      document's own keys; an empty list is as good as none. */
  lemma ExtendsList(w: World, n: nat, p: Path, fields: seq<Field>, names: seq<string>, items: seq<Value>,
                    docs: seq<Value>)
    requires WellFormed(Obj(fields)) && LoadedOf(w, n, p) == Some(Obj(fields))
    requires Field("extends", Arr(items)) in fields && |docs| == |names| == |items|
    requires forall i :: 0 <= i < |items| ==> items[i] == Str(names[i])
    requires forall i :: 0 <= i < |names| ==> DocumentOf(w, n, w.resolve(p, names[i])) == Some(docs[i])
    ensures DocumentOf(w, n + 1, p)
         == Some(if docs == [] then Obj(Remove(fields, "extends"))
                 else Merged(Folded(docs), Obj(Remove(fields, "extends"))))
  {
    hide LoadedOf, DocumentsOf, Bases, WellFormed, Merged, Remove, Folded;
    BasesAre(Obj(fields), names);
    DocumentsAre(w, n, p, names, docs);
  }

  /** A loaded document is composed exactly when its `extends` is absent, a string or a
      list of strings, and every document so named is. */
  lemma ComposedExactly(w: World, n: nat, p: Path, v: Value)
    requires WellFormed(v) && LoadedOf(w, n, p) == Some(v)
    ensures DocumentOf(w, n + 1, p).Some? <==>
            exists names :: ExtendsAre(v, names)
              && forall i :: 0 <= i < |names| ==> DocumentOf(w, n, w.resolve(p, names[i])).Some?
  {
    hide LoadedOf, Bases, WellFormed, Merged, Folded, ExtendsAre;
    forall names ensures Bases(v) == Some(names) <==> ExtendsAre(v, names) { BasesAre(v, names); }
    if Bases(v).Some? { DocumentsDenote(w, n, p, Bases(v).value); }
  }

  /** A document that extends nothing is its own keys. */
  lemma ExtendsNothing(w: World, n: nat, p: Path, v: Value)
    requires WellFormed(v) && LoadedOf(w, n, p) == Some(v)
    requires v.Obj? ==> forall f :: f in v.fields ==> f.key != "extends"
    ensures DocumentOf(w, n + 1, p) == Some(v)
  {
    hide LoadedOf, Bases, WellFormed, Merged;
    BasesAre(v, []);
    DocumentsAre(w, n, p, [], []);
    assert WithoutKey(v, "extends") == v by {
      if v.Obj? { ExtendsListed(v, Null); }
    }
  }

  // ── Later bases win ────────────────────────────────────────────────────────

  ghost predicate AllObjects(docs: seq<Value>) {
    forall i :: 0 <= i < |docs| ==> docs[i].Obj?
  }

  lemma {:induction false} FoldedObject(docs: seq<Value>)
    requires AllObjects(docs)
    ensures Folded(docs).Obj?
  {
    if docs != [] { FoldedObject(docs[..|docs| - 1]); }
  }

  /** Of the bases that hold a key the last one decides, unless it and an earlier one
      hold objects: a value of the last that is no object is the fold's. */
  lemma {:induction false} LastBaseWins(docs: seq<Value>, i: nat, k: string)
    requires AllObjects(docs) && i < |docs|
    requires HasKey(docs[i].fields, k) && forall j :: i < j < |docs| ==> !HasKey(docs[j].fields, k)
    requires !Get(docs[i].fields, k).value.Obj? || forall j :: 0 <= j < i ==> !HasKey(docs[j].fields, k)
    ensures Folded(docs).Obj? && Get(Folded(docs).fields, k) == Get(docs[i].fields, k)
  {
    hide MergedFields, Folded, Get, HasKey;
    var init, last := docs[..|docs| - 1], docs[|docs| - 1];
    FoldedNextKey(docs, k);
    KeyUnder(docs[i].fields, k);
    KeyUnder(last.fields, k);
    if i < |init| {
      LastBaseWins(init, i, k);
    } else if forall j :: 0 <= j < i ==> !HasKey(docs[j].fields, k) {
      FoldedLacks(init, k);
      KeyUnder(Folded(init).fields, k);
    }
  }

  lemma KeyUnder(fields: seq<Field>, k: string)
    ensures HasKey(fields, k) <==> Get(fields, k).Some?
  {
  }

  lemma FoldedNextKey(docs: seq<Value>, k: string)
    requires AllObjects(docs) && docs != []
    ensures var init := docs[..|docs| - 1];
            && Folded(init).Obj? && Folded(docs).Obj?
            && Get(Folded(docs).fields, k) == Over(Get(Folded(init).fields, k), Get(docs[|docs| - 1].fields, k))
  {
    hide MergedFields;
    var init := docs[..|docs| - 1];
    FoldedObject(init);
    GetOver(Folded(init).fields, docs[|docs| - 1].fields, k);
  }

  lemma {:induction false} FoldedLacks(docs: seq<Value>, k: string)
    requires AllObjects(docs) && forall j :: 0 <= j < |docs| ==> !HasKey(docs[j].fields, k)
    ensures Folded(docs).Obj? && !HasKey(Folded(docs).fields, k)
  {
    if docs != [] {
      var init, last := docs[..|docs| - 1], docs[|docs| - 1];
      FoldedLacks(init, k);
      GetOver(Folded(init).fields, last.fields, k);
    }
  }

  // ── The composed value, key by key ─────────────────────────────────────────

  predicate Directive(k: string) {
    k == "extends" || k == "profiles"
  }

  lemma GetStripped(fields: seq<Field>, k: string)
    requires WellFormedFields(fields)
    ensures Stripped(Obj(fields)).Obj?
    ensures Get(Stripped(Obj(fields)).fields, k) == if Directive(k) then None else Get(fields, k)
  {
    hide Remove, WellFormed;
    GetRemoved(fields, "profiles", k);
    RemoveDistinct(fields, "profiles");
    GetRemoved(Remove(fields, "profiles"), "extends", k);
  }

  /** The entry extends one document: under every key but the directives the composed
      value holds the base's value with the entry's over it. So a key only the base has
      is in the result, and a key the entry has wins unless both hold objects. */
  lemma BaseAndChild(w: World, entry: Path, fields: seq<Field>, s: string, base: seq<Field>, k: string)
    requires ValidWorld(w) && WellFormed(Obj(fields)) && WellFormed(Obj(base))
    requires LoadedOf(w, 32, entry) == Some(Obj(fields)) && Field("extends", Str(s)) in fields
    requires DocumentOf(w, 32, w.resolve(entry, s)) == Some(Obj(base))
    ensures ComposedOf(w, entry, None).Some? && ComposedOf(w, entry, None).value.Obj?
    ensures Get(ComposedOf(w, entry, None).value.fields, k)
         == if Directive(k) then None else Over(Get(base, k), Get(fields, k))
  {
    hide LoadedOf, DocumentOf, Remove, Merged, MergedFields, WellFormed, Stripped, Directive;
    var own := Remove(fields, "extends");
    ExtendsOne(w, 32, entry, fields, s, Obj(base));
    EmptyUnder(base);
    FieldsWellFormed(fields);
    WithoutKeyWellFormed(Obj(fields), "extends");
    BothWellFormed(base, own);
    GetRemoved(fields, "extends", k);
    GetOver(base, own, k);
    GetStripped(MergedFields(base, own), k);
    DirectiveIs(k);
  }

  lemma FieldsWellFormed(fields: seq<Field>)
    requires WellFormed(Obj(fields))
    ensures WellFormedFields(fields)
  {
  }

  lemma DirectiveIs(k: string)
    ensures Directive(k) <==> k in {"extends", "profiles"}
  {
  }

  lemma BothWellFormed(below: seq<Field>, above: seq<Field>)
    requires WellFormed(Obj(below)) && WellFormed(Obj(above))
    ensures WellFormedFields(MergedFields(below, above))
    ensures Merged(Obj(below), Obj(above)) == Obj(MergedFields(below, above))
  {
    hide MergedFields;
    MergedFieldsWellFormed(below, above);
  }

  /** Over an empty object a document with unique keys is itself. */
  lemma EmptyUnder(base: seq<Field>)
    ensures Merged(Obj([]), Obj(base)) == Obj(base)
  {
    AddedAll([], base);
    assert Updated([], base) == [];
  }

  /** A selected profile is merged over the document, key by key; nothing else is. */
  lemma ProfileOver(w: World, entry: Path, fields: seq<Field>, profiles: seq<Field>, name: string,
                    overlay: seq<Field>, k: string)
    requires ValidWorld(w) && WellFormed(Obj(fields)) && DocumentOf(w, 33, entry) == Some(Obj(fields))
    requires Field("profiles", Obj(profiles)) in fields && Field(name, Obj(overlay)) in profiles
    ensures ComposedOf(w, entry, Some(name)).Some? && ComposedOf(w, entry, Some(name)).value.Obj?
    ensures Get(ComposedOf(w, entry, Some(name)).value.fields, k)
         == if Directive(k) then None else Over(Get(fields, k), Get(overlay, k))
  {
    hide DocumentOf, Remove, Merged, MergedFields, WellFormed, Stripped, Directive;
    ProfileListed(fields, profiles, name, Obj(overlay));
    BothWellFormed(fields, overlay);
    GetOver(fields, overlay, k);
    GetStripped(MergedFields(fields, overlay), k);
  }

  lemma ProfileListed(fields: seq<Field>, profiles: seq<Field>, name: string, overlay: Value)
    requires WellFormed(Obj(fields)) && Field("profiles", Obj(profiles)) in fields && Field(name, overlay) in profiles
    ensures ProfileOf(Obj(fields), name) == Some(overlay) && WellFormed(overlay)
  {
    var i :| 0 <= i < |fields| && fields[i] == Field("profiles", Obj(profiles));
    assert WellFormed(fields[i].value);
    GetListed(fields, "profiles", Obj(profiles));
    GetListed(profiles, name, overlay);
    ProfileWellFormed(Obj(fields), name);
  }

  /** A profile is known exactly when the document's `profiles` object lists it, and the
      names given with a refusal are that object's keys in order. */
  lemma ProfilesKnown(fields: seq<Field>, profiles: seq<Field>, name: string)
    requires WellFormed(Obj(fields)) && Field("profiles", Obj(profiles)) in fields
    ensures ProfileOf(Obj(fields), name).Some? <==> exists v :: Field(name, v) in profiles
    ensures |KnownProfiles(Obj(fields))| == |profiles|
    ensures forall i :: 0 <= i < |profiles| ==> KnownProfiles(Obj(fields))[i] == profiles[i].key
  {
    var i :| 0 <= i < |fields| && fields[i] == Field("profiles", Obj(profiles));
    assert WellFormed(fields[i].value);
    GetListed(fields, "profiles", Obj(profiles));
    if ProfileOf(Obj(fields), name).Some? { GetListed(profiles, name, ProfileOf(Obj(fields), name).value); }
    forall v | Field(name, v) in profiles ensures ProfileOf(Obj(fields), name).Some? { GetListed(profiles, name, v); }
  }

  /** Without a `profiles` object no profile is known. */
  lemma NoProfiles(doc: Value, name: string)
    requires WellFormed(doc)
    requires doc.Obj? ==> forall f :: f in doc.fields && f.key == "profiles" ==> !f.value.Obj?
    ensures ProfileOf(doc, name).None? && KnownProfiles(doc) == []
  {
    if doc.Obj? {
      var i := Find(doc.fields, "profiles");
      if i < |doc.fields| { assert doc.fields[i] in doc.fields; }
    }
  }

  /** Without a profile only the directives go. */
  lemma NoProfile(w: World, entry: Path, fields: seq<Field>, k: string)
    requires WellFormed(Obj(fields)) && DocumentOf(w, 33, entry) == Some(Obj(fields))
    ensures ComposedOf(w, entry, None).Some? && ComposedOf(w, entry, None).value.Obj?
    ensures Get(ComposedOf(w, entry, None).value.fields, k) == if Directive(k) then None else Get(fields, k)
  {
    hide DocumentOf, WellFormed, Stripped, Directive;
    FieldsWellFormed(fields);
    GetStripped(fields, k);
  }

  // ── Included fragments, place by place ─────────────────────────────────────

  /** The node below `y` at `path`: positions in sequences and mappings. Nothing is
      below a tag. */
  function NodeAt(y: Yaml, path: seq<nat>): Option<Yaml> {
    if path == [] then Some(y)
    else match y
      case Sequence(items) => if path[0] < |items| then NodeAt(items[path[0]], path[1..]) else None
      case Mapping(entries) => if path[0] < |entries| then NodeAt(entries[path[0]].value, path[1..]) else None
      case _ => None
  }

  /** Same kind of node; a mapping keeps its keys in their places, a leaf is unchanged. */
  predicate SameNode(x: Yaml, y: Yaml) {
    match x
    case Sequence(items) => y.Sequence? && |y.items| == |items|
    case Mapping(entries) =>
      y.Mapping? && |y.entries| == |entries| && forall i :: 0 <= i < |entries| ==> y.entries[i].key == entries[i].key
    case _ => y == x
  }

  lemma {:induction false} ItemAt(w: World, n: nat, items: seq<Yaml>, p: Path, i: nat)
    requires ItemsOf(w, n, items, p).Some?
    ensures |ItemsOf(w, n, items, p).value| == |items|
    ensures i < |items| ==> IncludesOf(w, n, items[i], p) == Some(ItemsOf(w, n, items, p).value[i])
  {
    hide IncludesOf;
    if items != [] { ItemAt(w, n, items[..|items| - 1], p, i); }
  }

  lemma {:induction false} EntryAt(w: World, n: nat, entries: seq<Entry>, p: Path, i: nat)
    requires EntriesOf(w, n, entries, p).Some?
    ensures |EntriesOf(w, n, entries, p).value| == |entries|
    ensures i < |entries| ==>
              var e := EntriesOf(w, n, entries, p).value[i];
              e.key == entries[i].key && IncludesOf(w, n, entries[i].value, p) == Some(e.value)
  {
    hide IncludesOf;
    if entries != [] { EntryAt(w, n, entries[..|entries| - 1], p, i); }
  }

  /** Resolving includes puts, at the place of every `!include`, the fragment its path
      resolves to, and changes nothing at any other place. */
  lemma {:induction false} IncludedAt(w: World, n: nat, y: Yaml, p: Path, path: seq<nat>)
    requires IncludesOf(w, n, y, p).Some? && NodeAt(y, path).Some?
    ensures var x, r := NodeAt(y, path).value, IncludesOf(w, n, y, p).value;
            if x.Tagged? then
              && x.tag == "include" && x.payload.Text?
              && NodeAt(r, path).Some? && NodeAt(r, path) == FragmentOf(w, n, w.resolve(p, x.payload.s))
            else NodeAt(r, path).Some? && SameNode(x, NodeAt(r, path).value)
    decreases path
  {
    if path == [] {
      NodeKept(w, n, y, p);
    } else {
      match y
      case Sequence(items) =>
        ItemAt(w, n, items, p, path[0]);
        IncludedAt(w, n, items[path[0]], p, path[1..]);
      case Mapping(entries) =>
        EntryAt(w, n, entries, p, path[0]);
        IncludedAt(w, n, entries[path[0]].value, p, path[1..]);
    }
  }

  lemma NodeKept(w: World, n: nat, y: Yaml, p: Path)
    requires IncludesOf(w, n, y, p).Some?
    ensures var r := IncludesOf(w, n, y, p).value;
            if y.Tagged? then
              && y.tag == "include" && y.payload.Text?
              && FragmentOf(w, n, w.resolve(p, y.payload.s)) == Some(r)
            else SameNode(y, r)
  {
    hide FragmentOf;
    match y
    case Sequence(items) => ItemAt(w, n, items, p, 0);
    case Mapping(entries) =>
      EntryAt(w, n, entries, p, 0);
      forall i | 0 <= i < |entries|
        ensures EntriesOf(w, n, entries, p).value[i].key == entries[i].key
      {
        EntryAt(w, n, entries, p, i);
      }
    case _ =>
  }

  /** A tree is refused for its tags exactly when some place holds a tag other than
      `!include`, or an `!include` without a text. */
  lemma {:induction false} BadTagAt(y: Yaml) returns (path: seq<nat>)
    requires BadTag(y)
    ensures NodeAt(y, path).Some? && NodeAt(y, path).value.Tagged?
    ensures !(NodeAt(y, path).value.tag == "include" && NodeAt(y, path).value.payload.Text?)
    decreases y
  {
    match y
    case Tagged(_, _) => path := [];
    case Sequence(items) =>
      var i: nat :| i < |items| && BadTag(items[i]);
      var rest := BadTagAt(items[i]);
      path := [i] + rest;
      assert path[1..] == rest;
    case Mapping(entries) =>
      var i: nat :| i < |entries| && BadTag(entries[i].value);
      var rest := BadTagAt(entries[i].value);
      path := [i] + rest;
      assert path[1..] == rest;
  }

  /** A place with such a tag makes the tree unfit. */
  lemma {:induction false} TagAtIsBad(y: Yaml, path: seq<nat>)
    requires NodeAt(y, path).Some? && NodeAt(y, path).value.Tagged?
    requires !(NodeAt(y, path).value.tag == "include" && NodeAt(y, path).value.payload.Text?)
    ensures BadTag(y)
    decreases path
  {
    if path != [] {
      match y
      case Sequence(items) => TagAtIsBad(items[path[0]], path[1..]);
      case Mapping(entries) => TagAtIsBad(entries[path[0]].value, path[1..]);
    }
  }

  /** The files a tree includes are those its `!include` places resolve to. */
  lemma {:induction false} TargetAt(w: World, y: Yaml, p: Path, t: Path) returns (path: seq<nat>)
    requires t in Targets(w, y, p)
    ensures NodeAt(y, path).Some? && NodeAt(y, path).value.Tagged?
    ensures var x := NodeAt(y, path).value;
            x.tag == "include" && x.payload.Text? && w.resolve(p, x.payload.s) == t
    decreases y
  {
    match y
    case Tagged(_, _) => path := [];
    case Sequence(items) =>
      var i := ItemTargetAt(w, items, p, t);
      var rest := TargetAt(w, items[i], p, t);
      path := [i] + rest;
      assert path[1..] == rest;
    case Mapping(entries) =>
      var i := EntryTargetAt(w, entries, p, t);
      var rest := TargetAt(w, entries[i].value, p, t);
      path := [i] + rest;
      assert path[1..] == rest;
  }

  lemma {:induction false} ItemTargetAt(w: World, items: seq<Yaml>, p: Path, t: Path) returns (i: nat)
    requires t in ItemTargets(w, items, p)
    ensures i < |items| && t in Targets(w, items[i], p)
  {
    hide Targets;
    if t in Targets(w, items[|items| - 1], p) { i := |items| - 1; }
    else { i := ItemTargetAt(w, items[..|items| - 1], p, t); }
  }

  lemma {:induction false} EntryTargetAt(w: World, entries: seq<Entry>, p: Path, t: Path) returns (i: nat)
    requires t in EntryTargets(w, entries, p)
    ensures i < |entries| && t in Targets(w, entries[i].value, p)
  {
    hide Targets;
    if t in Targets(w, entries[|entries| - 1].value, p) { i := |entries| - 1; }
    else { i := EntryTargetAt(w, entries[..|entries| - 1], p, t); }
  }

  /** A fragment file without tags is its own tree, as YAML or converted from JSON. */
  lemma PlainFragment(w: World, n: nat, p: Path, y: Yaml)
    requires p in w.files && Plain(y)
    requires w.files[p] == YamlFile(y) || (w.files[p].JsonFile? && w.toYaml(w.files[p].v) == Some(y))
    ensures FragmentOf(w, n + 1, p) == Some(y)
  {
    hide Plain, IncludesOf;
    PlainIncludes(w, n, y, p);
  }
}
