/** The build closure read off the manifests: what a package, a feature and each form
    of feature item turn on, by the dependency's own fields and the item's text
    (scripts/release-cli-bump.py `build_closure`). */
module BuildMeaning {
  import opened Outcomes
  import opened Text
  import opened BuildClosure

  // ── The manifests ──────────────────────────────────────────────────────────

  /** A normal or build dependency on a workspace package, known under `key`: its
      rename, or its name without one. */
  ghost predicate UsableAs(raw: seq<RawPackage>, d: RawDep, key: string) {
    && (d.kind == None || d.kind == Some("build"))
    && (exists p :: 0 <= p < |raw| && raw[p].name == d.name)
    && if d.rename == None || d.rename == Some("") then key == d.name else d.rename == Some(key)
  }

  lemma UsableIsKept(raw: seq<RawPackage>, d: RawDep, key: string)
    ensures UsableAs(raw, d, key) <==> Kept(NamesOf(raw), d) && DepKey(d) == key
  {
  }

  /** A package's dependencies are the usable ones of its last entry, the last under
      each key. */
  lemma DependencyIs(raw: seq<RawPackage>, n: string, i: int, key: string, j: int)
    requires LastNamed(raw, n, i) && 0 <= j < |raw[i].dependencies|
    requires UsableAs(raw, raw[i].dependencies[j], key)
    requires forall l :: j < l < |raw[i].dependencies| ==> !UsableAs(raw, raw[i].dependencies[l], key)
    ensures var ws, d := ReadWorkspace(raw), raw[i].dependencies[j];
            && n in ws && key in ws[n].deps
            && ws[n].deps[key] == Dep(d.name, d.optional, d.features, d.usesDefault)
  {
    hide ReadWorkspace, Kept, DepKey, UsableAs, KeptDeps;
    forall l | 0 <= l < |raw[i].dependencies|
      ensures UsableAs(raw, raw[i].dependencies[l], key) <==>
              Kept(NamesOf(raw), raw[i].dependencies[l]) && DepKey(raw[i].dependencies[l]) == key
    {
      UsableIsKept(raw, raw[i].dependencies[l], key);
    }
    assert LastUnder(NamesOf(raw), raw[i].dependencies, key, j);
    KeptDepIs(NamesOf(raw), raw[i].dependencies, key, j);
  }

  /** Every key of a package's dependencies is one a usable dependency is known under. */
  lemma DependencyListed(raw: seq<RawPackage>, n: string, i: int, key: string) returns (j: int)
    requires LastNamed(raw, n, i) && n in ReadWorkspace(raw) && key in ReadWorkspace(raw)[n].deps
    ensures 0 <= j < |raw[i].dependencies| && UsableAs(raw, raw[i].dependencies[j], key)
    ensures ReadWorkspace(raw)[n].features == raw[i].features
  {
    hide ReadWorkspace, Kept, DepKey, UsableAs;
    assert key in KeptDeps(NamesOf(raw), raw[i].dependencies);
    j :| 0 <= j < |raw[i].dependencies| && Kept(NamesOf(raw), raw[i].dependencies[j])
         && DepKey(raw[i].dependencies[j]) == key;
    UsableIsKept(raw, raw[i].dependencies[j], key);
  }

  // ── What a dependency turns on ─────────────────────────────────────────────

  /** `s` has the dependency's package, the features it asks for and `extra`, and its
      default features when it uses them. */
  ghost predicate TurnsOn(s: iset<Item>, d: Dep, extra: seq<string>) {
    && Pkg(d.name) in s
    && (forall f :: f in d.features || f in extra ==> Feat(d.name, f) in s)
    && (d.usesDefault ==> Feat(d.name, "default") in s)
  }

  /** Turning a dependency on queues its package, those features, and nothing else. */
  lemma ActivateIs(d: Dep, extra: seq<string>, x: Item)
    ensures x in Activate(d, extra) <==>
            || x == Pkg(d.name)
            || (x.Feat? && x.name == d.name && (x.feat in d.features || x.feat in extra))
            || (d.usesDefault && x == Feat(d.name, "default"))
  {
  }

  lemma TurnsOnIs(s: iset<Item>, d: Dep, extra: seq<string>)
    ensures TurnsOn(s, d, extra) <==> forall x :: x in Activate(d, extra) ==> x in s
  {
    hide Activate;
    forall x ensures x in Activate(d, extra) <==>
                     || x == Pkg(d.name)
                     || (x.Feat? && x.name == d.name && (x.feat in d.features || x.feat in extra))
                     || (d.usesDefault && x == Feat(d.name, "default"))
    {
      ActivateIs(d, extra, x);
    }
    if forall x :: x in Activate(d, extra) ==> x in s {
      assert Pkg(d.name) in Activate(d, extra);
      forall f | f in d.features || f in extra ensures Feat(d.name, f) in s {
        assert Feat(d.name, f) in Activate(d, extra);
      }
      if d.usesDefault { assert Feat(d.name, "default") in Activate(d, extra); }
    }
  }

  // ── The forms of a feature item ────────────────────────────────────────────

  /** `item` is `key`, question marks, a slash and `sub`; the marks make it weak. */
  ghost predicate Mentions(item: string, key: string, marks: string, sub: string) {
    && !StartsWith(item, "dep:")
    && item == key + (marks + ("/" + sub))
    && '/' !in key && (key == "" || key[|key| - 1] != '?')
    && forall i :: 0 <= i < |marks| ==> marks[i] == '?'
  }

  lemma {:induction false} SlashAfter(a: string, rest: string)
    requires '/' !in a
    ensures Slash(a + ("/" + rest)) == |a|
  {
    if a == "" {
      assert a + ("/" + rest) == "/" + rest;
    } else {
      SlashAfter(a[1..], rest);
      assert (a + ("/" + rest))[1..] == a[1..] + ("/" + rest);
    }
  }

  lemma {:induction false} SlashFirst(s: string)
    ensures '/' !in s[..Slash(s)]
    ensures Slash(s) < |s| <==> '/' in s
    ensures Slash(s) < |s| ==> s[Slash(s)] == '/'
  {
    if s != "" && s[0] != '/' {
      SlashFirst(s[1..]);
      assert s[..Slash(s)] == [s[0]] + s[1..][..Slash(s[1..])];
      assert '/' in s <==> '/' in s[1..];
    }
  }

  lemma MarkAtEnd(key: string, marks: string)
    requires key == "" || key[|key| - 1] != '?'
    requires forall i :: 0 <= i < |marks| ==> marks[i] == '?'
    ensures EndsWith(key + marks, "?") <==> marks != ""
  {
    var s := key + marks;
    if s != "" {
      assert s[|s| - 1..] == [s[|s| - 1]];
    }
  }

  /** A `dep:` item names the dependency that follows. */
  lemma ReadsDep(key: string)
    ensures Read("dep:" + key) == DepOn(key)
  {
    assert ("dep:" + key)[..4] == "dep:" && ("dep:" + key)[4..] == key;
  }

  /** A mention is read as its key, its feature, and whether marks make it weak. */
  lemma ReadsMention(item: string, key: string, marks: string, sub: string)
    requires Mentions(item, key, marks, sub)
    ensures Read(item) == DepFeature(key, sub, marks != "")
  {
    hide Slash, TrimEnd, StartsWith, EndsWith;
    var q := key + marks;
    assert item == q + ("/" + sub);
    SlashAfter(q, sub);
    assert item[..|q|] == q && item[|q| + 1..] == sub;
    EndDropped(key, marks, c => c == '?');
    MarkAtEnd(key, marks);
  }

  /** Any other item is a feature of the same package. */
  lemma ReadsFeature(item: string)
    requires !StartsWith(item, "dep:") && '/' !in item
    ensures Read(item) == Other(item)
  {
    hide StartsWith, TrimEnd;
    SlashFirst(item);
  }

  lemma Regrouped(key: string, marks: string, sub: string)
    ensures key + marks + ("/" + sub) == key + (marks + ("/" + sub))
  {
  }

  /** An item with a slash that is no `dep:` item is a mention. */
  lemma IsMention(item: string) returns (key: string, marks: string, sub: string)
    requires !StartsWith(item, "dep:") && '/' in item
    ensures Mentions(item, key, marks, sub)
  {
    hide StartsWith, Slash, TrimEnd;
    var i := Slash(item);
    SlashFirst(item);
    var q := item[..i];
    sub := item[i + 1..];
    key := TrimEnd(q, c => c == '?');
    marks := TrimmedEnd(q, c => c == '?');
    Regrouped(key, marks, sub);
    assert item == q + ("/" + sub);
    assert key == q[..|key|];
  }

  // ── Closed sets, from the manifests ────────────────────────────────────────

  /** `s` has what a feature item of `name` asks for. A weak mention of an optional
      dependency counts once its package is on: re-applied it turns the dependency on
      like any other mention, else it adds only the feature it names. */
  ghost predicate ItemHolds(ws: Workspace, s: iset<Item>, name: string, item: string, reapply: bool)
    requires name in ws
  {
    var deps := ws[name].deps;
    && (forall key :: key in deps && item == "dep:" + key ==> TurnsOn(s, deps[key], []))
    && (forall key, marks, sub :: key in deps && Mentions(item, key, marks, sub) ==>
          if marks != "" && deps[key].optional then
            Pkg(deps[key].name) in s ==>
              if reapply then TurnsOn(s, deps[key], [sub]) else Feat(deps[key].name, sub) in s
          else TurnsOn(s, deps[key], [sub]))
    && (!StartsWith(item, "dep:") && '/' !in item ==> Feat(name, item) in s)
  }

  /** `s` has the root with the chosen features, and everything its members ask for: a
      package its non-optional dependencies, a feature its items, and a feature the
      package does not define the optional dependency of that name. */
  ghost predicate Builds(ws: Workspace, root: string, features: seq<string>, s: iset<Item>, reapply: bool) {
    && Pkg(root) in s && (forall f :: f in features ==> Feat(root, f) in s)
    && (forall n, k :: n in ws && Pkg(n) in s && k in ws[n].deps && !ws[n].deps[k].optional ==>
          TurnsOn(s, ws[n].deps[k], []))
    && (forall n, f, i :: n in ws && Feat(n, f) in s && f in ws[n].features && 0 <= i < |ws[n].features[f]| ==>
          ItemHolds(ws, s, n, ws[n].features[f][i], reapply))
    && (forall n, f :: n in ws && Feat(n, f) in s && f !in ws[n].features && f in ws[n].deps
                       && ws[n].deps[f].optional ==>
          TurnsOn(s, ws[n].deps[f], []))
  }

  /** In every such set. */
  ghost predicate Entailed(ws: Workspace, root: string, features: seq<string>, reapply: bool, x: Item) {
    forall s: iset<Item> :: Builds(ws, root, features, s, reapply) ==> x in s
  }

  lemma DepItemMeans(ws: Workspace, s: iset<Item>, name: string, item: string, reapply: bool)
    requires name in ws && StartsWith(item, "dep:")
    ensures ItemClosed(ws, s, name, item, reapply) <==> ItemHolds(ws, s, name, item, reapply)
  {
    hide Read, Activate, TurnsOn;
    var key := item[4..];
    assert item == "dep:" + key;
    ReadsDep(key);
    forall k | item == "dep:" + k ensures k == key { assert ("dep:" + k)[4..] == k; }
    if key in ws[name].deps { TurnsOnIs(s, ws[name].deps[key], []); }
  }

  lemma MentionMeans(ws: Workspace, s: iset<Item>, name: string, item: string, reapply: bool)
    requires name in ws && !StartsWith(item, "dep:") && '/' in item
    ensures ItemClosed(ws, s, name, item, reapply) <==> ItemHolds(ws, s, name, item, reapply)
  {
    hide Read, Activate, TurnsOn, Mentions;
    var key, marks, sub := IsMention(item);
    ReadsMention(item, key, marks, sub);
    forall k, m, u | Mentions(item, k, m, u) ensures k == key && u == sub && (m != "" <==> marks != "") {
      ReadsMention(item, k, m, u);
    }
    assert forall k :: item != "dep:" + k by { NoDepForm(item); }
    if key in ws[name].deps { TurnsOnIs(s, ws[name].deps[key], [sub]); }
  }

  lemma NoDepForm(item: string)
    requires !StartsWith(item, "dep:")
    ensures forall k :: item != "dep:" + k
  {
    forall k ensures item != "dep:" + k { assert ("dep:" + k)[..4] == "dep:"; }
  }

  lemma FeatureItemMeans(ws: Workspace, s: iset<Item>, name: string, item: string, reapply: bool)
    requires name in ws && !StartsWith(item, "dep:") && '/' !in item
    ensures ItemClosed(ws, s, name, item, reapply) <==> ItemHolds(ws, s, name, item, reapply)
  {
    hide Read, Activate, TurnsOn;
    ReadsFeature(item);
    NoDepForm(item);
    forall k, m, u ensures !Mentions(item, k, m, u) {
      if Mentions(item, k, m, u) { MentionHasSlash(item, k, m, u); }
    }
  }

  lemma MentionHasSlash(item: string, key: string, marks: string, sub: string)
    requires Mentions(item, key, marks, sub)
    ensures '/' in item
  {
    assert item[|key| + |marks|] == '/';
  }

  lemma ItemMeans(ws: Workspace, s: iset<Item>, name: string, item: string, reapply: bool)
    requires name in ws
    ensures ItemClosed(ws, s, name, item, reapply) <==> ItemHolds(ws, s, name, item, reapply)
  {
    hide ItemClosed, ItemHolds, StartsWith;
    if StartsWith(item, "dep:") { DepItemMeans(ws, s, name, item, reapply); }
    else if '/' in item { MentionMeans(ws, s, name, item, reapply); }
    else { FeatureItemMeans(ws, s, name, item, reapply); }
  }

  lemma PackageMeans(ws: Workspace, s: iset<Item>, n: string)
    requires n in ws
    ensures PkgClosed(ws, s, n) <==>
            forall k :: k in ws[n].deps && !ws[n].deps[k].optional ==> TurnsOn(s, ws[n].deps[k], [])
  {
    hide Activate, TurnsOn;
    forall k | k in ws[n].deps
      ensures TurnsOn(s, ws[n].deps[k], []) <==> forall x :: x in Activate(ws[n].deps[k], []) ==> x in s
    {
      TurnsOnIs(s, ws[n].deps[k], []);
    }
  }

  lemma FeatureMeans(ws: Workspace, s: iset<Item>, n: string, f: string, reapply: bool)
    requires n in ws
    ensures FeatClosed(ws, s, n, f, reapply) <==>
            if f in ws[n].features then
              forall i :: 0 <= i < |ws[n].features[f]| ==> ItemHolds(ws, s, n, ws[n].features[f][i], reapply)
            else f in ws[n].deps && ws[n].deps[f].optional ==> TurnsOn(s, ws[n].deps[f], [])
  {
    hide Activate, TurnsOn, ItemClosed, ItemHolds;
    if f in ws[n].features {
      forall i | 0 <= i < |ws[n].features[f]|
        ensures ItemClosed(ws, s, n, ws[n].features[f][i], reapply)
           <==> ItemHolds(ws, s, n, ws[n].features[f][i], reapply)
      {
        ItemMeans(ws, s, n, ws[n].features[f][i], reapply);
      }
    } else if f in ws[n].deps {
      TurnsOnIs(s, ws[n].deps[f], []);
    }
  }

  lemma RootsAre(root: string, features: seq<string>, s: iset<Item>)
    ensures (forall x :: x in Roots(root, features) ==> x in s) <==>
            Pkg(root) in s && forall f :: f in features ==> Feat(root, f) in s
  {
    var roots := Roots(root, features);
    assert Pkg(root) in roots && forall f :: f in features ==> Feat(root, f) in roots;
  }

  /** The closed sets of the worklist are exactly the sets the manifests describe. */
  lemma ClosedMeans(ws: Workspace, root: string, features: seq<string>, s: iset<Item>, reapply: bool)
    ensures Closed(ws, Roots(root, features), s, reapply) <==> Builds(ws, root, features, s, reapply)
  {
    hide Roots, PkgClosed, FeatClosed, TurnsOn, ItemHolds;
    RootsAre(root, features, s);
    forall n | n in ws
      ensures PkgClosed(ws, s, n) <==>
              forall k :: k in ws[n].deps && !ws[n].deps[k].optional ==> TurnsOn(s, ws[n].deps[k], [])
    {
      PackageMeans(ws, s, n);
    }
    forall n, f | n in ws
      ensures FeatClosed(ws, s, n, f, reapply) <==>
              if f in ws[n].features then
                forall i :: 0 <= i < |ws[n].features[f]| ==> ItemHolds(ws, s, n, ws[n].features[f][i], reapply)
              else f in ws[n].deps && ws[n].deps[f].optional ==> TurnsOn(s, ws[n].deps[f], [])
    {
      FeatureMeans(ws, s, n, f, reapply);
    }
  }

  lemma LeastMeans(ws: Workspace, root: string, features: seq<string>, reapply: bool, x: Item)
    ensures InLeast(ws, Roots(root, features), reapply, x) <==> Entailed(ws, root, features, reapply, x)
  {
    hide Closed, Builds, Roots;
    forall s: iset<Item>
      ensures Closed(ws, Roots(root, features), s, reapply) <==> Builds(ws, root, features, s, reapply)
    {
      ClosedMeans(ws, root, features, s, reapply);
    }
  }

  /** The crates `root` builds in, from the manifests alone: everything entailed when a
      weak mention adds only its feature, nothing that is not when it re-applies the
      dependency. */
  method BuildSet(raw: seq<RawPackage>, root: string, features: seq<string>) returns (r: Option<set<string>>)
    ensures r.Some? <==> exists i :: 0 <= i < |raw| && raw[i].name == root
    ensures r.Some? ==> root !in r.value
    ensures r.Some? ==> forall n :: n != root && Entailed(ReadWorkspace(raw), root, features, false, Pkg(n)) ==> n in r.value
    ensures r.Some? ==> forall n :: n in r.value ==> Entailed(ReadWorkspace(raw), root, features, true, Pkg(n))
  {
    hide InLeast, Entailed, ReadWorkspace, Roots;
    var ws := ReadWorkspace(raw);
    r := Closure(ws, root, features);
    forall n, reapply
      ensures InLeast(ws, Roots(root, features), reapply, Pkg(n)) <==> Entailed(ws, root, features, reapply, Pkg(n))
    {
      LeastMeans(ws, root, features, reapply, Pkg(n));
    }
  }
}
