/** The workspace crates a root package builds in: a worklist feature resolver with
    deferred weak edges (scripts/release-cli-bump.py `build_closure`). */
module BuildClosure {
  import opened Outcomes
  import opened Text

  /** A dependency as `cargo metadata` lists it, kept when its kind is normal or
      build and it names a workspace package. */
  datatype Dep = Dep(name: string, optional: bool, features: seq<string>, usesDefault: bool)

  /** `deps` is keyed by rename or name; a feature's items are raw strings. */
  datatype Package = Package(deps: map<string, Dep>, features: map<string, seq<string>>)

  type Workspace = map<string, Package>

  /** Every kept dependency names a workspace package. */
  ghost predicate ValidWorkspace(ws: Workspace) {
    forall n, k :: n in ws && k in ws[n].deps ==> ws[n].deps[k].name in ws
  }

  // ── From `cargo metadata --no-deps` ────────────────────────────────────────

  datatype RawDep = RawDep(name: string, rename: Option<string>, kind: Option<string>, optional: bool,
                           features: seq<string>, usesDefault: bool)

  datatype RawPackage = RawPackage(name: string, dependencies: seq<RawDep>, features: map<string, seq<string>>)

  /** Normal and build dependencies on workspace packages. */
  predicate Kept(names: set<string>, d: RawDep) {
    (d.kind == None || d.kind == Some("build")) && d.name in names
  }

  function DepKey(d: RawDep): string {
    if d.rename.Some? && d.rename.value != "" then d.rename.value else d.name
  }

  /** What is kept of a dependency. */
  function KeptDep(d: RawDep): Dep {
    Dep(d.name, d.optional, d.features, d.usesDefault)
  }

  /** `raw[i]` is the last kept dependency under the key `k`. */
  ghost predicate LastUnder(names: set<string>, raw: seq<RawDep>, k: string, i: int) {
    && 0 <= i < |raw| && Kept(names, raw[i]) && DepKey(raw[i]) == k
    && forall j :: i < j < |raw| ==> !(Kept(names, raw[j]) && DepKey(raw[j]) == k)
  }

  /** A dictionary comprehension: of two entries with one key the last one stays. */
  function KeptDeps(names: set<string>, raw: seq<RawDep>): (r: map<string, Dep>)
    ensures forall k :: k in r ==> r[k].name in names
    ensures forall k :: k in r <==> exists i :: 0 <= i < |raw| && Kept(names, raw[i]) && DepKey(raw[i]) == k
  {
    if raw == [] then map[]
    else
      var init, d := KeptDeps(names, raw[..|raw| - 1]), raw[|raw| - 1];
      if Kept(names, d) then init[DepKey(d) := KeptDep(d)] else init
  }

  /** Each key holds the last dependency kept under it. */
  lemma {:induction false} KeptDepIs(names: set<string>, raw: seq<RawDep>, k: string, i: int)
    requires LastUnder(names, raw, k, i)
    ensures k in KeptDeps(names, raw) && KeptDeps(names, raw)[k] == KeptDep(raw[i])
    decreases |raw|
  {
    hide Kept, DepKey;
    if i < |raw| - 1 { KeptDepIs(names, raw[..|raw| - 1], k, i); }
  }

  /** `raw[i]` is the last package of that name. */
  ghost predicate LastNamed(raw: seq<RawPackage>, name: string, i: int) {
    0 <= i < |raw| && raw[i].name == name && forall j :: i < j < |raw| ==> raw[j].name != name
  }

  function Packages(names: set<string>, raw: seq<RawPackage>): (ws: Workspace)
    ensures forall n :: n in ws <==> exists i :: 0 <= i < |raw| && raw[i].name == n
    ensures forall n, k :: n in ws && k in ws[n].deps ==> ws[n].deps[k].name in names
  {
    if raw == [] then map[]
    else
      var p := raw[|raw| - 1];
      Packages(names, raw[..|raw| - 1])[p.name := Package(KeptDeps(names, p.dependencies), p.features)]
  }

  lemma {:induction false} PackageIs(names: set<string>, raw: seq<RawPackage>, n: string, i: int)
    requires LastNamed(raw, n, i)
    ensures n in Packages(names, raw)
    ensures Packages(names, raw)[n] == Package(KeptDeps(names, raw[i].dependencies), raw[i].features)
    decreases |raw|
  {
    hide KeptDeps;
    if i < |raw| - 1 { PackageIs(names, raw[..|raw| - 1], n, i); }
  }

  function NamesOf(raw: seq<RawPackage>): (names: set<string>)
    ensures forall n :: n in names <==> exists i :: 0 <= i < |raw| && raw[i].name == n
  {
    set i | 0 <= i < |raw| :: raw[i].name
  }

  function ReadWorkspace(raw: seq<RawPackage>): (ws: Workspace)
    ensures ValidWorkspace(ws)
    ensures forall n :: n in ws <==> exists i :: 0 <= i < |raw| && raw[i].name == n
    ensures forall n, i :: LastNamed(raw, n, i) ==>
              n in ws && ws[n] == Package(KeptDeps(NamesOf(raw), raw[i].dependencies), raw[i].features)
  {
    PackagesAre(NamesOf(raw), raw);
    Packages(NamesOf(raw), raw)
  }

  lemma PackagesAre(names: set<string>, raw: seq<RawPackage>)
    ensures forall n, i :: LastNamed(raw, n, i) ==>
              n in Packages(names, raw)
              && Packages(names, raw)[n] == Package(KeptDeps(names, raw[i].dependencies), raw[i].features)
  {
    hide Packages, KeptDeps;
    forall n, i | LastNamed(raw, n, i)
      ensures n in Packages(names, raw)
              && Packages(names, raw)[n] == Package(KeptDeps(names, raw[i].dependencies), raw[i].features)
    {
      PackageIs(names, raw, n, i);
    }
  }

  /** A worklist entry: build a package, or turn on one of its features. */
  datatype Item = Pkg(name: string) | Feat(name: string, feat: string)

  // ── What one entry entails ─────────────────────────────────────────────────

  function FeatItems(name: string, feats: seq<string>): (r: seq<Item>)
    ensures forall x :: x in r <==> x.Feat? && x.name == name && x.feat in feats
  {
    if feats == [] then [] else [Feat(name, feats[0])] + FeatItems(name, feats[1..])
  }

  /** Turning a dependency on, with extra features. */
  function Activate(d: Dep, extra: seq<string>): seq<Item> {
    [Pkg(d.name)] + FeatItems(d.name, d.features + extra)
    + if d.usesDefault then [Feat(d.name, "default")] else []
  }

  /** A feature's item, read: `dep:key`, `key/sub`, `key?/sub`, or another feature. */
  datatype Directive = DepOn(key: string) | DepFeature(key: string, sub: string, weak: bool) | Other(feat: string)

  /** Position of the first `/`, or the length. */
  function Slash(s: string): (i: nat)
    ensures i <= |s|
  {
    if s == "" || s[0] == '/' then 0 else 1 + Slash(s[1..])
  }

  function Read(item: string): Directive {
    if StartsWith(item, "dep:") then DepOn(item[4..])
    else if Slash(item) < |item| then
      var key := item[..Slash(item)];
      DepFeature(TrimEnd(key, c => c == '?'), item[Slash(item) + 1..], EndsWith(key, "?"))
    else Other(item)
  }

  /** What an item turns on when no deferral applies. */
  function Direct(ws: Workspace, name: string, item: string): seq<Item>
    requires name in ws
  {
    match Read(item)
    case DepOn(key) => if key in ws[name].deps then Activate(ws[name].deps[key], []) else []
    case DepFeature(key, sub, _) => if key in ws[name].deps then Activate(ws[name].deps[key], [sub]) else []
    case Other(feat) => [Feat(name, feat)]
  }

  /** A weak item on an optional dependency. */
  predicate Weak(ws: Workspace, name: string, item: string)
    requires name in ws
  {
    && Read(item).DepFeature? && Read(item).weak
    && Read(item).key in ws[name].deps && ws[name].deps[Read(item).key].optional
  }

  /** The package a weak item waits for and the feature it names. */
  function Deferred(ws: Workspace, name: string, item: string): (string, string)
    requires name in ws && Weak(ws, name, item)
  {
    (ws[name].deps[Read(item).key].name, Read(item).sub)
  }

  /** A feature the package does not define names an optional dependency. */
  function Implicit(ws: Workspace, name: string, feat: string): seq<Item>
    requires name in ws
  {
    if feat in ws[name].deps && ws[name].deps[feat].optional then Activate(ws[name].deps[feat], []) else []
  }

  // ── Two closure operators ──────────────────────────────────────────────────

  /** `s` holds what a built package entails. */
  ghost predicate PkgClosed(ws: Workspace, s: iset<Item>, name: string)
    requires name in ws
  {
    forall k :: k in ws[name].deps && !ws[name].deps[k].optional ==>
      forall x :: x in Activate(ws[name].deps[k], []) ==> x in s
  }

  /** `s` holds what a feature's item entails. A weak item counts once its package
      is on: with `reapply` it turns the dependency on like any other mention,
      without it only the named feature. */
  ghost predicate ItemClosed(ws: Workspace, s: iset<Item>, name: string, item: string, reapply: bool)
    requires name in ws
  {
    if Weak(ws, name, item) then
      Pkg(Deferred(ws, name, item).0) in s ==>
        if reapply then forall x :: x in Direct(ws, name, item) ==> x in s
        else Feat(Deferred(ws, name, item).0, Deferred(ws, name, item).1) in s
    else forall x :: x in Direct(ws, name, item) ==> x in s
  }

  ghost predicate FeatClosed(ws: Workspace, s: iset<Item>, name: string, feat: string, reapply: bool)
    requires name in ws
  {
    if feat in ws[name].features then
      forall i :: 0 <= i < |ws[name].features[feat]| ==>
        ItemClosed(ws, s, name, ws[name].features[feat][i], reapply)
    else forall x :: x in Implicit(ws, name, feat) ==> x in s
  }

  /** `s` contains the roots and everything its members entail. */
  ghost predicate Closed(ws: Workspace, roots: seq<Item>, s: iset<Item>, reapply: bool) {
    && (forall x :: x in roots ==> x in s)
    && (forall n :: n in ws && Pkg(n) in s ==> PkgClosed(ws, s, n))
    && (forall n, f :: n in ws && Feat(n, f) in s ==> FeatClosed(ws, s, n, f, reapply))
  }

  /** Membership in the least closed set. */
  ghost predicate InLeast(ws: Workspace, roots: seq<Item>, reapply: bool, x: Item) {
    forall s: iset<Item> :: Closed(ws, roots, s, reapply) ==> x in s
  }

  // ── The worklist ───────────────────────────────────────────────────────────

  /** Packages on, features seen per package, deferred weak features, the queue. */
  datatype State = State(active: set<string>, feats: map<string, set<string>>,
                         weak: seq<(string, string)>, queue: seq<Item>)

  predicate Seen(st: State, name: string, feat: string) {
    name in st.feats && feat in st.feats[name]
  }

  /** Already processed. */
  predicate Done(st: State, x: Item) {
    if x.Pkg? then x.name in st.active else Seen(st, x.name, x.feat)
  }

  /** Processed or queued. */
  ghost function Known(st: State): iset<Item> {
    iset x: Item | Done(st, x) || x in st.queue
  }

  /** An item's effect is known, or its weak feature is deferred. */
  ghost predicate ItemDone(ws: Workspace, st: State, name: string, item: string)
    requires name in ws
  {
    if Weak(ws, name, item) then
      var w := Deferred(ws, name, item);
      Feat(w.0, w.1) in Known(st) || w in st.weak
    else forall x :: x in Direct(ws, name, item) ==> x in Known(st)
  }

  ghost predicate FeatDone(ws: Workspace, st: State, name: string, feat: string)
    requires name in ws
  {
    if feat in ws[name].features then
      forall i :: 0 <= i < |ws[name].features[feat]| ==> ItemDone(ws, st, name, ws[name].features[feat][i])
    else forall x :: x in Implicit(ws, name, feat) ==> x in Known(st)
  }

  /** Nothing entailed so far is missing. */
  ghost predicate Complete(ws: Workspace, roots: seq<Item>, st: State) {
    && (forall x :: x in roots ==> x in Known(st))
    && (forall n :: n in st.active ==> n in ws && PkgClosed(ws, Known(st), n))
    && (forall n, f :: Seen(st, n, f) ==> n in ws && FeatDone(ws, st, n, f))
    && (forall w :: w in st.weak && w.0 in st.active ==> Feat(w.0, w.1) in Known(st))
  }

  /** Nothing is known that a closed set could lack. */
  ghost predicate Justified(st: State, t: iset<Item>) {
    && Known(st) <= t
    && forall w :: w in st.weak && Pkg(w.0) in t ==> Feat(w.0, w.1) in t
  }

  // ── Termination: a finite universe of entries ──────────────────────────────

  function FeatureName(item: string): string {
    match Read(item)
    case DepOn(_) => ""
    case DepFeature(_, sub, _) => sub
    case Other(feat) => feat
  }

  /** Every feature name that can come up. */
  ghost function FeatureNames(ws: Workspace, roots: seq<Item>): set<string> {
    {"default"}
    + (set i | 0 <= i < |roots| && roots[i].Feat? :: roots[i].feat)
    + (set n, k, i | n in ws && k in ws[n].deps && 0 <= i < |ws[n].deps[k].features| :: ws[n].deps[k].features[i])
    + (set n, f, i | n in ws && f in ws[n].features && 0 <= i < |ws[n].features[f]| ::
         FeatureName(ws[n].features[f][i]))
  }

  ghost function Universe(ws: Workspace, roots: seq<Item>): set<Item> {
    (set n | n in ws :: Pkg(n)) + (set n, f | n in ws && f in FeatureNames(ws, roots) :: Feat(n, f))
  }

  ghost function DoneIn(st: State, u: set<Item>): set<Item> {
    set x | x in u && Done(st, x)
  }

  lemma InUniverse(ws: Workspace, roots: seq<Item>, x: Item)
    ensures x in Universe(ws, roots) <==> x.name in ws && (x.Feat? ==> x.feat in FeatureNames(ws, roots))
  {
    hide FeatureNames;
  }

  lemma ActivateInUniverse(ws: Workspace, roots: seq<Item>, n: string, k: string, extra: seq<string>, x: Item)
    requires ValidWorkspace(ws) && n in ws && k in ws[n].deps && x in Activate(ws[n].deps[k], extra)
    requires forall e :: e in extra ==> e in FeatureNames(ws, roots)
    ensures x in Universe(ws, roots)
  {
    var d := ws[n].deps[k];
    if x.Feat? && x.feat in d.features {
      var i :| 0 <= i < |d.features| && d.features[i] == x.feat;
      assert x.feat in FeatureNames(ws, roots);
    }
    InUniverse(ws, roots, x);
  }

  lemma ItemName(ws: Workspace, roots: seq<Item>, n: string, f: string, i: nat)
    requires n in ws && f in ws[n].features && i < |ws[n].features[f]|
    ensures FeatureName(ws[n].features[f][i]) in FeatureNames(ws, roots)
  {
  }

  lemma DirectInUniverse(ws: Workspace, roots: seq<Item>, n: string, f: string, i: nat, x: Item)
    requires ValidWorkspace(ws) && n in ws && f in ws[n].features && i < |ws[n].features[f]|
    requires x in Direct(ws, n, ws[n].features[f][i])
    ensures x in Universe(ws, roots)
  {
    hide FeatureNames, Universe, Activate;
    var item := ws[n].features[f][i];
    ItemName(ws, roots, n, f, i);
    match Read(item)
    case DepOn(key) => ActivateInUniverse(ws, roots, n, key, [], x);
    case DepFeature(key, sub, _) => ActivateInUniverse(ws, roots, n, key, [sub], x);
    case Other(feat) => InUniverse(ws, roots, x);
  }

  // ── What processing one entry adds ─────────────────────────────────────────

  /** A newly built package: its non-optional dependencies and its deferred features. */
  ghost predicate PkgAdds(ws: Workspace, weak: seq<(string, string)>, name: string, x: Item)
    requires name in ws
  {
    || (exists k :: k in ws[name].deps && !ws[name].deps[k].optional && x in Activate(ws[name].deps[k], []))
    || (exists i :: 0 <= i < |weak| && weak[i].0 == name && x == Feat(name, weak[i].1))
  }

  method QueuePackage(ws: Workspace, weak: seq<(string, string)>, name: string) returns (added: seq<Item>)
    requires name in ws
    ensures forall x :: x in added <==> PkgAdds(ws, weak, name, x)
  {
    hide Activate;
    var deps := ws[name].deps;
    added := [];
    var keys := deps.Keys;
    while keys != {}
      invariant keys <= deps.Keys
      invariant forall x :: x in added <==>
                  exists k :: k in deps.Keys - keys && !deps[k].optional && x in Activate(deps[k], [])
      decreases keys
    {
      var k :| k in keys;
      ghost var before := deps.Keys - keys;
      keys := keys - {k};
      assert deps.Keys - keys == before + {k};
      if !deps[k].optional { added := added + Activate(deps[k], []); }
    }
    assert deps.Keys - keys == deps.Keys;
    var direct := added;
    for i := 0 to |weak|
      invariant forall x :: x in added <==>
                  x in direct || exists j :: 0 <= j < i && weak[j].0 == name && x == Feat(name, weak[j].1)
    {
      if weak[i].0 == name { added := added + [Feat(name, weak[i].1)]; }
    }
  }

  /** The item waits for its package. */
  predicate Defers(ws: Workspace, active: set<string>, name: string, item: string)
    requires name in ws
  {
    Weak(ws, name, item) && Deferred(ws, name, item).0 !in active
  }

  /** Walk a feature's items: turn on what each names, or defer it. */
  method QueueItems(ws: Workspace, active: set<string>, name: string, items: seq<string>)
    returns (added: seq<Item>, deferred: seq<(string, string)>)
    requires name in ws
    ensures forall x :: x in added <==>
              exists i :: 0 <= i < |items| && !Defers(ws, active, name, items[i]) && x in Direct(ws, name, items[i])
    ensures forall w :: w in deferred <==>
              exists i :: 0 <= i < |items| && Defers(ws, active, name, items[i])
                          && w == Deferred(ws, name, items[i])
  {
    hide Direct, Weak, Read, Deferred;
    added, deferred := [], [];
    for i := 0 to |items|
      invariant forall x :: x in added <==>
                  exists j :: 0 <= j < i && !Defers(ws, active, name, items[j]) && x in Direct(ws, name, items[j])
      invariant forall w :: w in deferred <==>
                  exists j :: 0 <= j < i && Defers(ws, active, name, items[j])
                              && w == Deferred(ws, name, items[j])
    {
      if Defers(ws, active, name, items[i]) {
        deferred := deferred + [Deferred(ws, name, items[i])];
      } else {
        added := added + Direct(ws, name, items[i]);
      }
    }
  }

  // ── The steps keep the invariant ───────────────────────────────────────────

  function Popped(st: State): State
    requires st.queue != []
  {
    st.(queue := st.queue[..|st.queue| - 1])
  }

  function AfterPackage(st: State, name: string, added: seq<Item>): State
    requires st.queue != []
  {
    var p := Popped(st);
    p.(active := p.active + {name}, queue := p.queue + added)
  }

  function WithFeature(feats: map<string, set<string>>, name: string, feat: string): map<string, set<string>> {
    feats[name := (if name in feats then feats[name] else {}) + {feat}]
  }

  function AfterFeature(st: State, name: string, feat: string, added: seq<Item>, deferred: seq<(string, string)>): State
    requires st.queue != []
  {
    var p := Popped(st);
    p.(feats := WithFeature(p.feats, name, feat), weak := p.weak + deferred, queue := p.queue + added)
  }

  lemma QueueSplit(st: State)
    requires st.queue != []
    ensures forall x :: x in st.queue <==> x == st.queue[|st.queue| - 1] || x in Popped(st).queue
  {
    assert st.queue == st.queue[..|st.queue| - 1] + [st.queue[|st.queue| - 1]];
  }

  /** What is known only grows. */
  lemma KnownAfterPackage(st: State, name: string, added: seq<Item>)
    requires st.queue != [] && st.queue[|st.queue| - 1] == Pkg(name)
    ensures forall x :: x in Known(AfterPackage(st, name, added)) <==> x in Known(st) || x in added
  {
    QueueSplit(st);
  }

  lemma KnownAfterFeature(st: State, name: string, feat: string, added: seq<Item>, deferred: seq<(string, string)>)
    requires st.queue != [] && st.queue[|st.queue| - 1] == Feat(name, feat)
    ensures forall x :: x in Known(AfterFeature(st, name, feat, added, deferred)) <==> x in Known(st) || x in added
    ensures forall n, f :: Seen(AfterFeature(st, name, feat, added, deferred), n, f) <==>
                           Seen(st, n, f) || (n == name && f == feat)
  {
    QueueSplit(st);
  }

  lemma FeatDoneGrows(ws: Workspace, st: State, st': State, n: string, f: string)
    requires n in ws && FeatDone(ws, st, n, f)
    requires Known(st) <= Known(st') && forall w :: w in st.weak ==> w in st'.weak
    ensures FeatDone(ws, st', n, f)
  {
    hide Known, Direct, Weak, Read, Deferred, Implicit;
    if f in ws[n].features {
      forall i | 0 <= i < |ws[n].features[f]| ensures ItemDone(ws, st', n, ws[n].features[f][i]) {
        assert ItemDone(ws, st, n, ws[n].features[f][i]);
      }
    }
  }

  lemma PkgClosedGrows(ws: Workspace, s: iset<Item>, t: iset<Item>, n: string)
    requires n in ws && PkgClosed(ws, s, n) && s <= t
    ensures PkgClosed(ws, t, n)
  {
    hide Activate;
  }

  lemma PackageKeepsComplete(ws: Workspace, roots: seq<Item>, st: State, name: string, added: seq<Item>)
    requires st.queue != [] && st.queue[|st.queue| - 1] == Pkg(name) && name in ws
    requires Complete(ws, roots, st) && forall x :: x in added <==> PkgAdds(ws, st.weak, name, x)
    ensures Complete(ws, roots, AfterPackage(st, name, added))
  {
    hide Activate, FeatDone, Known, PkgClosed;
    var st' := AfterPackage(st, name, added);
    KnownAfterPackage(st, name, added);
    assert Known(st) <= Known(st');
    forall n | n in st'.active ensures n in ws && PkgClosed(ws, Known(st'), n) {
      if n in st.active {
        PkgClosedGrows(ws, Known(st), Known(st'), n);
      } else {
        PackageClosed(ws, st.weak, name, added, Known(st'));
      }
    }
    forall n, f | Seen(st', n, f) ensures n in ws && FeatDone(ws, st', n, f) {
      assert Seen(st, n, f);
      FeatDoneGrows(ws, st, st', n, f);
    }
    forall w | w in st'.weak && w.0 in st'.active ensures Feat(w.0, w.1) in Known(st') {
      if w.0 == name {
        var i :| 0 <= i < |st.weak| && st.weak[i] == w;
        assert PkgAdds(ws, st.weak, name, Feat(name, w.1));
      }
    }
  }

  lemma PackageClosed(ws: Workspace, weak: seq<(string, string)>, name: string, added: seq<Item>, s: iset<Item>)
    requires name in ws && forall x :: x in added <==> PkgAdds(ws, weak, name, x)
    requires forall x :: x in added ==> x in s
    ensures PkgClosed(ws, s, name)
  {
    hide Activate;
    forall k, x | k in ws[name].deps && !ws[name].deps[k].optional && x in Activate(ws[name].deps[k], [])
      ensures x in s
    {
      assert PkgAdds(ws, weak, name, x);
    }
  }

  lemma PackageKeepsJustified(ws: Workspace, roots: seq<Item>, st: State, name: string, added: seq<Item>, t: iset<Item>)
    requires st.queue != [] && st.queue[|st.queue| - 1] == Pkg(name) && name in ws
    requires Closed(ws, roots, t, true) && Justified(st, t)
    requires forall x :: x in added <==> PkgAdds(ws, st.weak, name, x)
    ensures Justified(AfterPackage(st, name, added), t)
  {
    hide Activate, FeatClosed;
    KnownAfterPackage(st, name, added);
    assert Pkg(name) in Known(st);
    assert PkgClosed(ws, t, name);
    forall x | x in added ensures x in t {
      assert PkgAdds(ws, st.weak, name, x);
    }
  }

  // ── Features ───────────────────────────────────────────────────────────────

  /** `added` and `deferred` are what the feature `feat` of `name` brings. */
  ghost predicate FeatAdds(ws: Workspace, active: set<string>, name: string, feat: string,
                           added: seq<Item>, deferred: seq<(string, string)>)
    requires name in ws
  {
    if feat in ws[name].features then
      var items := ws[name].features[feat];
      && (forall x :: x in added <==>
            exists i :: 0 <= i < |items| && !Defers(ws, active, name, items[i]) && x in Direct(ws, name, items[i]))
      && (forall w :: w in deferred <==>
            exists i :: 0 <= i < |items| && Defers(ws, active, name, items[i])
                        && w == Deferred(ws, name, items[i]))
    else added == Implicit(ws, name, feat) && deferred == []
  }

  /** A newly enabled feature: its items, or the optional dependency it names. */
  method QueueFeature(ws: Workspace, active: set<string>, name: string, feat: string)
    returns (added: seq<Item>, deferred: seq<(string, string)>)
    requires name in ws
    ensures FeatAdds(ws, active, name, feat, added, deferred)
  {
    hide Direct, Weak, Read, Deferred, Implicit;
    if feat in ws[name].features {
      added, deferred := QueueItems(ws, active, name, ws[name].features[feat]);
    } else {
      added, deferred := Implicit(ws, name, feat), [];
    }
  }

  /** A mention of a weak dependency always names its feature. */
  lemma WeakDirect(ws: Workspace, name: string, item: string)
    requires name in ws && Weak(ws, name, item)
    ensures Feat(Deferred(ws, name, item).0, Deferred(ws, name, item).1) in Direct(ws, name, item)
  {
    var d, sub := ws[name].deps[Read(item).key], Read(item).sub;
    assert sub in d.features + [sub];
  }

  lemma NewFeatureDone(ws: Workspace, st: State, name: string, feat: string, added: seq<Item>,
                       deferred: seq<(string, string)>, st': State)
    requires name in ws && FeatAdds(ws, st.active, name, feat, added, deferred)
    requires forall x :: x in added ==> x in Known(st')
    requires forall w :: w in deferred ==> w in st'.weak
    ensures FeatDone(ws, st', name, feat)
  {
    hide Known, Direct, Weak, Read, Deferred, Implicit;
    if feat in ws[name].features {
      var items := ws[name].features[feat];
      forall i | 0 <= i < |items| ensures ItemDone(ws, st', name, items[i]) {
        if Weak(ws, name, items[i]) {
          var w := Deferred(ws, name, items[i]);
          if Defers(ws, st.active, name, items[i]) {
            assert w in deferred;
          } else {
            WeakDirect(ws, name, items[i]);
            assert Feat(w.0, w.1) in added;
          }
        }
      }
    }
  }

  lemma FeatureKeepsComplete(ws: Workspace, roots: seq<Item>, st: State, name: string, feat: string,
                             added: seq<Item>, deferred: seq<(string, string)>)
    requires st.queue != [] && st.queue[|st.queue| - 1] == Feat(name, feat) && name in ws
    requires Complete(ws, roots, st) && FeatAdds(ws, st.active, name, feat, added, deferred)
    ensures Complete(ws, roots, AfterFeature(st, name, feat, added, deferred))
  {
    hide FeatDone, Known, PkgClosed, FeatAdds;
    var st' := AfterFeature(st, name, feat, added, deferred);
    KnownAfterFeature(st, name, feat, added, deferred);
    assert Known(st) <= Known(st');
    forall n | n in st'.active ensures n in ws && PkgClosed(ws, Known(st'), n) {
      PkgClosedGrows(ws, Known(st), Known(st'), n);
    }
    forall n, f | Seen(st', n, f) ensures n in ws && FeatDone(ws, st', n, f) {
      if Seen(st, n, f) {
        FeatDoneGrows(ws, st, st', n, f);
      } else {
        NewFeatureDone(ws, st, name, feat, added, deferred, st');
      }
    }
    forall w | w in deferred ensures w.0 !in st'.active {
      DeferredInactive(ws, st.active, name, feat, added, deferred, w);
    }
  }

  lemma DeferredInactive(ws: Workspace, active: set<string>, name: string, feat: string, added: seq<Item>,
                         deferred: seq<(string, string)>, w: (string, string))
    requires name in ws && FeatAdds(ws, active, name, feat, added, deferred) && w in deferred
    ensures w.0 !in active
  {
    hide Direct, Weak, Read, Deferred, Implicit;
  }

  lemma FeatureKeepsJustified(ws: Workspace, roots: seq<Item>, st: State, name: string, feat: string,
                              added: seq<Item>, deferred: seq<(string, string)>, t: iset<Item>)
    requires st.queue != [] && st.queue[|st.queue| - 1] == Feat(name, feat) && name in ws
    requires Closed(ws, roots, t, true) && Justified(st, t)
    requires FeatAdds(ws, st.active, name, feat, added, deferred)
    ensures Justified(AfterFeature(st, name, feat, added, deferred), t)
  {
    hide PkgClosed, FeatAdds, FeatClosed;
    KnownAfterFeature(st, name, feat, added, deferred);
    assert Feat(name, feat) in Known(st);
    assert FeatClosed(ws, t, name, feat, true);
    forall n | n in st.active ensures Pkg(n) in t {
      assert Pkg(n) in Known(st);
    }
    AddedInClosed(ws, st.active, name, feat, added, deferred, t);
  }

  lemma AddedInClosed(ws: Workspace, active: set<string>, name: string, feat: string, added: seq<Item>,
                      deferred: seq<(string, string)>, t: iset<Item>)
    requires name in ws && FeatAdds(ws, active, name, feat, added, deferred) && FeatClosed(ws, t, name, feat, true)
    requires forall n :: n in active ==> Pkg(n) in t
    ensures forall x :: x in added ==> x in t
    ensures forall w :: w in deferred && Pkg(w.0) in t ==> Feat(w.0, w.1) in t
  {
    hide Direct, Weak, Read, Deferred, Implicit;
    if feat in ws[name].features {
      var items := ws[name].features[feat];
      forall x | x in added ensures x in t {
        var i :| 0 <= i < |items| && !Defers(ws, active, name, items[i]) && x in Direct(ws, name, items[i]);
        assert ItemClosed(ws, t, name, items[i], true);
      }
      forall w | w in deferred && Pkg(w.0) in t ensures Feat(w.0, w.1) in t {
        var i :| 0 <= i < |items| && Defers(ws, active, name, items[i])
                 && w == Deferred(ws, name, items[i]);
        assert ItemClosed(ws, t, name, items[i], true);
        WeakDirect(ws, name, items[i]);
      }
    }
  }

  // ── The resolver ───────────────────────────────────────────────────────────

  function Roots(root: string, features: seq<string>): seq<Item> {
    [Pkg(root)] + FeatItems(root, features)
  }

  /** The loop's invariant: complete, justified in every closed set, and inside the
      finite universe. */
  ghost predicate Invariant(ws: Workspace, roots: seq<Item>, st: State) {
    && Complete(ws, roots, st)
    && (forall t: iset<Item> :: Closed(ws, roots, t, true) ==> Justified(st, t))
    && (forall x :: x in st.queue ==> x in Universe(ws, roots))
    && (forall w :: w in st.weak ==> Feat(w.0, w.1) in Universe(ws, roots))
  }

  lemma InvariantInitially(ws: Workspace, roots: seq<Item>)
    requires forall x :: x in roots ==> x.name in ws
    ensures Invariant(ws, roots, State({}, map[], [], roots))
  {
    hide PkgClosed, FeatClosed, FeatureNames, Universe;
    var st := State({}, map[], [], roots);
    forall x | x in roots ensures x in Universe(ws, roots) {
      var i :| 0 <= i < |roots| && roots[i] == x;
      if x.Feat? { RootName(ws, roots, i); }
      InUniverse(ws, roots, x);
    }
  }

  lemma RootName(ws: Workspace, roots: seq<Item>, i: nat)
    requires i < |roots| && roots[i].Feat?
    ensures roots[i].feat in FeatureNames(ws, roots)
  {
  }

  lemma PackageKeepsInvariant(ws: Workspace, roots: seq<Item>, st: State, name: string, added: seq<Item>)
    requires ValidWorkspace(ws) && Invariant(ws, roots, st)
    requires st.queue != [] && st.queue[|st.queue| - 1] == Pkg(name) && name in ws
    requires forall x :: x in added <==> PkgAdds(ws, st.weak, name, x)
    ensures Invariant(ws, roots, AfterPackage(st, name, added))
  {
    hide Complete, Closed, Justified, Universe, FeatureNames, Activate;
    PackageKeepsComplete(ws, roots, st, name, added);
    forall t: iset<Item> | Closed(ws, roots, t, true) ensures Justified(AfterPackage(st, name, added), t) {
      PackageKeepsJustified(ws, roots, st, name, added, t);
    }
    forall x | x in added ensures x in Universe(ws, roots) {
      if k :| k in ws[name].deps && !ws[name].deps[k].optional && x in Activate(ws[name].deps[k], []) {
        ActivateInUniverse(ws, roots, name, k, [], x);
      }
    }
  }

  lemma FeatureKeepsInvariant(ws: Workspace, roots: seq<Item>, st: State, name: string, feat: string,
                              added: seq<Item>, deferred: seq<(string, string)>)
    requires ValidWorkspace(ws) && Invariant(ws, roots, st)
    requires st.queue != [] && st.queue[|st.queue| - 1] == Feat(name, feat) && name in ws
    requires FeatAdds(ws, st.active, name, feat, added, deferred)
    ensures Invariant(ws, roots, AfterFeature(st, name, feat, added, deferred))
  {
    hide Complete, Closed, Justified, Universe, FeatureNames, FeatAdds;
    FeatureKeepsComplete(ws, roots, st, name, feat, added, deferred);
    forall t: iset<Item> | Closed(ws, roots, t, true)
      ensures Justified(AfterFeature(st, name, feat, added, deferred), t)
    {
      FeatureKeepsJustified(ws, roots, st, name, feat, added, deferred, t);
    }
    FeatureInUniverse(ws, roots, st.active, name, feat, added, deferred);
  }

  lemma FeatureInUniverse(ws: Workspace, roots: seq<Item>, active: set<string>, name: string, feat: string,
                          added: seq<Item>, deferred: seq<(string, string)>)
    requires ValidWorkspace(ws) && name in ws && FeatAdds(ws, active, name, feat, added, deferred)
    ensures forall x :: x in added ==> x in Universe(ws, roots)
    ensures forall w :: w in deferred ==> Feat(w.0, w.1) in Universe(ws, roots)
  {
    hide Universe, FeatureNames, Direct, Weak, Read, Deferred, Activate;
    if feat in ws[name].features {
      var items := ws[name].features[feat];
      forall x | x in added ensures x in Universe(ws, roots) {
        var i :| 0 <= i < |items| && !Defers(ws, active, name, items[i]) && x in Direct(ws, name, items[i]);
        DirectInUniverse(ws, roots, name, feat, i, x);
      }
      forall w | w in deferred ensures Feat(w.0, w.1) in Universe(ws, roots) {
        var i :| 0 <= i < |items| && Defers(ws, active, name, items[i]) && w == Deferred(ws, name, items[i]);
        WeakDirect(ws, name, items[i]);
        DirectInUniverse(ws, roots, name, feat, i, Feat(w.0, w.1));
      }
    } else {
      forall x | x in added ensures x in Universe(ws, roots) {
        ActivateInUniverse(ws, roots, name, feat, [], x);
      }
    }
  }

  /** An entry met again is dropped. */
  lemma SkipKeepsInvariant(ws: Workspace, roots: seq<Item>, st: State)
    requires Invariant(ws, roots, st) && st.queue != [] && Done(st, st.queue[|st.queue| - 1])
    ensures Invariant(ws, roots, Popped(st))
  {
    hide Closed, Universe, PkgClosed, FeatDone;
    QueueSplit(st);
    assert Known(Popped(st)) == Known(st);
    forall n, f | Seen(Popped(st), n, f) ensures n in ws && FeatDone(ws, Popped(st), n, f) {
      assert Seen(st, n, f);
      FeatDoneGrows(ws, st, Popped(st), n, f);
    }
  }

  /** Processing a new entry shrinks what is left of the universe. */
  lemma Progress(st: State, st': State, u: set<Item>, x: Item)
    requires x in u && !Done(st, x) && Done(st', x)
    requires forall y :: Done(st, y) ==> Done(st', y)
    ensures u - DoneIn(st', u) < u - DoneIn(st, u)
  {
    assert x in u - DoneIn(st, u) && x !in u - DoneIn(st', u);
  }

  /** With an empty queue the processed entries are closed without re-application. */
  lemma CompleteIsClosed(ws: Workspace, roots: seq<Item>, st: State)
    requires Complete(ws, roots, st) && st.queue == []
    ensures Closed(ws, roots, Known(st), false)
  {
    hide PkgClosed, Direct, Weak, Read, Deferred, Implicit;
    var s := Known(st);
    forall n, f | n in ws && Feat(n, f) in s ensures FeatClosed(ws, s, n, f, false) {
      assert Seen(st, n, f);
      assert FeatDone(ws, st, n, f);
      if f in ws[n].features {
        forall i | 0 <= i < |ws[n].features[f]| ensures ItemClosed(ws, s, n, ws[n].features[f][i], false) {
          assert ItemDone(ws, st, n, ws[n].features[f][i]);
        }
      }
    }
  }

  /** Workspace crates `root` builds in with `features`; `None` for an unknown root.
      Everything in the least set where a weak item adds only its feature is built,
      and nothing outside the least set where it re-applies the dependency. */
  method Closure(ws: Workspace, root: string, features: seq<string>) returns (r: Option<set<string>>)
    requires ValidWorkspace(ws)
    ensures r.Some? <==> root in ws
    ensures r.Some? ==> root !in r.value
    ensures r.Some? ==> forall n :: n != root && InLeast(ws, Roots(root, features), false, Pkg(n)) ==> n in r.value
    ensures r.Some? ==> forall n :: n in r.value ==> InLeast(ws, Roots(root, features), true, Pkg(n))
    ensures r.Some? && NoWeakItems(ws) ==>
              forall n :: n in r.value <==> n != root && InLeast(ws, Roots(root, features), false, Pkg(n))
  {
    hide Invariant, Known, Complete, Closed, Universe, FeatureNames, PkgAdds, FeatAdds, InLeast, NoWeakItems;
    if root !in ws { return None; }
    ghost var roots := Roots(root, features);
    var st := State({}, map[], [], Roots(root, features));
    ghost var u := Universe(ws, roots);
    InvariantInitially(ws, roots);
    while st.queue != []
      invariant Invariant(ws, roots, st)
      decreases u - DoneIn(st, u), |st.queue|
    {
      var x := st.queue[|st.queue| - 1];
      FromUniverse(ws, roots, st, x);
      if Done(st, x) {
        SkipKeepsInvariant(ws, roots, st);
        st := Popped(st);
      } else {
        ghost var before := st;
        match x {
          case Pkg(name) =>
            var added := QueuePackage(ws, st.weak, name);
            PackageKeepsInvariant(ws, roots, st, name, added);
            st := AfterPackage(st, name, added);
          case Feat(name, feat) =>
            var added, deferred := QueueFeature(ws, st.active, name, feat);
            FeatureKeepsInvariant(ws, roots, st, name, feat, added, deferred);
            st := AfterFeature(st, name, feat, added, deferred);
        }
        Progress(before, st, u, x);
      }
    }
    r := Some(st.active - {root});
    Sandwich(ws, roots, st);
    if NoWeakItems(ws) {
      forall n ensures InLeast(ws, roots, false, Pkg(n)) <==> InLeast(ws, roots, true, Pkg(n)) {
        ExactWithoutWeak(ws, roots, Pkg(n));
      }
    }
  }

  lemma FromUniverse(ws: Workspace, roots: seq<Item>, st: State, x: Item)
    requires Invariant(ws, roots, st) && x in st.queue
    ensures x in Universe(ws, roots) && x.name in ws
  {
    hide Complete, Closed, FeatureNames;
    InUniverse(ws, roots, x);
  }

  lemma Sandwich(ws: Workspace, roots: seq<Item>, st: State)
    requires Invariant(ws, roots, st) && st.queue == []
    ensures forall n :: InLeast(ws, roots, false, Pkg(n)) ==> n in st.active
    ensures forall n :: n in st.active ==> InLeast(ws, roots, true, Pkg(n))
  {
    hide Complete, Closed, Universe;
    CompleteIsClosed(ws, roots, st);
    forall n | InLeast(ws, roots, false, Pkg(n)) ensures n in st.active {
      assert Pkg(n) in Known(st);
    }
    forall n | n in st.active ensures InLeast(ws, roots, true, Pkg(n)) {
      assert Pkg(n) in Known(st);
    }
  }

  // ── Exactness ──────────────────────────────────────────────────────────────

  ghost predicate NoWeakItems(ws: Workspace) {
    forall n, f, i :: n in ws && f in ws[n].features && 0 <= i < |ws[n].features[f]| ==>
      !Weak(ws, n, ws[n].features[f][i])
  }

  /** Without weak items on optional dependencies the two least sets are one, so the
      closure is exactly it, whatever the order of processing. */
  lemma ExactWithoutWeak(ws: Workspace, roots: seq<Item>, x: Item)
    requires NoWeakItems(ws)
    ensures InLeast(ws, roots, false, x) <==> InLeast(ws, roots, true, x)
  {
    hide Closed;
    forall s: iset<Item> ensures Closed(ws, roots, s, false) <==> Closed(ws, roots, s, true) {
      SameClosed(ws, roots, s);
    }
  }

  lemma SameClosed(ws: Workspace, roots: seq<Item>, s: iset<Item>)
    requires NoWeakItems(ws)
    ensures Closed(ws, roots, s, false) <==> Closed(ws, roots, s, true)
  {
    hide PkgClosed, Direct, Weak, Read, Deferred, Implicit, FeatClosed;
    forall n, f | n in ws ensures FeatClosed(ws, s, n, f, false) <==> FeatClosed(ws, s, n, f, true) {
      SameFeatClosed(ws, s, n, f);
    }
  }

  lemma SameFeatClosed(ws: Workspace, s: iset<Item>, n: string, f: string)
    requires NoWeakItems(ws) && n in ws
    ensures FeatClosed(ws, s, n, f, false) <==> FeatClosed(ws, s, n, f, true)
  {
    hide Direct, Weak, Read, Deferred, Implicit;
    if f in ws[n].features {
      forall i | 0 <= i < |ws[n].features[f]|
        ensures ItemClosed(ws, s, n, ws[n].features[f][i], false) <==> ItemClosed(ws, s, n, ws[n].features[f][i], true)
      {
        assert !Weak(ws, n, ws[n].features[f][i]);
      }
    }
  }

  // ── The two least sets can differ ──────────────────────────────────────────

  /** `r` needs `a`, which needs `d`; `r`'s own optional `d` would also turn on the
      feature `e` of `d`, an optional dependency, but is only mentioned weakly. */
  ghost function WeakMention(): Workspace {
    map["r" := Package(map["a" := Dep("a", false, [], false), "d" := Dep("d", true, ["e"], false)],
                       map["w" := ["d?/x"]]),
        "a" := Package(map["d" := Dep("d", false, [], false)], map[]),
        "d" := Package(map["e" := Dep("e", true, [], false)], map[]),
        "e" := Package(map[], map[])]
  }

  lemma ReadsWeak()
    ensures Read("d?/x") == DepFeature("d", "x", true)
  {
    hide Slash, TrimEnd;
    var item := "d?/x";
    assert item[0] != "dep:"[0] || item[1] != "dep:"[1];
    SlashInWeak();
    assert item[..2] == "d?" && item[3..] == "x";
    MarkTrimmed();
  }

  lemma SlashInWeak()
    ensures Slash("d?/x") == 2
  {
    assert "d?/x"[1..] == "?/x" && "?/x"[1..] == "/x";
    assert Slash("/x") == 0 && Slash("?/x") == 1;
  }

  lemma MarkTrimmed()
    ensures TrimEnd("d?", c => c == '?') == "d"
  {
    assert "d?"[..1] == "d";
  }

  /** The five entries that are on when the weak item adds only its feature. */
  ghost function Unapplied(): iset<Item> {
    iset{Pkg("r"), Feat("r", "w"), Pkg("a"), Pkg("d"), Feat("d", "x")}
  }

  lemma UnappliedPackages()
    ensures PkgClosed(WeakMention(), Unapplied(), "r")
    ensures PkgClosed(WeakMention(), Unapplied(), "a")
    ensures PkgClosed(WeakMention(), Unapplied(), "d")
  {
    hide Activate;
    PlainActivate("a");
    PlainActivate("d");
  }

  lemma PlainActivate(name: string)
    ensures Activate(Dep(name, false, [], false), []) == [Pkg(name)]
  {
  }

  lemma UnappliedFeatures()
    ensures FeatClosed(WeakMention(), Unapplied(), "r", "w", false)
    ensures FeatClosed(WeakMention(), Unapplied(), "d", "x", false)
  {
    hide Read, PkgClosed;
    ReadsWeak();
    assert ItemClosed(WeakMention(), Unapplied(), "r", "d?/x", false);
  }

  lemma UnappliedClosed()
    ensures Closed(WeakMention(), Roots("r", ["w"]), Unapplied(), false)
  {
    hide Closed, PkgClosed, FeatClosed;
    UnappliedPackages();
    UnappliedFeatures();
    ClosedBy(WeakMention(), Roots("r", ["w"]), Unapplied(), false);
  }

  lemma ClosedBy(ws: Workspace, roots: seq<Item>, s: iset<Item>, reapply: bool)
    requires forall x :: x in roots ==> x in s
    requires forall n :: n in ws && Pkg(n) in s ==> PkgClosed(ws, s, n)
    requires forall n, f :: n in ws && Feat(n, f) in s ==> FeatClosed(ws, s, n, f, reapply)
    ensures Closed(ws, roots, s, reapply)
  {
  }

  /** Re-applied, the weak item turns on `d`'s feature `e`, and that the package. */
  lemma Reapplied(s: iset<Item>)
    requires Closed(WeakMention(), Roots("r", ["w"]), s, true)
    ensures Pkg("e") in s
  {
    hide Read;
    ReadsWeak();
    var ws := WeakMention();
    assert Pkg("r") in Roots("r", ["w"]) && Feat("r", "w") in Roots("r", ["w"]);
    assert PkgClosed(ws, s, "r") && Pkg("a") in Activate(ws["r"].deps["a"], []);
    assert PkgClosed(ws, s, "a") && Pkg("d") in Activate(ws["a"].deps["d"], []);
    assert FeatClosed(ws, s, "r", "w", true) && ItemClosed(ws, s, "r", ws["r"].features["w"][0], true);
    assert Feat("d", "e") in Direct(ws, "r", "d?/x");
    assert FeatClosed(ws, s, "d", "e", true) && Pkg("e") in Implicit(ws, "d", "e");
  }

  /** Whether `e` is built depends on whether the weak item re-applies the dependency,
      so the two bounds on the closure are not one. */
  lemma ReapplyingMatters()
    ensures ValidWorkspace(WeakMention())
    ensures !InLeast(WeakMention(), Roots("r", ["w"]), false, Pkg("e"))
    ensures InLeast(WeakMention(), Roots("r", ["w"]), true, Pkg("e"))
  {
    hide Closed;
    UnappliedClosed();
    assert Pkg("e") !in Unapplied();
    forall s: iset<Item> | Closed(WeakMention(), Roots("r", ["w"]), s, true) ensures Pkg("e") in s {
      Reapplied(s);
    }
  }
}
