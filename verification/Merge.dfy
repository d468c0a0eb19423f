/** Deep merge of JSON values (cli/src/merge.rs). Objects keep insertion order. */
module Merge {
  import opened Json
  import opened Outcomes

  // ── Meaning ────────────────────────────────────────────────────────────────

  /** The overlay wins wherever it is not an object over an object. */
  function Merged(base: Value, overlay: Value): Value
    decreases base, 1
  {
    if base.Obj? && overlay.Obj? then Obj(MergedFields(base.fields, overlay.fields)) else overlay
  }

  /** The base's keys in place, then the overlay's new keys in its order. */
  function MergedFields(base: seq<Field>, overlay: seq<Field>): seq<Field>
    decreases base, 1
  {
    Updated(base, overlay) + Added(base, overlay)
  }

  function Updated(base: seq<Field>, overlay: seq<Field>): (r: seq<Field>)
    ensures |r| == |base|
    ensures forall i :: 0 <= i < |base| ==> r[i] == UpdatedField(base[i], overlay)
    decreases base, 0
  {
    if base == [] then [] else [UpdatedField(base[0], overlay)] + Updated(base[1..], overlay)
  }

  function UpdatedField(f: Field, overlay: seq<Field>): (r: Field)
    ensures r.key == f.key
    decreases f
  {
    var i := Find(overlay, f.key);
    if i < |overlay| then Field(f.key, Merged(f.value, overlay[i].value)) else f
  }

  function Added(base: seq<Field>, overlay: seq<Field>): (r: seq<Field>)
    ensures |r| <= |overlay|
  {
    if overlay == [] then []
    else Added(base, overlay[..|overlay| - 1])
         + if HasKey(base, overlay[|overlay| - 1].key) then [] else [overlay[|overlay| - 1]]
  }

  // ── Fields ─────────────────────────────────────────────────────────────────

  lemma {:induction false} FindAppend(a: seq<Field>, b: seq<Field>, key: string)
    ensures Find(a + b, key) == if HasKey(a, key) then Find(a, key) else |a| + Find(b, key)
  {
    if a == [] {
      assert a + b == b;
    } else {
      FindAppend(a[1..], b, key);
      assert (a + b)[1..] == a[1..] + b;
    }
  }

  lemma {:induction false} FindUpdated(base: seq<Field>, overlay: seq<Field>, key: string)
    ensures Find(Updated(base, overlay), key) == Find(base, key)
  {
    if base != [] {
      FindUpdated(base[1..], overlay, key);
      assert Updated(base, overlay)[1..] == Updated(base[1..], overlay);
    }
  }

  lemma {:induction false} GetAdded(base: seq<Field>, overlay: seq<Field>, key: string)
    ensures Get(Added(base, overlay), key) == if HasKey(base, key) then None else Get(overlay, key)
  {
    if overlay != [] {
      var init, last := overlay[..|overlay| - 1], overlay[|overlay| - 1];
      GetAdded(base, init, key);
      assert overlay == init + [last];
      FindAppend(init, [last], key);
      FindAppend(Added(base, init), [last], key);
      assert Added(base, init) + [] == Added(base, init);
    }
  }

  /** What a merge holds under one key. */
  lemma GetMerged(base: seq<Field>, overlay: seq<Field>, key: string)
    ensures Get(MergedFields(base, overlay), key) ==
            match (Get(base, key), Get(overlay, key))
            case (None, o) => o
            case (Some(b), None) => Some(b)
            case (Some(b), Some(o)) => Some(Merged(b, o))
  {
    hide Merged;
    FindAppend(Updated(base, overlay), Added(base, overlay), key);
    FindUpdated(base, overlay, key);
    GetAdded(base, overlay, key);
  }

  // ── Merging keeps values well formed ───────────────────────────────────────

  lemma {:induction false} AddedMember(base: seq<Field>, overlay: seq<Field>, f: Field)
    ensures f in Added(base, overlay) <==> f in overlay && !HasKey(base, f.key)
  {
    if overlay != [] {
      var init, last := overlay[..|overlay| - 1], overlay[|overlay| - 1];
      AddedMember(base, init, f);
      assert overlay == init + [last];
    }
  }

  lemma {:induction false} AddedDistinct(base: seq<Field>, overlay: seq<Field>)
    requires DistinctKeys(overlay)
    ensures DistinctKeys(Added(base, overlay))
  {
    if overlay != [] {
      var init, last := overlay[..|overlay| - 1], overlay[|overlay| - 1];
      AddedDistinct(base, init);
      forall i | 0 <= i < |Added(base, init)| ensures Added(base, init)[i].key != last.key {
        AddedMember(base, init, Added(base, init)[i]);
      }
    }
  }

  lemma MergedDistinct(base: seq<Field>, overlay: seq<Field>)
    requires DistinctKeys(base) && DistinctKeys(overlay)
    ensures DistinctKeys(MergedFields(base, overlay))
  {
    AddedDistinct(base, overlay);
    var u, a := Updated(base, overlay), Added(base, overlay);
    forall i, j | 0 <= i < |u| && 0 <= j < |a| ensures u[i].key != a[j].key {
      AddedMember(base, overlay, a[j]);
    }
  }

  lemma {:induction false} MergedWellFormed(base: Value, overlay: Value)
    requires WellFormed(base) && WellFormed(overlay)
    ensures WellFormed(Merged(base, overlay))
    decreases base
  {
    if base.Obj? && overlay.Obj? { MergedFieldsWellFormed(base.fields, overlay.fields); }
  }

  lemma {:induction false} MergedFieldsWellFormed(b: seq<Field>, o: seq<Field>)
    requires WellFormedFields(b) && WellFormedFields(o)
    ensures WellFormedFields(MergedFields(b, o))
    decreases b
  {
    hide Updated, Added, Merged, WellFormed, DistinctKeys;
    var m := MergedFields(b, o);
    MergedDistinct(b, o);
    forall i | 0 <= i < |m| ensures WellFormed(m[i].value) {
      if i < |b| {
        assert m[i] == UpdatedField(b[i], o);
        var j := Find(o, b[i].key);
        if j < |o| { MergedWellFormed(b[i].value, o[j].value); }
      } else {
        assert m[i] in Added(b, o);
        AddedMember(b, o, m[i]);
      }
    }
  }

  // ── Path by path ───────────────────────────────────────────────────────────

  /** The value at a path of object keys. */
  function At(v: Value, path: seq<string>): Option<Value> {
    if path == [] then Some(v)
    else if v.Obj? && HasKey(v.fields, path[0]) then
      At(v.fields[Find(v.fields, path[0])].value, path[1..])
    else None
  }

  /** Both values hold an object at `path`. */
  predicate BothObjects(a: Value, b: Value, path: seq<string>) {
    && At(a, path).Some? && At(a, path).value.Obj?
    && At(b, path).Some? && At(b, path).value.Obj?
  }

  /** `path` is where the two values stop sharing objects. */
  predicate Diverges(a: Value, b: Value, path: seq<string>) {
    && !BothObjects(a, b, path)
    && (path == [] || BothObjects(a, b, path[..|path| - 1]))
  }

  lemma AtStep(v: Value, key: string, path: seq<string>)
    ensures At(v, [key] + path) ==
            if v.Obj? && HasKey(v.fields, key) then At(Get(v.fields, key).value, path) else None
  {
    assert ([key] + path)[1..] == path;
  }

  /** Below the point of divergence the overlay's side survives whole if it has
      one, else the base's. */
  lemma {:induction false} MergeAtDivergence(a: Value, b: Value, path: seq<string>, below: seq<string>)
    requires Diverges(a, b, path)
    ensures At(Merged(a, b), path + below)
         == if At(b, path).Some? then At(b, path + below) else At(a, path + below)
    decreases path
  {
    if path == [] {
      assert path + below == below;
    } else {
      var key, rest := path[0], path[1..];
      assert path == [key] + rest && path + below == [key] + (rest + below);
      AtStep(a, key, rest + below);
      AtStep(b, key, rest + below);
      AtStep(Merged(a, b), key, rest + below);
      AtStep(b, key, rest);
      GetMerged(a.fields, b.fields, key);
      if HasKey(a.fields, key) && HasKey(b.fields, key) {
        var x, y := Get(a.fields, key).value, Get(b.fields, key).value;
        DivergesStep(a, b, path);
        MergeAtDivergence(x, y, rest, below);
      }
    }
  }

  lemma DivergesStep(a: Value, b: Value, path: seq<string>)
    requires path != [] && Diverges(a, b, path) && a.Obj? && b.Obj?
    requires HasKey(a.fields, path[0]) && HasKey(b.fields, path[0])
    ensures Diverges(Get(a.fields, path[0]).value, Get(b.fields, path[0]).value, path[1..])
  {
    if |path| > 1 {
      var p := path[..|path| - 1];
      assert p[1..] == path[1..][..|path[1..]| - 1];
    }
  }

  /** Where both sides hold objects, the merge holds their merged fields. */
  lemma {:induction false} MergeAtShared(a: Value, b: Value, path: seq<string>)
    requires BothObjects(a, b, path)
    ensures At(Merged(a, b), path)
         == Some(Obj(MergedFields(At(a, path).value.fields, At(b, path).value.fields)))
    decreases path
  {
    if path != [] {
      GetMerged(a.fields, b.fields, path[0]);
      MergeAtShared(Get(a.fields, path[0]).value, Get(b.fields, path[0]).value, path[1..]);
    }
  }

  /** The two descriptions cover every path. */
  lemma {:induction false} PathCases(a: Value, b: Value, path: seq<string>) returns (k: nat)
    ensures k <= |path|
    ensures BothObjects(a, b, path) || Diverges(a, b, path[..k])
  {
    k := |path|;
    assert path[..|path|] == path;
    if !BothObjects(a, b, path) && path != [] && !BothObjects(a, b, path[..|path| - 1]) {
      k := PathCases(a, b, path[..|path| - 1]);
      assert path[..|path| - 1][..k] == path[..k];
    }
  }

  // ── Absorption: when merging changes nothing ───────────────────────────────

  /** `c` already starts with everything `a` holds, recursively. */
  predicate Covers(c: Value, a: Value)
    decreases a
  {
    a.Obj? && c.Obj? ==>
      && |a.fields| <= |c.fields|
      && forall i :: 0 <= i < |a.fields| ==>
           a.fields[i].key == c.fields[i].key && Covers(c.fields[i].value, a.fields[i].value)
  }

  lemma {:induction false} AddedConcat(base: seq<Field>, x: seq<Field>, y: seq<Field>)
    ensures Added(base, x + y) == Added(base, x) + Added(base, y)
  {
    if y == [] {
      assert x + y == x && Added(base, x) + [] == Added(base, x);
    } else {
      hide *;
      var init, last := y[..|y| - 1], y[|y| - 1];
      assert y == init + [last];
      AddedConcat(base, x, init);
      AddedSnoc(base, x + init, last);
      AddedSnoc(base, init, last);
      Regroup(x, init, [last]);
      Regroup(Added(base, x), Added(base, init), if HasKey(base, last.key) then [] else [last]);
    }
  }

  lemma Regroup(p: seq<Field>, q: seq<Field>, r: seq<Field>)
    ensures p + q + r == p + (q + r)
  {
  }

  lemma AddedSnoc(base: seq<Field>, s: seq<Field>, f: Field)
    ensures Added(base, s + [f]) == Added(base, s) + if HasKey(base, f.key) then [] else [f]
  {
    hide HasKey;
    assert (s + [f])[..|s|] == s;
  }

  lemma AddedOne(base: seq<Field>, f: Field)
    ensures Added(base, [f]) == if HasKey(base, f.key) then [] else [f]
  {
    assert [f][..0] == [];
  }

  lemma {:induction false} AddedAll(base: seq<Field>, overlay: seq<Field>)
    requires forall i :: 0 <= i < |overlay| ==> !HasKey(base, overlay[i].key)
    ensures Added(base, overlay) == overlay
  {
    hide HasKey;
    if overlay != [] { AddedAll(base, overlay[..|overlay| - 1]); }
  }

  lemma {:induction false} AddedNone(base: seq<Field>, overlay: seq<Field>)
    requires forall i :: 0 <= i < |overlay| ==> HasKey(base, overlay[i].key)
    ensures Added(base, overlay) == []
  {
    hide HasKey;
    if overlay != [] { AddedNone(base, overlay[..|overlay| - 1]); }
  }

  /** A key prefix splits the overlay into the part it updates and the part it adds. */
  lemma AddedAfterPrefix(a: seq<Field>, c: seq<Field>)
    requires DistinctKeys(c) && |a| <= |c| && forall i :: 0 <= i < |a| ==> a[i].key == c[i].key
    ensures Added(a, c) == c[|a|..]
  {
    var p, r := c[..|a|], c[|a|..];
    assert c == p + r;
    AddedConcat(a, p, r);
    forall i | 0 <= i < |p| ensures HasKey(a, p[i].key) {
      assert a[i].key == p[i].key;
    }
    AddedNone(a, p);
    AddedAll(a, r);
  }

  /** Merging `a` under `c` gives back `c` exactly when `c` covers `a`. */
  lemma {:induction false} MergedAbsorbed(a: Value, c: Value)
    requires WellFormed(a) && WellFormed(c)
    ensures Merged(a, c) == c <==> Covers(c, a)
    decreases a, 1
  {
    if a.Obj? && c.Obj? {
      if Covers(c, a) { CoveredIsAbsorbed(a.fields, c.fields); }
      if Merged(a, c) == c { AbsorbedIsCovered(a.fields, c.fields); }
    }
  }

  lemma {:induction false} CoveredIsAbsorbed(x: seq<Field>, y: seq<Field>)
    requires WellFormedFields(x) && WellFormedFields(y) && Covers(Obj(y), Obj(x))
    ensures MergedFields(x, y) == y
    decreases x, 0
  {
    hide Updated, Added, Merged, WellFormed, DistinctKeys;
    AddedAfterPrefix(x, y);
    forall i | 0 <= i < |x| ensures UpdatedField(x[i], y) == y[i] {
      FindDistinct(y, i);
      MergedAbsorbed(x[i].value, y[i].value);
    }
  }

  lemma {:induction false} AbsorbedIsCovered(x: seq<Field>, y: seq<Field>)
    requires WellFormedFields(x) && WellFormedFields(y) && MergedFields(x, y) == y
    ensures Covers(Obj(y), Obj(x))
    decreases x, 0
  {
    hide Updated, Added, Merged, WellFormed;
    forall i | 0 <= i < |x| ensures x[i].key == y[i].key && Covers(y[i].value, x[i].value) {
      assert UpdatedField(x[i], y) == MergedFields(x, y)[i] == y[i];
      FindDistinct(y, i);
      MergedAbsorbed(x[i].value, y[i].value);
    }
  }

  lemma {:induction false} CoversSelf(a: Value)
    ensures Covers(a, a)
  {
    if a.Obj? {
      forall i | 0 <= i < |a.fields| ensures Covers(a.fields[i].value, a.fields[i].value) {
        CoversSelf(a.fields[i].value);
      }
    }
  }

  // ── Associativity ──────────────────────────────────────────────────────────

  /** Some path holds an object, a non-object and an object in `a`, `b`, `c`, and
      `c` does not cover what `a` holds there. */
  predicate Clash(a: Value, b: Value, c: Value)
    decreases a
  {
    && a.Obj? && c.Obj?
    && if b.Obj? then exists i :: 0 <= i < |a.fields| && FieldClash(a.fields[i], b.fields, c.fields)
       else !Covers(c, a)
  }

  predicate FieldClash(f: Field, b: seq<Field>, c: seq<Field>)
    decreases f
  {
    && HasKey(b, f.key) && HasKey(c, f.key)
    && Clash(f.value, b[Find(b, f.key)].value, c[Find(c, f.key)].value)
  }

  lemma UpdatedConcat(x: seq<Field>, y: seq<Field>, c: seq<Field>)
    ensures Updated(x + y, c) == Updated(x, c) + Updated(y, c)
  {
  }

  lemma UpdatedInit(b: seq<Field>, c: seq<Field>)
    requires b != []
    ensures Updated(b, c)[..|b| - 1] == Updated(b[..|b| - 1], c)
  {
  }

  lemma {:induction false} UpdatedAdded(a: seq<Field>, b: seq<Field>, c: seq<Field>)
    ensures Updated(Added(a, b), c) == Added(a, Updated(b, c))
  {
    if b != [] {
      var init, last := b[..|b| - 1], b[|b| - 1];
      UpdatedAdded(a, init, c);
      UpdatedInit(b, c);
      UpdatedConcat(Added(a, init), [last], c);
    }
  }

  lemma HasKeyMerged(a: seq<Field>, b: seq<Field>, key: string)
    ensures HasKey(MergedFields(a, b), key) <==> HasKey(a, key) || HasKey(b, key)
  {
    GetMerged(a, b, key);
  }

  lemma {:induction false} AddedAdded(a: seq<Field>, b: seq<Field>, c: seq<Field>)
    ensures Added(MergedFields(a, b), c) == Added(a, Added(b, c))
  {
    hide MergedFields, HasKey;
    if c != [] {
      var init, last := c[..|c| - 1], c[|c| - 1];
      AddedAdded(a, b, init);
      HasKeyMerged(a, b, last.key);
      AddedConcat(a, Added(b, init), [last]);
      AddedOne(a, last);
      assert HasKey(b, last.key) ==> Added(b, c) == Added(b, init);
    }
  }

  /** Both groupings lay out the same added fields; only updated ones can differ. */
  lemma GroupingsAgreeOnAdded(a: seq<Field>, b: seq<Field>, c: seq<Field>)
    ensures MergedFields(MergedFields(a, b), c)
         == Updated(Updated(a, b), c) + (Added(a, Updated(b, c)) + Added(a, Added(b, c)))
    ensures MergedFields(a, MergedFields(b, c))
         == Updated(a, MergedFields(b, c)) + (Added(a, Updated(b, c)) + Added(a, Added(b, c)))
  {
    hide Updated, Added;
    UpdatedConcat(Updated(a, b), Added(a, b), c);
    UpdatedAdded(a, b, c);
    AddedAdded(a, b, c);
    AddedConcat(a, Updated(b, c), Added(b, c));
  }

  lemma {:induction false} FieldAssociative(f: Field, b: seq<Field>, c: seq<Field>)
    requires WellFormed(f.value) && WellFormedFields(b) && WellFormedFields(c)
    ensures UpdatedField(UpdatedField(f, b), c) == UpdatedField(f, MergedFields(b, c))
            <==> !FieldClash(f, b, c)
    decreases f
  {
    GetMerged(b, c, f.key);
    if HasKey(b, f.key) && HasKey(c, f.key) {
      MergeAssociative(f.value, Get(b, f.key).value, Get(c, f.key).value);
    }
  }

  /** Deep merge is associative exactly when no path clashes. */
  lemma {:induction false} MergeAssociative(a: Value, b: Value, c: Value)
    requires WellFormed(a) && WellFormed(b) && WellFormed(c)
    ensures Merged(Merged(a, b), c) == Merged(a, Merged(b, c)) <==> !Clash(a, b, c)
    decreases a
  {
    if a.Obj? && c.Obj? {
      if b.Obj? {
        ObjectsAssociative(a.fields, b.fields, c.fields);
      } else {
        MergedAbsorbed(a, c);
      }
    }
  }

  lemma {:induction false} ObjectsAssociative(a: seq<Field>, b: seq<Field>, c: seq<Field>)
    requires WellFormedFields(a) && WellFormedFields(b) && WellFormedFields(c)
    ensures MergedFields(MergedFields(a, b), c) == MergedFields(a, MergedFields(b, c))
            <==> forall i :: 0 <= i < |a| ==> !FieldClash(a[i], b, c)
    decreases a
  {
    GroupingsAgreeOnAdded(a, b, c);
    var left, right := Updated(Updated(a, b), c), Updated(a, MergedFields(b, c));
    forall i | 0 <= i < |a| ensures left[i] == right[i] <==> !FieldClash(a[i], b, c) {
      FieldAssociative(a[i], b, c);
    }
    SamePrefix(left, right, Added(a, Updated(b, c)) + Added(a, Added(b, c)));
  }

  lemma SamePrefix(x: seq<Field>, y: seq<Field>, z: seq<Field>)
    requires |x| == |y|
    ensures x + z == y + z <==> forall i :: 0 <= i < |x| ==> x[i] == y[i]
  {
    if x + z == y + z {
      assert x == (x + z)[..|x|] == y;
    } else {
      assert x != y;
    }
  }

  /** `path` holds an object, a non-object and an object in `a`, `b`, `c`. */
  predicate Sandwich(a: Value, b: Value, c: Value, path: seq<string>) {
    && At(a, path).Some? && At(a, path).value.Obj?
    && At(b, path).Some? && !At(b, path).value.Obj?
    && At(c, path).Some? && At(c, path).value.Obj?
  }

  lemma {:induction false} ClashHasPath(a: Value, b: Value, c: Value) returns (path: seq<string>)
    requires WellFormed(a) && Clash(a, b, c)
    ensures Sandwich(a, b, c, path)
    decreases a
  {
    if b.Obj? {
      var i :| 0 <= i < |a.fields| && FieldClash(a.fields[i], b.fields, c.fields);
      var key := a.fields[i].key;
      FindDistinct(a.fields, i);
      var rest := ClashHasPath(a.fields[i].value, Get(b.fields, key).value, Get(c.fields, key).value);
      path := [key] + rest;
      AtStep(a, key, rest);
      AtStep(b, key, rest);
      AtStep(c, key, rest);
    } else {
      path := [];
    }
  }

  /** Associative whenever no path holds object, non-object, object in that order. */
  lemma AssociativeWithoutSandwich(a: Value, b: Value, c: Value)
    requires WellFormed(a) && WellFormed(b) && WellFormed(c)
    requires forall path :: !Sandwich(a, b, c, path)
    ensures Merged(Merged(a, b), c) == Merged(a, Merged(b, c))
  {
    MergeAssociative(a, b, c);
    if Clash(a, b, c) {
      var path := ClashHasPath(a, b, c);
    }
  }

  lemma {:induction false} NoSelfClash(a: Value, b: Value)
    requires WellFormed(b)
    ensures !Clash(a, b, b)
    decreases a
  {
    if a.Obj? && b.Obj? {
      forall i | 0 <= i < |a.fields| ensures !FieldClash(a.fields[i], b.fields, b.fields) {
        var key := a.fields[i].key;
        if HasKey(b.fields, key) { NoSelfClash(a.fields[i].value, Get(b.fields, key).value); }
      }
    }
  }

  /** Applying the same overlay again changes nothing. */
  lemma MergeIdempotent(a: Value, b: Value)
    requires WellFormed(a) && WellFormed(b)
    ensures Merged(Merged(a, b), b) == Merged(a, b)
  {
    NoSelfClash(a, b);
    MergeAssociative(a, b, b);
    CoversSelf(b);
    MergedAbsorbed(b, b);
  }

  // ── In place ───────────────────────────────────────────────────────────────

  /** A mutable place holding a value: what `&mut Value` points to. */
  class Slot {
    var value: Value

    constructor (v: Value)
      ensures value == v
    {
      value := v;
    }
  }

  /** In-place deep merge of `overlay` into `slot`. */
  method MergeValue(slot: Slot, overlay: Value)
    requires WellFormed(slot.value) && WellFormed(overlay)
    modifies slot
    ensures slot.value == Merged(old(slot.value), overlay)
    decreases overlay
  {
    if slot.value.Obj? && overlay.Obj? {
      ghost var base := slot.value.fields;
      var o := overlay.fields;
      MergedNothing(base);
      for i := 0 to |o|
        invariant slot.value == Obj(MergedFields(base, o[..i]))
      {
        var b := slot.value.fields;
        var k, v := o[i].key, o[i].value;
        var j := Find(b, k);
        MergedNext(base, o, i);
        if j < |b| {
          var existing := new Slot(b[j].value);
          MergeValue(existing, v);
          slot.value := Obj(b[j := Field(k, existing.value)]);
        } else {
          slot.value := Obj(b + [Field(k, v)]);
        }
      }
      assert o[..|o|] == o;
    } else {
      slot.value := overlay;
    }
  }

  lemma {:induction false} MergedNothing(base: seq<Field>)
    ensures MergedFields(base, []) == base
  {
    assert Updated(base, []) == base;
  }

  /** One more overlay field: found in place under the base's key, or appended. */
  lemma MergedNext(base: seq<Field>, o: seq<Field>, i: nat)
    requires WellFormedFields(base) && WellFormedFields(o) && i < |o|
    ensures var b, f := MergedFields(base, o[..i]), o[i];
            var j := Find(b, f.key);
            && (j < |b| ==> WellFormed(b[j].value))
            && MergedFields(base, o[..i + 1])
               == if j < |b| then b[j := Field(f.key, Merged(b[j].value, f.value))] else b + [f]
  {
    hide MergedFields, WellFormed, Merged;
    var p, f := o[..i], o[i];
    assert o[..i + 1] == p + [f];
    MergedFind(base, p, f.key);
    MergedStep(base, p, f);
  }

  lemma MergedStep(base: seq<Field>, p: seq<Field>, f: Field)
    requires DistinctKeys(base) && !HasKey(p, f.key)
    ensures var b, j := MergedFields(base, p), Find(base, f.key);
            MergedFields(base, p + [f])
            == if j < |base| then b[j := Field(f.key, Merged(base[j].value, f.value))] else b + [f]
  {
    hide *;
    AddedConcat(base, p, [f]);
    AddedOne(base, f);
    UpdatedNext(base, p, f);
    MergedParts(base, p);
    MergedParts(base, p + [f]);
    var u, a, j := Updated(base, p), Added(base, p), Find(base, f.key);
    if j < |base| {
      KeyFound(base, f.key);
    } else {
      KeyMissing(base, f.key);
    }
  }

  lemma MergedParts(base: seq<Field>, overlay: seq<Field>)
    ensures MergedFields(base, overlay) == Updated(base, overlay) + Added(base, overlay)
  {
  }

  lemma KeyFound(fields: seq<Field>, key: string)
    requires Find(fields, key) < |fields|
    ensures HasKey(fields, key)
  {
  }

  lemma KeyMissing(fields: seq<Field>, key: string)
    requires Find(fields, key) == |fields|
    ensures !HasKey(fields, key)
  {
  }

  /** A key the overlay lacks is where the base has it, if anywhere. */
  lemma MergedFind(base: seq<Field>, p: seq<Field>, key: string)
    requires !HasKey(p, key)
    ensures HasKey(MergedFields(base, p), key) <==> HasKey(base, key)
    ensures HasKey(base, key) ==>
              Find(MergedFields(base, p), key) == Find(base, key)
              && MergedFields(base, p)[Find(base, key)] == base[Find(base, key)]
  {
    hide Merged;
    FindAppend(Updated(base, p), Added(base, p), key);
    FindUpdated(base, p, key);
    GetAdded(base, p, key);
  }

  lemma UpdatedNext(base: seq<Field>, p: seq<Field>, f: Field)
    requires DistinctKeys(base) && !HasKey(p, f.key)
    ensures var j := Find(base, f.key);
            Updated(base, p + [f])
            == if j < |base| then Updated(base, p)[j := Field(f.key, Merged(base[j].value, f.value))]
               else Updated(base, p)
  {
    hide *;
    var j := Find(base, f.key);
    var next := Updated(base, p + [f]);
    forall i | 0 <= i < |base|
      ensures next[i] == if i == j then Field(f.key, Merged(base[j].value, f.value)) else Updated(base, p)[i]
    {
      UpdatedFieldNext(base[i], p, f);
      if base[i].key == f.key { FindDistinct(base, i); }
    }
  }

  lemma UpdatedFieldNext(g: Field, p: seq<Field>, f: Field)
    requires !HasKey(p, f.key)
    ensures UpdatedField(g, p + [f])
         == if g.key == f.key then Field(f.key, Merged(g.value, f.value)) else UpdatedField(g, p)
  {
    hide Merged;
    FindAppend(p, [f], g.key);
  }
}
