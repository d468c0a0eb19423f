/** Deep merge up to the program's own equality of values, which ignores the order of
    keys (cli/src/merge.rs). */
module MergeEquality {
  import opened Json
  import opened Merge
  import opened Outcomes
  import opened Sorting
  import DedupKey

  // ── Equality key by key ────────────────────────────────────────────────────

  ghost predicate SameUnder(x: Option<Value>, y: Option<Value>) {
    match (x, y)
    case (Some(u), Some(v)) => DedupKey.Equal(u, v)
    case _ => x.None? && y.None?
  }

  lemma KeyListed(fields: seq<Field>, key: string)
    ensures key in Keys(fields) <==> HasKey(fields, key)
  {
    if HasKey(fields, key) { assert Keys(fields)[Find(fields, key)] == key; }
  }

  /** As many keys, all of them in the other: the same keys. */
  lemma SameKeys(fs: seq<Field>, gs: seq<Field>, key: string)
    requires DistinctKeys(fs) && |fs| >= |gs| && forall i :: 0 <= i < |fs| ==> HasKey(gs, fs[i].key)
    ensures |fs| == |gs| && (HasKey(fs, key) <==> HasKey(gs, key))
  {
    hide HasKey;
    forall i | 0 <= i < |fs| ensures Keys(fs)[i] in Keys(gs) { KeyListed(gs, fs[i].key); }
    DistinctFill(Keys(fs), Keys(gs));
    assert |fs| == |multiset(Keys(fs))| == |multiset(Keys(gs))| == |gs|;
    MultisetMember(Keys(fs), Keys(gs), key);
    KeyListed(fs, key);
    KeyListed(gs, key);
  }

  lemma EqualUnder(fs: seq<Field>, gs: seq<Field>, key: string)
    requires DistinctKeys(fs) && DedupKey.Equal(Obj(fs), Obj(gs))
    ensures SameUnder(Get(fs, key), Get(gs, key))
  {
    assert |fs| == |gs| && forall i :: 0 <= i < |fs| ==> DedupKey.FieldMatches(fs[i], gs);
    hide DedupKey.Equal;
    SameKeys(fs, gs, key);
    if HasKey(fs, key) { assert DedupKey.FieldMatches(fs[Find(fs, key)], gs); }
  }

  lemma UnderEqual(fs: seq<Field>, gs: seq<Field>)
    requires DistinctKeys(fs) && DistinctKeys(gs)
    requires forall key :: SameUnder(Get(fs, key), Get(gs, key))
    ensures DedupKey.Equal(Obj(fs), Obj(gs))
  {
    forall i | 0 <= i < |fs| ensures HasKey(gs, fs[i].key) && DedupKey.FieldMatches(fs[i], gs) {
      FindDistinct(fs, i);
      assert SameUnder(Get(fs, fs[i].key), Get(gs, fs[i].key));
    }
    forall i | 0 <= i < |gs| ensures HasKey(fs, gs[i].key) {
      FindDistinct(gs, i);
      assert SameUnder(Get(fs, gs[i].key), Get(gs, gs[i].key));
    }
    if |fs| >= |gs| { SameKeys(fs, gs, ""); } else { SameKeys(gs, fs, ""); }
  }

  /** Two objects are equal exactly when they are under every key. */
  lemma EqualByKey(fs: seq<Field>, gs: seq<Field>)
    requires DistinctKeys(fs) && DistinctKeys(gs)
    ensures DedupKey.Equal(Obj(fs), Obj(gs)) <==> forall key :: SameUnder(Get(fs, key), Get(gs, key))
  {
    hide DedupKey.Equal, SameUnder, DistinctKeys;
    if DedupKey.Equal(Obj(fs), Obj(gs)) {
      forall key ensures SameUnder(Get(fs, key), Get(gs, key)) { EqualUnder(fs, gs, key); }
    }
    if forall key :: SameUnder(Get(fs, key), Get(gs, key)) { UnderEqual(fs, gs); }
  }

  lemma EqualReflexive(v: Value)
    requires WellFormed(v)
    ensures DedupKey.Equal(v, v)
  {
    DedupKey.KeyCanonical(v, v);
  }

  lemma EqualSymmetric(x: Value, y: Value)
    requires WellFormed(x) && WellFormed(y)
    ensures DedupKey.Equal(x, y) <==> DedupKey.Equal(y, x)
  {
    DedupKey.KeyCanonical(x, y);
    DedupKey.KeyCanonical(y, x);
  }

  // ── Absorption ─────────────────────────────────────────────────────────────

  /** `c` has every key `a` has, recursively, in any order. */
  predicate Includes(c: Value, a: Value)
    decreases a
  {
    a.Obj? && c.Obj? ==> forall i :: 0 <= i < |a.fields| ==> IncludesField(c.fields, a.fields[i])
  }

  predicate IncludesField(c: seq<Field>, f: Field)
    decreases f
  {
    HasKey(c, f.key) && Includes(c[Find(c, f.key)].value, f.value)
  }

  lemma GetWellFormed(fields: seq<Field>, key: string)
    requires WellFormedFields(fields)
    ensures Get(fields, key).Some? ==> WellFormed(Get(fields, key).value)
  {
  }

  lemma {:induction false} AbsorbedUnder(x: seq<Field>, y: seq<Field>, key: string)
    requires WellFormedFields(x) && WellFormedFields(y)
    ensures SameUnder(Get(MergedFields(x, y), key), Get(y, key)) <==>
            (HasKey(x, key) ==> IncludesField(y, x[Find(x, key)]))
    decreases x, 0
  {
    hide DedupKey.Equal, MergedFields, WellFormed, Merged, Includes;
    GetMerged(x, y, key);
    GetWellFormed(x, key);
    GetWellFormed(y, key);
    if HasKey(y, key) {
      EqualReflexive(Get(y, key).value);
      if HasKey(x, key) { AbsorbedUpToOrder(x[Find(x, key)].value, Get(y, key).value); }
    }
  }

  /** Merging `a` under `c` gives a value equal to `c` exactly when `c` has every key of `a`. */
  lemma {:induction false} AbsorbedUpToOrder(a: Value, c: Value)
    requires WellFormed(a) && WellFormed(c)
    ensures DedupKey.Equal(Merged(a, c), c) <==> Includes(c, a)
    decreases a, 1
  {
    hide DedupKey.Equal, MergedFields, SameUnder, IncludesField;
    if a.Obj? && c.Obj? {
      var x, y := a.fields, c.fields;
      MergedDistinct(x, y);
      EqualByKey(MergedFields(x, y), y);
      forall key
        ensures SameUnder(Get(MergedFields(x, y), key), Get(y, key)) <==>
                (HasKey(x, key) ==> IncludesField(y, x[Find(x, key)]))
      {
        AbsorbedUnder(x, y, key);
      }
      forall i | 0 <= i < |x| ensures HasKey(x, x[i].key) && x[Find(x, x[i].key)] == x[i] {
        FindDistinct(x, i);
      }
    } else {
      EqualReflexive(c);
    }
  }

  // ── Associativity ──────────────────────────────────────────────────────────

  /** Some path holds an object, a non-object and an object in `a`, `b`, `c`, and `c`
      lacks a key of what `a` holds there. */
  predicate Loses(a: Value, b: Value, c: Value)
    decreases a
  {
    && a.Obj? && c.Obj?
    && if b.Obj? then exists i :: 0 <= i < |a.fields| && FieldLoses(a.fields[i], b.fields, c.fields)
       else !Includes(c, a)
  }

  predicate FieldLoses(f: Field, b: seq<Field>, c: seq<Field>)
    decreases f
  {
    && HasKey(b, f.key) && HasKey(c, f.key)
    && Loses(f.value, b[Find(b, f.key)].value, c[Find(c, f.key)].value)
  }

  lemma {:induction false} AssociativeUnder(a: seq<Field>, b: seq<Field>, c: seq<Field>, key: string)
    requires WellFormedFields(a) && WellFormedFields(b) && WellFormedFields(c)
    ensures SameUnder(Get(MergedFields(MergedFields(a, b), c), key), Get(MergedFields(a, MergedFields(b, c)), key))
            <==> !(HasKey(a, key) && FieldLoses(a[Find(a, key)], b, c))
    decreases a, 0
  {
    hide DedupKey.Equal, MergedFields, WellFormed, Merged, Loses;
    GetMerged(a, b, key);
    GetMerged(b, c, key);
    GetMerged(MergedFields(a, b), c, key);
    GetMerged(a, MergedFields(b, c), key);
    if HasKey(a, key) && HasKey(b, key) && HasKey(c, key) {
      AssociativeUpToOrder(a[Find(a, key)].value, Get(b, key).value, Get(c, key).value);
    } else {
      MergedFieldsWellFormed(a, b);
      MergedFieldsWellFormed(MergedFields(a, b), c);
      var r := Get(MergedFields(MergedFields(a, b), c), key);
      GetWellFormed(MergedFields(MergedFields(a, b), c), key);
      assert r == Get(MergedFields(a, MergedFields(b, c)), key);
      if r.Some? { EqualReflexive(r.value); }
    }
  }

  lemma {:induction false} ObjectsAssociativeUpToOrder(a: seq<Field>, b: seq<Field>, c: seq<Field>)
    requires WellFormedFields(a) && WellFormedFields(b) && WellFormedFields(c)
    ensures DedupKey.Equal(Obj(MergedFields(MergedFields(a, b), c)), Obj(MergedFields(a, MergedFields(b, c))))
            <==> forall i :: 0 <= i < |a| ==> !FieldLoses(a[i], b, c)
    decreases a, 1
  {
    hide DedupKey.Equal, MergedFields, SameUnder, FieldLoses, WellFormed;
    var l, r := MergedFields(MergedFields(a, b), c), MergedFields(a, MergedFields(b, c));
    MergedFieldsWellFormed(a, b);
    MergedFieldsWellFormed(b, c);
    MergedFieldsWellFormed(MergedFields(a, b), c);
    MergedFieldsWellFormed(a, MergedFields(b, c));
    EqualByKey(l, r);
    forall key
      ensures SameUnder(Get(l, key), Get(r, key)) <==> !(HasKey(a, key) && FieldLoses(a[Find(a, key)], b, c))
    {
      AssociativeUnder(a, b, c, key);
    }
    forall i | 0 <= i < |a| ensures HasKey(a, a[i].key) && a[Find(a, a[i].key)] == a[i] {
      FindDistinct(a, i);
    }
  }

  /** Up to the order of keys, deep merge is associative exactly when no path loses one. */
  lemma {:induction false} AssociativeUpToOrder(a: Value, b: Value, c: Value)
    requires WellFormed(a) && WellFormed(b) && WellFormed(c)
    ensures DedupKey.Equal(Merged(Merged(a, b), c), Merged(a, Merged(b, c))) <==> !Loses(a, b, c)
    decreases a, 2
  {
    hide DedupKey.Equal, MergedFields, Includes, FieldLoses;
    MergedWellFormed(a, c);
    MergedWellFormed(b, c);
    if a.Obj? && c.Obj? {
      if b.Obj? {
        ObjectsAssociativeUpToOrder(a.fields, b.fields, c.fields);
      } else {
        AbsorbedUpToOrder(a, c);
        EqualSymmetric(Merged(a, c), c);
      }
    } else {
      EqualReflexive(Merged(b, c));
    }
  }

  /** Object, scalar, object: the grouping decides whether the first object's key
      survives. */
  lemma GroupingMatters()
    ensures var a, b, c := Obj([Field("x", Null)]), Null, Obj([]);
            && Merged(Merged(a, b), c) == c && Merged(a, Merged(b, c)) == a
            && !DedupKey.Equal(a, c)
  {
    var x := [Field("x", Null)];
    MergedNothing(x);
  }

  /** The same keys in another order: the groupings differ as written but are equal. */
  lemma OnlyOrderDiffers()
    ensures var x, y := Field("x", Null), Field("y", Null);
            var a, b, c := Obj([x, y]), Null, Obj([y, x]);
            && Merged(Merged(a, b), c) != Merged(a, Merged(b, c))
            && DedupKey.Equal(Merged(Merged(a, b), c), Merged(a, Merged(b, c)))
  {
    var x, y := Field("x", Null), Field("y", Null);
    var a, b, c := Obj([x, y]), Null, Obj([y, x]);
    assert x.key != y.key;
    assert WellFormed(a) && WellFormed(b) && WellFormed(c);
    assert !Covers(c, a) by { assert a.fields[0].key != c.fields[0].key; }
    MergeAssociative(a, b, c);
    assert IncludesField(c.fields, x) && IncludesField(c.fields, y);
    AssociativeUpToOrder(a, b, c);
  }
}
