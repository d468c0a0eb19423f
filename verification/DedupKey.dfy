/** The text identity a projected value is deduplicated by
    (cli/src/discovery_matrix.rs `dedup_key`). */
module DedupKey {
  import opened Json
  import opened Sorting
  import opened Text

  function SortedKeys(fields: seq<Field>): (keys: seq<string>)
    ensures multiset(keys) == multiset(Keys(fields))
    ensures forall i :: 0 <= i < |keys| ==> Find(fields, keys[i]) < |fields|
  {
    var keys := Sort(Keys(fields), StringLe);
    assert forall i :: 0 <= i < |keys| ==> Find(fields, keys[i]) < |fields| by {
      forall i | 0 <= i < |keys| ensures Find(fields, keys[i]) < |fields| {
        MultisetMember(keys, Keys(fields), keys[i]);
        assert keys[i] in keys;
      }
    }
    keys
  }

  /** Object keys sorted at every depth; everything else as serde_json prints it. */
  function Key(v: Value): string
    decreases v, 0
  {
    match v
    case Obj(fields) => "{" + (Join(ObjectBody(fields, SortedKeys(fields)), ",") + "}")
    case Arr(items) => "[" + (Join(ArrayBody(items), ",") + "]")
    case _ => Print(v)
  }

  function ObjectBody(fields: seq<Field>, keys: seq<string>): (r: seq<string>)
    requires forall i :: 0 <= i < |keys| ==> Find(fields, keys[i]) < |fields|
    ensures |r| == |keys|
    decreases fields, 1 + |keys|
  {
    if keys == [] then []
    else [Quote(keys[0]) + (":" + Key(fields[Find(fields, keys[0])].value))]
         + ObjectBody(fields, keys[1..])
  }

  function ArrayBody(items: seq<Value>): (r: seq<string>)
    ensures |r| == |items|
    decreases items, 0
  {
    if items == [] then [] else [Key(items[0])] + ArrayBody(items[1..])
  }

  // ── Equality of values ignores key order ───────────────────────────────────

  /** Equality up to key order: same keys, equal values, numbers equal as written. */
  ghost predicate Equal(a: Value, b: Value) {
    match (a, b)
    case (Arr(xs), Arr(ys)) =>
      |xs| == |ys| && forall i :: 0 <= i < |xs| ==> Equal(xs[i], ys[i])
    case (Obj(fs), Obj(gs)) =>
      |fs| == |gs| && forall i :: 0 <= i < |fs| ==> FieldMatches(fs[i], gs)
    case _ => a == b
  }

  ghost predicate FieldMatches(f: Field, gs: seq<Field>) {
    var j := Find(gs, f.key);
    j < |gs| && Equal(f.value, gs[j].value)
  }

  /** The same value with the keys of every object in sorted order. */
  ghost function Canon(v: Value): Value
    decreases v, 0
  {
    match v
    case Obj(fields) => Obj(CanonFields(fields, SortedKeys(fields)))
    case Arr(items) => Arr(CanonItems(items))
    case _ => v
  }

  ghost function CanonFields(fields: seq<Field>, keys: seq<string>): (r: seq<Field>)
    requires forall i :: 0 <= i < |keys| ==> Find(fields, keys[i]) < |fields|
    ensures |r| == |keys|
    ensures forall i :: 0 <= i < |keys| ==>
              r[i].key == keys[i] && r[i].value == Canon(fields[Find(fields, keys[i])].value)
    decreases fields, 1 + |keys|
  {
    if keys == [] then []
    else [Field(keys[0], Canon(fields[Find(fields, keys[0])].value))] + CanonFields(fields, keys[1..])
  }

  ghost function CanonItems(items: seq<Value>): (r: seq<Value>)
    ensures |r| == |items|
    ensures forall i :: 0 <= i < |items| ==> r[i] == Canon(items[i])
    decreases items, 0
  {
    if items == [] then [] else [Canon(items[0])] + CanonItems(items[1..])
  }

  lemma SortedKeysSorted(fields: seq<Field>)
    requires DistinctKeys(fields)
    ensures SortedBy(SortedKeys(fields), StringLe) && Distinct(SortedKeys(fields))
  {
    StringOrderTotal();
    SortSorted(Keys(fields), StringLe);
    DistinctPermutation(Keys(fields), SortedKeys(fields));
  }

  lemma {:induction false} CanonWellFormed(v: Value)
    requires WellFormed(v)
    ensures WellFormed(Canon(v))
    decreases v, 0
  {
    match v
    case Obj(fields) =>
      SortedKeysSorted(fields);
      CanonFieldsWellFormed(fields, SortedKeys(fields));
    case Arr(items) =>
      forall i | 0 <= i < |items| ensures WellFormed(CanonItems(items)[i]) {
        CanonWellFormed(items[i]);
      }
    case _ =>
  }

  lemma {:induction false} CanonFieldsWellFormed(fields: seq<Field>, keys: seq<string>)
    requires WellFormedFields(fields) && Distinct(keys)
    requires forall i :: 0 <= i < |keys| ==> Find(fields, keys[i]) < |fields|
    ensures WellFormedFields(CanonFields(fields, keys))
    decreases fields, 1
  {
    hide Distinct;
    var r := CanonFields(fields, keys);
    forall i | 0 <= i < |r| ensures WellFormed(r[i].value) {
      CanonWellFormed(fields[Find(fields, keys[i])].value);
    }
    CanonFieldsDistinct(fields, keys);
  }

  lemma CanonFieldsDistinct(fields: seq<Field>, keys: seq<string>)
    requires Distinct(keys)
    requires forall i :: 0 <= i < |keys| ==> Find(fields, keys[i]) < |fields|
    ensures DistinctKeys(CanonFields(fields, keys))
  {
    hide Canon;
  }

  // ── The key is the text of the canonical value ─────────────────────────────

  lemma {:induction false} JoinItems(items: seq<Value>, parts: seq<string>)
    requires items != [] && |parts| == |items|
    requires forall i :: 0 <= i < |items| ==> parts[i] == Print(items[i])
    ensures Join(parts, ",") + "]" == Print(items[0]) + PrintItems(items[1..])
  {
    hide Print;
    if |items| > 1 {
      JoinItems(items[1..], parts[1..]);
      assert Join(parts, ",") + "]" == parts[0] + ("," + (Join(parts[1..], ",") + "]"));
    }
  }

  lemma {:induction false} JoinFields(fields: seq<Field>, parts: seq<string>)
    requires fields != [] && |parts| == |fields|
    requires forall i :: 0 <= i < |fields| ==> parts[i] == PrintField(fields[i])
    ensures Join(parts, ",") + "}" == PrintField(fields[0]) + PrintFields(fields[1..])
  {
    hide PrintField;
    if |fields| > 1 {
      JoinFields(fields[1..], parts[1..]);
      assert Join(parts, ",") + "}" == parts[0] + ("," + (Join(parts[1..], ",") + "}"));
    }
  }

  lemma {:induction false} KeyIsCanonicalText(v: Value)
    ensures Key(v) == Print(Canon(v))
    decreases v, 0
  {
    match v
    case Obj(fields) =>
      var keys := SortedKeys(fields);
      ObjectBodyText(fields, keys);
      if keys != [] { JoinFields(CanonFields(fields, keys), ObjectBody(fields, keys)); }
    case Arr(items) =>
      ArrayBodyText(items);
      if items != [] { JoinItems(CanonItems(items), ArrayBody(items)); }
    case _ =>
  }

  lemma {:induction false} ObjectBodyText(fields: seq<Field>, keys: seq<string>)
    requires forall i :: 0 <= i < |keys| ==> Find(fields, keys[i]) < |fields|
    ensures forall i :: 0 <= i < |keys| ==>
              ObjectBody(fields, keys)[i] == PrintField(CanonFields(fields, keys)[i])
    decreases fields, 1 + |keys|
  {
    if keys != [] {
      KeyIsCanonicalText(fields[Find(fields, keys[0])].value);
      ObjectBodyText(fields, keys[1..]);
    }
  }

  lemma {:induction false} ArrayBodyText(items: seq<Value>)
    ensures forall i :: 0 <= i < |items| ==> ArrayBody(items)[i] == Print(CanonItems(items)[i])
    decreases items, 0
  {
    if items != [] {
      KeyIsCanonicalText(items[0]);
      ArrayBodyText(items[1..]);
    }
  }

  // ── Canonical values are equal exactly when the values are ─────────────────

  lemma {:induction false} CanonEqual(a: Value, b: Value)
    requires WellFormed(a) && WellFormed(b)
    ensures Canon(a) == Canon(b) <==> Equal(a, b)
    decreases a
  {
    match (a, b)
    case (Arr(xs), Arr(ys)) => CanonEqualItems(xs, ys);
    case (Obj(fs), Obj(gs)) =>
      if Canon(a) == Canon(b) { CanonToEqual(fs, gs); }
      if Equal(a, b) { EqualToCanon(fs, gs); }
    case _ =>
  }

  lemma {:induction false} CanonEqualItems(xs: seq<Value>, ys: seq<Value>)
    requires WellFormed(Arr(xs)) && WellFormed(Arr(ys))
    ensures Canon(Arr(xs)) == Canon(Arr(ys)) <==> Equal(Arr(xs), Arr(ys))
    decreases xs
  {
    var cx, cy := CanonItems(xs), CanonItems(ys);
    if |xs| == |ys| {
      forall i | 0 <= i < |xs| ensures cx[i] == cy[i] <==> Equal(xs[i], ys[i]) {
        CanonEqual(xs[i], ys[i]);
      }
    }
  }

  lemma {:induction false} CanonToEqual(fs: seq<Field>, gs: seq<Field>)
    requires WellFormedFields(fs) && WellFormedFields(gs)
    requires Canon(Obj(fs)) == Canon(Obj(gs))
    ensures Equal(Obj(fs), Obj(gs))
    decreases fs
  {
    var kf, kg := SortedKeys(fs), SortedKeys(gs);
    var cf, cg := CanonFields(fs, kf), CanonFields(gs, kg);
    assert |fs| == |multiset(Keys(fs))| == |multiset(kf)| == |cf|;
    assert |gs| == |multiset(Keys(gs))| == |multiset(kg)| == |cg|;
    forall i | 0 <= i < |fs| ensures FieldMatches(fs[i], gs) {
      MultisetMember(kf, Keys(fs), fs[i].key);
      assert Keys(fs)[i] in Keys(fs);
      var j :| 0 <= j < |kf| && kf[j] == fs[i].key;
      assert cf[j] == cg[j];
      FindDistinct(fs, i);
      CanonEqual(fs[i].value, gs[Find(gs, fs[i].key)].value);
    }
  }

  lemma SameSortedKeys(fs: seq<Field>, gs: seq<Field>)
    requires DistinctKeys(fs) && DistinctKeys(gs) && |fs| == |gs|
    requires forall i :: 0 <= i < |fs| ==> Find(gs, fs[i].key) < |gs|
    ensures SortedKeys(fs) == SortedKeys(gs)
  {
    SortedKeysSorted(fs);
    SortedKeysSorted(gs);
    forall i | 0 <= i < |fs| ensures Keys(fs)[i] in Keys(gs) {
      assert Keys(gs)[Find(gs, fs[i].key)] == fs[i].key;
    }
    DistinctFill(Keys(fs), Keys(gs));
    SortedUnique(SortedKeys(fs), SortedKeys(gs));
  }

  lemma {:induction false} EqualToCanon(fs: seq<Field>, gs: seq<Field>)
    requires WellFormedFields(fs) && WellFormedFields(gs)
    requires Equal(Obj(fs), Obj(gs))
    ensures Canon(Obj(fs)) == Canon(Obj(gs))
    decreases fs
  {
    assert forall i :: 0 <= i < |fs| ==> FieldMatches(fs[i], gs);
    SameSortedKeys(fs, gs);
    var keys := SortedKeys(fs);
    var cf, cg := CanonFields(fs, keys), CanonFields(gs, keys);
    forall i | 0 <= i < |keys| ensures cf[i] == cg[i] {
      var f := fs[Find(fs, keys[i])];
      assert FieldMatches(f, gs);
      CanonEqual(f.value, gs[Find(gs, f.key)].value);
    }
  }

  /** Two values get the same key exactly when they are equal up to key order. */
  lemma KeyCanonical(a: Value, b: Value)
    requires WellFormed(a) && WellFormed(b)
    ensures Key(a) == Key(b) <==> Equal(a, b)
  {
    KeyIsCanonicalText(a);
    KeyIsCanonicalText(b);
    CanonWellFormed(a);
    CanonWellFormed(b);
    SameText(Canon(a), Canon(b));
    CanonEqual(a, b);
  }

  /** The key is self-delimiting: followed by text that continues no number, it
      is read back unambiguously. */
  lemma KeySelfDelimiting(a: Value, b: Value, r: string, t: string)
    requires WellFormed(a) && WellFormed(b) && Follow(r) && Follow(t)
    requires Key(a) + r == Key(b) + t
    ensures Equal(a, b) && r == t
  {
    KeyIsCanonicalText(a);
    KeyIsCanonicalText(b);
    CanonWellFormed(a);
    CanonWellFormed(b);
    PrintInjective(Canon(a), Canon(b), r, t);
    CanonEqual(a, b);
  }

  // ── The text of a value ────────────────────────────────────────────────────

  /** The compact text: the literals, items and fields between brackets with commas, a
      field's quoted key before a colon. */
  lemma PrintedAs(items: seq<Value>, fields: seq<Field>, texts: seq<string>, pairs: seq<string>)
    requires |texts| == |items| && forall i :: 0 <= i < |items| ==> texts[i] == Print(items[i])
    requires |pairs| == |fields|
    requires forall i :: 0 <= i < |fields| ==> pairs[i] == Quote(fields[i].key) + ":" + Print(fields[i].value)
    ensures Print(Null) == "null" && Print(Bool(true)) == "true" && Print(Bool(false)) == "false"
    ensures Print(Arr(items)) == "[" + Join(texts, ",") + "]"
    ensures Print(Obj(fields)) == "{" + Join(pairs, ",") + "}"
  {
    hide Quote;
    if items != [] {
      JoinItems(items, texts);
      assert "[" + (Join(texts, ",") + "]") == "[" + Join(texts, ",") + "]";
    }
    if fields != [] {
      forall i | 0 <= i < |fields| ensures pairs[i] == PrintField(fields[i]) {
        assert Quote(fields[i].key) + ":" + Print(fields[i].value) == PrintField(fields[i]);
      }
      JoinFields(fields, pairs);
      assert "{" + (Join(pairs, ",") + "}") == "{" + Join(pairs, ",") + "}";
    }
  }
}
