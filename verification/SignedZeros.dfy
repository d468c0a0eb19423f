/** Where the key and `==` part ways (cli/src/discovery_matrix.rs `dedup_key`): floats
    compare as numbers, so 0.0 equals -0.0, but the key is their text. */
module SignedZeros {
  import opened Json
  import opened DedupKey

  predicate ZeroFloat(n: Number) {
    n == Float("0.0") || n == Float("-0.0")
  }

  /** `==` on values: as `Equal`, with the two float zeros equal. */
  ghost predicate Compares(a: Value, b: Value) {
    match (a, b)
    case (Num(m), Num(n)) => m == n || (ZeroFloat(m) && ZeroFloat(n))
    case (Arr(xs), Arr(ys)) =>
      |xs| == |ys| && forall i :: 0 <= i < |xs| ==> Compares(xs[i], ys[i])
    case (Obj(fs), Obj(gs)) =>
      |fs| == |gs| && forall i :: 0 <= i < |fs| ==> FieldCompares(fs[i], gs)
    case _ => a == b
  }

  ghost predicate FieldCompares(f: Field, gs: seq<Field>) {
    var j := Find(gs, f.key);
    j < |gs| && Compares(f.value, gs[j].value)
  }

  /** No float zero of either sign anywhere in the value. */
  predicate ZeroFree(v: Value) {
    match v
    case Num(n) => !ZeroFloat(n)
    case Arr(items) => forall i :: 0 <= i < |items| ==> ZeroFree(items[i])
    case Obj(fields) => forall i :: 0 <= i < |fields| ==> ZeroFreeField(fields[i])
    case _ => true
  }

  predicate ZeroFreeField(f: Field) {
    ZeroFree(f.value)
  }

  /** The value with the sign of every float zero turned. */
  ghost function Flip(v: Value): Value
    decreases v
  {
    match v
    case Num(n) =>
      if n == Float("0.0") then Num(Float("-0.0")) else if n == Float("-0.0") then Num(Float("0.0")) else v
    case Arr(items) => Arr(seq(|items|, i requires 0 <= i < |items| => Flip(items[i])))
    case Obj(fields) => Obj(seq(|fields|, i requires 0 <= i < |fields| => FlipField(fields[i])))
    case _ => v
  }

  ghost function FlipField(f: Field): (r: Field)
    ensures r.key == f.key
    decreases f
  {
    Field(f.key, Flip(f.value))
  }

  lemma FlippedText(n: Number)
    requires ZeroFloat(n)
    ensures ValidNumber(Flip(Num(n)).num)
  {
    assert "0.0"[1] == '.' && "-0.0"[2] == '.';
  }

  /** The turned value compares equal, and has another key when there was a zero. */
  lemma {:induction false} FlipCompares(v: Value)
    requires WellFormed(v)
    ensures WellFormed(Flip(v)) && Compares(v, Flip(v))
    ensures Equal(v, Flip(v)) <==> ZeroFree(v)
    decreases v
  {
    match v
    case Num(n) => if ZeroFloat(n) { FlippedText(n); }
    case Arr(items) =>
      forall i | 0 <= i < |items|
        ensures WellFormed(Flip(items[i])) && Compares(items[i], Flip(items[i]))
        ensures Equal(items[i], Flip(items[i])) <==> ZeroFree(items[i])
      {
        FlipCompares(items[i]);
      }
    case Obj(fields) => FlipObject(fields);
    case _ =>
  }

  lemma {:induction false} FlipObject(fields: seq<Field>)
    requires WellFormedFields(fields)
    ensures WellFormed(Flip(Obj(fields))) && Compares(Obj(fields), Flip(Obj(fields)))
    ensures Equal(Obj(fields), Flip(Obj(fields))) <==> ZeroFree(Obj(fields))
    decreases fields
  {
    hide Flip, Equal, Compares, ZeroFree, WellFormed;
    var flipped := seq(|fields|, i requires 0 <= i < |fields| => FlipField(fields[i]));
    forall i | 0 <= i < |fields|
      ensures WellFormed(flipped[i].value) && FieldCompares(fields[i], flipped)
      ensures FieldMatches(fields[i], flipped) <==> ZeroFreeField(fields[i])
    {
      FindDistinct(flipped, i);
      FlipCompares(fields[i].value);
    }
    ObjectFacts(fields, flipped);
  }

  lemma ObjectFacts(fs: seq<Field>, gs: seq<Field>)
    requires |gs| == |fs| && forall i :: 0 <= i < |fs| ==> gs[i] == FlipField(fs[i])
    ensures Flip(Obj(fs)) == Obj(gs)
    ensures WellFormed(Obj(gs)) <==> WellFormedFields(gs)
    ensures Compares(Obj(fs), Obj(gs)) <==> forall i :: 0 <= i < |fs| ==> FieldCompares(fs[i], gs)
    ensures Equal(Obj(fs), Obj(gs)) <==> forall i :: 0 <= i < |fs| ==> FieldMatches(fs[i], gs)
    ensures ZeroFree(Obj(fs)) <==> forall i :: 0 <= i < |fs| ==> ZeroFreeField(fs[i])
  {
    hide *;
    FlipIs(fs, gs);
    WellFormedIs(gs);
    ComparesIs(fs, gs);
    EqualIs(fs, gs);
    ZeroFreeIs(fs);
  }

  lemma FlipIs(fs: seq<Field>, gs: seq<Field>)
    requires |gs| == |fs| && forall i :: 0 <= i < |fs| ==> gs[i] == FlipField(fs[i])
    ensures Flip(Obj(fs)) == Obj(gs)
  {
    hide FlipField;
    assert Flip(Obj(fs)).fields == gs;
  }

  lemma WellFormedIs(gs: seq<Field>)
    ensures WellFormed(Obj(gs)) <==> WellFormedFields(gs)
  {
    hide WellFormedFields;
  }

  lemma ComparesIs(fs: seq<Field>, gs: seq<Field>)
    ensures Compares(Obj(fs), Obj(gs)) <==> |fs| == |gs| && forall i :: 0 <= i < |fs| ==> FieldCompares(fs[i], gs)
  {
    hide FieldCompares;
  }

  lemma EqualIs(fs: seq<Field>, gs: seq<Field>)
    ensures Equal(Obj(fs), Obj(gs)) <==> |fs| == |gs| && forall i :: 0 <= i < |fs| ==> FieldMatches(fs[i], gs)
  {
    hide FieldMatches;
  }

  lemma ZeroFreeIs(fs: seq<Field>)
    ensures ZeroFree(Obj(fs)) <==> forall i :: 0 <= i < |fs| ==> ZeroFreeField(fs[i])
  {
    hide ZeroFreeField;
  }

  /** Without float zeros the two equalities are one. */
  lemma {:induction false} ComparesEqual(a: Value, b: Value)
    requires ZeroFree(a) && Compares(a, b)
    ensures Equal(a, b)
    decreases a
  {
    match (a, b)
    case (Arr(xs), Arr(ys)) =>
      forall i | 0 <= i < |xs| ensures Equal(xs[i], ys[i]) { ComparesEqual(xs[i], ys[i]); }
    case (Obj(fs), Obj(gs)) =>
      forall i | 0 <= i < |fs| ensures FieldMatches(fs[i], gs) {
        assert FieldCompares(fs[i], gs) && ZeroFreeField(fs[i]);
        ComparesEqual(fs[i].value, gs[Find(gs, fs[i].key)].value);
      }
    case _ =>
  }

  lemma {:induction false} EqualCompares(a: Value, b: Value)
    requires Equal(a, b)
    ensures Compares(a, b)
    decreases a
  {
    match (a, b)
    case (Arr(xs), Arr(ys)) =>
      forall i | 0 <= i < |xs| ensures Compares(xs[i], ys[i]) { EqualCompares(xs[i], ys[i]); }
    case (Obj(fs), Obj(gs)) =>
      forall i | 0 <= i < |fs| ensures FieldCompares(fs[i], gs) {
        assert FieldMatches(fs[i], gs);
        EqualCompares(fs[i].value, gs[Find(gs, fs[i].key)].value);
      }
    case _ =>
  }

  /** The documented "objects that compare equal always produce the same key" holds
      of a value exactly when it holds no float zero. */
  lemma SameKeyWhenEqual(a: Value)
    requires WellFormed(a)
    ensures (forall b :: WellFormed(b) && Compares(a, b) ==> Key(a) == Key(b)) <==> ZeroFree(a)
  {
    hide Compares, ZeroFree, WellFormed, Equal, Key, Flip;
    if ZeroFree(a) {
      forall b | WellFormed(b) && Compares(a, b) ensures Key(a) == Key(b) {
        ComparesEqual(a, b);
        KeyCanonical(a, b);
      }
    } else {
      FlipCompares(a);
      KeyCanonical(a, Flip(a));
    }
  }

  /** Values with one key always compare equal. */
  lemma SameKeyCompares(a: Value, b: Value)
    requires WellFormed(a) && WellFormed(b) && Key(a) == Key(b)
    ensures Compares(a, b)
  {
    hide Compares, Equal, Key;
    KeyCanonical(a, b);
    EqualCompares(a, b);
  }

  /** Two values that compare equal under different keys. */
  lemma ZerosHaveTwoKeys()
    ensures Compares(Num(Float("0.0")), Num(Float("-0.0")))
    ensures Key(Num(Float("0.0"))) != Key(Num(Float("-0.0")))
  {
  }
}
