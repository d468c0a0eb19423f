/** JSON values as the program holds them (objects keep insertion order, keys are
    unique) and their compact text, whose printer is shown injective. */
module Json {
  import Decimal
  import opened Outcomes

  const U64_LIMIT := 0x1_0000_0000_0000_0000
  const I64_LIMIT := 0x8000_0000_0000_0000

  /** A float is held as its shortest round-trip text, which determines it. */
  datatype Number = PosInt(n: nat) | NegInt(i: int) | Float(text: string)

  datatype Field = Field(key: string, value: Value)

  datatype Value =
    | Null
    | Bool(b: bool)
    | Num(num: Number)
    | Str(s: string)
    | Arr(items: seq<Value>)
    | Obj(fields: seq<Field>)

  predicate NumChar(c: char) {
    Decimal.IsDigit(c) || c == '-' || c == '+' || c == '.' || c == 'e' || c == 'E'
  }

  predicate ValidNumber(num: Number) {
    match num
    case PosInt(n) => n < U64_LIMIT
    case NegInt(i) => -I64_LIMIT <= i < 0
    case Float(text) =>
      && text != []
      && (Decimal.IsDigit(text[0]) || text[0] == '-')
      && (forall i :: 0 <= i < |text| ==> NumChar(text[i]))
      && (exists i :: 0 <= i < |text| && (text[i] == '.' || text[i] == 'e'))
  }

  ghost predicate DistinctKeys(fields: seq<Field>) {
    forall i, j :: 0 <= i < j < |fields| ==> fields[i].key != fields[j].key
  }

  /** What every value the program can hold satisfies: numbers in range, object
      keys unique at every depth. */
  ghost predicate WellFormed(v: Value) {
    match v
    case Num(num) => ValidNumber(num)
    case Arr(items) => forall i :: 0 <= i < |items| ==> WellFormed(items[i])
    case Obj(fields) => WellFormedFields(fields)
    case _ => true
  }

  ghost predicate WellFormedFields(fields: seq<Field>) {
    && DistinctKeys(fields)
    && forall i :: 0 <= i < |fields| ==> WellFormed(fields[i].value)
  }

  // ── Fields ─────────────────────────────────────────────────────────────────

  function Keys(fields: seq<Field>): (r: seq<string>)
    ensures |r| == |fields|
    ensures forall i :: 0 <= i < |fields| ==> r[i] == fields[i].key
  {
    seq(|fields|, i requires 0 <= i < |fields| => fields[i].key)
  }

  /** The position of `key`, or the length when it is absent. */
  function Find(fields: seq<Field>, key: string): (i: nat)
    ensures i <= |fields|
    ensures i < |fields| ==> fields[i].key == key
    ensures i == |fields| ==> forall j :: 0 <= j < |fields| ==> fields[j].key != key
  {
    if fields == [] then 0
    else if fields[0].key == key then 0
    else 1 + Find(fields[1..], key)
  }

  function HasKey(fields: seq<Field>, key: string): bool {
    Find(fields, key) < |fields|
  }

  function Get(fields: seq<Field>, key: string): Option<Value> {
    var i := Find(fields, key);
    if i < |fields| then Some(fields[i].value) else None
  }

  /** `Map::remove` with preserved order: the last field takes the freed place. */
  function Remove(fields: seq<Field>, key: string): seq<Field> {
    var i, n := Find(fields, key), |fields|;
    if i == n then fields
    else if i == n - 1 then fields[..i]
    else fields[i := fields[n - 1]][..n - 1]
  }

  function WithoutKey(v: Value, key: string): Value {
    if v.Obj? then Obj(Remove(v.fields, key)) else v
  }

  lemma WithoutKeyWellFormed(v: Value, key: string)
    requires WellFormed(v)
    ensures WellFormed(WithoutKey(v, key))
  {
  }

  lemma RemoveMember(fields: seq<Field>, key: string, f: Field)
    requires DistinctKeys(fields)
    ensures f in Remove(fields, key) <==> f in fields && f.key != key
  {
    var i, n, r := Find(fields, key), |fields|, Remove(fields, key);
    if f in fields && f.key != key {
      var j :| 0 <= j < n && fields[j] == f;
      assert if i < n && j == n - 1 then r[i] == f else r[j] == f;
    }
  }

  lemma RemoveDistinct(fields: seq<Field>, key: string)
    requires DistinctKeys(fields)
    ensures DistinctKeys(Remove(fields, key))
  {
  }

  lemma FindDistinct(fields: seq<Field>, i: nat)
    requires i < |fields| && DistinctKeys(fields)
    ensures Find(fields, fields[i].key) == i
  {
  }

  // ── Printing (serde_json's compact form) ───────────────────────────────────

  function Hex(d: nat): char
    requires d < 16
  {
    if d < 10 then ('0' as int + d) as char else ('a' as int + d - 10) as char
  }

  /** String escapes of section 7 of RFC 8259, as serde_json chooses them. */
  function EscapeChar(c: char): string {
    if c == '\"' then "\\\""
    else if c == '\\' then "\\\\"
    else if c == '\n' then "\\n"
    else if c == '\r' then "\\r"
    else if c == '\t' then "\\t"
    else if c as int == 8 then "\\b"
    else if c as int == 12 then "\\f"
    else if c as int < 32 then "\\u00" + [Hex(c as int / 16), Hex(c as int % 16)]
    else [c]
  }

  function Escape(s: string): string {
    if s == [] then [] else EscapeChar(s[0]) + Escape(s[1..])
  }

  function Quote(s: string): string {
    "\"" + (Escape(s) + "\"")
  }

  function PrintNumber(num: Number): string {
    match num
    case PosInt(n) => Decimal.Print(n)
    case NegInt(i) => "-" + Decimal.Print(if i < 0 then -i else i)
    case Float(text) => text
  }

  /** `serde_json::to_string`: fields in insertion order, no spaces. */
  function Print(v: Value): string {
    match v
    case Null => "null"
    case Bool(b) => if b then "true" else "false"
    case Num(num) => PrintNumber(num)
    case Str(s) => Quote(s)
    case Arr(items) =>
      if items == [] then "[]" else "[" + (Print(items[0]) + PrintItems(items[1..]))
    case Obj(fields) =>
      if fields == [] then "{}" else "{" + (PrintField(fields[0]) + PrintFields(fields[1..]))
  }

  /** The rest of an array after its first item. */
  function PrintItems(items: seq<Value>): string {
    if items == [] then "]" else "," + (Print(items[0]) + PrintItems(items[1..]))
  }

  function PrintField(f: Field): string {
    Quote(f.key) + (":" + Print(f.value))
  }

  /** The rest of an object after its first field. */
  function PrintFields(fields: seq<Field>): string {
    if fields == [] then "}" else "," + (PrintField(fields[0]) + PrintFields(fields[1..]))
  }

  // ── Self-delimiting parts ──────────────────────────────────────────────────

  lemma Cancel(p: string, a: string, b: string)
    requires p + a == p + b
    ensures a == b
  {
    assert a == (p + a)[|p|..] == b;
  }

  lemma Reassociate(a: string, b: string, c: string)
    ensures (a + b) + c == a + (b + c)
  {
  }

  lemma EscapeCharPrefixFree(c: char, d: char, r: string, t: string)
    requires EscapeChar(c) + r == EscapeChar(d) + t
    ensures c == d && r == t
  {
    var e, f := EscapeChar(c), EscapeChar(d);
    assert e[0] == (e + r)[0] == f[0];
    if e[0] == '\\' {
      assert e[1] == (e + r)[1] == f[1];
      if e[1] == 'u' {
        assert e[4] == (e + r)[4] == f[4];
        assert e[5] == (e + r)[5] == f[5];
      }
    }
    Cancel(e, r, t);
  }

  /** Escaped text never starts with the closing quote. */
  lemma EscapeEnds(a: string, r: string)
    ensures var s := Escape(a) + ("\"" + r);
            && (s[0] == '\"' <==> a == [])
            && (a == [] ==> s == "\"" + r)
  {
    if a != [] {
      var e := EscapeChar(a[0]);
      assert (Escape(a) + ("\"" + r))[0] == e[0];
    }
  }

  lemma {:induction false} EscapeInjective(a: string, b: string, r: string, t: string)
    requires Escape(a) + ("\"" + r) == Escape(b) + ("\"" + t)
    ensures a == b && r == t
  {
    EscapeEnds(a, r);
    EscapeEnds(b, t);
    if a == [] {
      Cancel("\"", r, t);
    } else {
      Reassociate(EscapeChar(a[0]), Escape(a[1..]), "\"" + r);
      Reassociate(EscapeChar(b[0]), Escape(b[1..]), "\"" + t);
      EscapeCharPrefixFree(a[0], b[0], Escape(a[1..]) + ("\"" + r), Escape(b[1..]) + ("\"" + t));
      EscapeInjective(a[1..], b[1..], r, t);
      assert a == [a[0]] + a[1..] && b == [b[0]] + b[1..];
    }
  }

  lemma QuoteInjective(a: string, b: string, r: string, t: string)
    requires Quote(a) + r == Quote(b) + t
    ensures a == b && r == t
  {
    hide Escape;
    Unwrap("\"", Escape(a), "\"", r);
    Unwrap("\"", Escape(b), "\"", t);
    Cancel("\"", Escape(a) + ("\"" + r), Escape(b) + ("\"" + t));
    EscapeInjective(a, b, r, t);
  }

  /** What may come after a value: nothing, or a character no number continues with. */
  predicate Follow(r: string) {
    r == [] || !NumChar(r[0])
  }

  lemma NumTextNotShorter(a: string, b: string, r: string, t: string)
    requires a + r == b + t && Follow(r)
    requires forall i :: 0 <= i < |b| ==> NumChar(b[i])
    ensures |a| >= |b|
  {
    assert |a| < |a + r| ==> (a + r)[|a|] == r[0];
  }

  lemma NumTextDelimited(a: string, b: string, r: string, t: string)
    requires a + r == b + t && Follow(r) && Follow(t)
    requires forall i :: 0 <= i < |a| ==> NumChar(a[i])
    requires forall i :: 0 <= i < |b| ==> NumChar(b[i])
    ensures a == b && r == t
  {
    NumTextNotShorter(a, b, r, t);
    NumTextNotShorter(b, a, t, r);
    assert a == (a + r)[..|a|] == b;
    Cancel(a, r, t);
  }

  lemma NumberText(num: Number)
    requires ValidNumber(num)
    ensures var s := PrintNumber(num);
            && s != [] && (Decimal.IsDigit(s[0]) || s[0] == '-')
            && (forall i :: 0 <= i < |s| ==> NumChar(s[i]))
            && (num.PosInt? ==> s[0] != '-')
            && (num.NegInt? ==> s[0] == '-')
    ensures num.Float? <==>
            exists i :: 0 <= i < |PrintNumber(num)| && (PrintNumber(num)[i] == '.' || PrintNumber(num)[i] == 'e')
  {
    if num.NegInt? {
      var d := Decimal.Print(-num.i);
      assert forall i :: 1 <= i < |PrintNumber(num)| ==> PrintNumber(num)[i] == d[i - 1];
    }
  }

  lemma NumberInjective(a: Number, b: Number)
    requires ValidNumber(a) && ValidNumber(b) && PrintNumber(a) == PrintNumber(b)
    ensures a == b
  {
    NumberText(a);
    NumberText(b);
    if a.PosInt? && b.PosInt? {
      Decimal.PrintInjective(a.n, b.n);
    } else if a.NegInt? && b.NegInt? {
      Cancel("-", Decimal.Print(-a.i), Decimal.Print(-b.i));
      Decimal.PrintInjective(-a.i, -b.i);
    }
  }

  // ── The printer is injective and self-delimiting ───────────────────────────

  /** The first character of a value's text tells which kind of value it is. */
  lemma PrintHead(v: Value)
    requires WellFormed(v)
    ensures Print(v) != []
    ensures match v
            case Null => Print(v)[0] == 'n'
            case Bool(b) => Print(v)[0] == if b then 't' else 'f'
            case Num(_) => Decimal.IsDigit(Print(v)[0]) || Print(v)[0] == '-'
            case Str(_) => Print(v)[0] == '\"'
            case Arr(_) => Print(v)[0] == '['
            case Obj(_) => Print(v)[0] == '{'
  {
    if v.Num? { NumberText(v.num); }
  }

  lemma SameKind(a: Value, b: Value, r: string, t: string)
    requires WellFormed(a) && WellFormed(b) && Print(a) + r == Print(b) + t
    ensures a.Null? <==> b.Null?
    ensures a.Bool? <==> b.Bool?
    ensures a.Num? <==> b.Num?
    ensures a.Str? <==> b.Str?
    ensures a.Arr? <==> b.Arr?
    ensures a.Obj? <==> b.Obj?
    ensures a.Bool? ==> a == b
  {
    PrintHead(a);
    PrintHead(b);
    assert Print(a)[0] == (Print(a) + r)[0] == Print(b)[0];
  }

  lemma {:induction false} PrintInjective(a: Value, b: Value, r: string, t: string)
    requires WellFormed(a) && WellFormed(b) && Follow(r) && Follow(t)
    requires Print(a) + r == Print(b) + t
    ensures a == b && r == t
    decreases a, 1
  {
    SameKind(a, b, r, t);
    match a
    case Null => Cancel("null", r, t);
    case Bool(_) => Cancel(Print(a), r, t);
    case Num(num) =>
      NumberText(num);
      NumberText(b.num);
      NumTextDelimited(PrintNumber(num), PrintNumber(b.num), r, t);
      NumberInjective(num, b.num);
    case Str(s) => QuoteInjective(s, b.s, r, t);
    case Arr(items) => ArrayInjective(items, b.items, r, t);
    case Obj(fields) => ObjectInjective(fields, b.fields, r, t);
  }

  lemma {:induction false} ArrayInjective(xs: seq<Value>, ys: seq<Value>, r: string, t: string)
    requires WellFormed(Arr(xs)) && WellFormed(Arr(ys)) && Follow(r) && Follow(t)
    requires Print(Arr(xs)) + r == Print(Arr(ys)) + t
    ensures xs == ys && r == t
    decreases xs, 1
  {
    EmptyArrayText(xs, r);
    EmptyArrayText(ys, t);
    if xs == [] {
      Cancel("[]", r, t);
    } else {
      var p, q := PrintItems(xs[1..]), PrintItems(ys[1..]);
      Unwrap("[", Print(xs[0]), p, r);
      Unwrap("[", Print(ys[0]), q, t);
      Cancel("[", Print(xs[0]) + (p + r), Print(ys[0]) + (q + t));
      ItemsFollow(xs[1..], r);
      ItemsFollow(ys[1..], t);
      PrintInjective(xs[0], ys[0], p + r, q + t);
      ItemsInjective(xs[1..], ys[1..], r, t);
      assert xs == [xs[0]] + xs[1..] && ys == [ys[0]] + ys[1..];
    }
  }

  lemma EmptyArrayText(items: seq<Value>, r: string)
    requires WellFormed(Arr(items))
    ensures |Print(Arr(items))| >= 2
    ensures (Print(Arr(items)) + r)[1] == ']' <==> items == []
  {
    if items != [] {
      PrintHead(items[0]);
      assert (Print(Arr(items)) + r)[1] == Print(items[0])[0];
    }
  }

  lemma EmptyObjectText(fields: seq<Field>, r: string)
    ensures |Print(Obj(fields))| >= 2
    ensures (Print(Obj(fields)) + r)[1] == '}' <==> fields == []
  {
    if fields != [] {
      assert (Print(Obj(fields)) + r)[1] == PrintField(fields[0])[0] == '\"';
    }
  }

  lemma Unwrap(open: string, x: string, rest: string, r: string)
    ensures (open + (x + rest)) + r == open + (x + (rest + r))
  {
  }

  lemma ItemsFollow(items: seq<Value>, r: string)
    ensures Follow(PrintItems(items) + r)
    ensures (PrintItems(items) + r)[0] == if items == [] then ']' else ','
  {
  }

  lemma {:induction false} ItemsInjective(xs: seq<Value>, ys: seq<Value>, r: string, t: string)
    requires WellFormed(Arr(xs)) && WellFormed(Arr(ys)) && Follow(r) && Follow(t)
    requires PrintItems(xs) + r == PrintItems(ys) + t
    ensures xs == ys && r == t
    decreases xs, 0
  {
    hide Print, Follow;
    ItemsFollow(xs, r);
    ItemsFollow(ys, t);
    if xs == [] {
      Cancel("]", r, t);
    } else {
      var p, q := PrintItems(xs[1..]), PrintItems(ys[1..]);
      Unwrap(",", Print(xs[0]), p, r);
      Unwrap(",", Print(ys[0]), q, t);
      Cancel(",", Print(xs[0]) + (p + r), Print(ys[0]) + (q + t));
      ItemsFollow(xs[1..], r);
      ItemsFollow(ys[1..], t);
      PrintInjective(xs[0], ys[0], p + r, q + t);
      ItemsInjective(xs[1..], ys[1..], r, t);
      assert xs == [xs[0]] + xs[1..] && ys == [ys[0]] + ys[1..];
    }
  }

  lemma FieldsFollow(fields: seq<Field>, r: string)
    ensures Follow(PrintFields(fields) + r)
    ensures (PrintFields(fields) + r)[0] == if fields == [] then '}' else ','
  {
  }

  lemma {:induction false} FieldInjective(f: Field, g: Field, r: string, t: string)
    requires WellFormed(f.value) && WellFormed(g.value) && Follow(r) && Follow(t)
    requires PrintField(f) + r == PrintField(g) + t
    ensures f == g && r == t
    decreases f, 2
  {
    Field3(Quote(f.key), Print(f.value), r);
    Field3(Quote(g.key), Print(g.value), t);
    QuoteInjective(f.key, g.key, ":" + (Print(f.value) + r), ":" + (Print(g.value) + t));
    Cancel(":", Print(f.value) + r, Print(g.value) + t);
    PrintInjective(f.value, g.value, r, t);
  }

  lemma Field3(k: string, v: string, r: string)
    ensures (k + (":" + v)) + r == k + (":" + (v + r))
  {
  }

  lemma {:induction false} FieldsInjective(fs: seq<Field>, gs: seq<Field>, r: string, t: string)
    requires WellFormedFields(fs) && WellFormedFields(gs) && Follow(r) && Follow(t)
    requires PrintFields(fs) + r == PrintFields(gs) + t
    ensures fs == gs && r == t
    decreases fs, 0
  {
    hide PrintField, Follow;
    FieldsFollow(fs, r);
    FieldsFollow(gs, t);
    if fs == [] {
      Cancel("}", r, t);
    } else {
      var p, q := PrintFields(fs[1..]), PrintFields(gs[1..]);
      Unwrap(",", PrintField(fs[0]), p, r);
      Unwrap(",", PrintField(gs[0]), q, t);
      Cancel(",", PrintField(fs[0]) + (p + r), PrintField(gs[0]) + (q + t));
      FieldsFollow(fs[1..], r);
      FieldsFollow(gs[1..], t);
      FieldInjective(fs[0], gs[0], p + r, q + t);
      FieldsInjective(fs[1..], gs[1..], r, t);
      assert fs == [fs[0]] + fs[1..] && gs == [gs[0]] + gs[1..];
    }
  }

  lemma {:induction false} ObjectInjective(fs: seq<Field>, gs: seq<Field>, r: string, t: string)
    requires WellFormedFields(fs) && WellFormedFields(gs) && Follow(r) && Follow(t)
    requires Print(Obj(fs)) + r == Print(Obj(gs)) + t
    ensures fs == gs && r == t
    decreases fs, 1
  {
    hide PrintField, Follow;
    EmptyObjectText(fs, r);
    EmptyObjectText(gs, t);
    if fs == [] {
      Cancel("{}", r, t);
    } else {
      var p, q := PrintFields(fs[1..]), PrintFields(gs[1..]);
      Unwrap("{", PrintField(fs[0]), p, r);
      Unwrap("{", PrintField(gs[0]), q, t);
      Cancel("{", PrintField(fs[0]) + (p + r), PrintField(gs[0]) + (q + t));
      FieldsFollow(fs[1..], r);
      FieldsFollow(gs[1..], t);
      FieldInjective(fs[0], gs[0], p + r, q + t);
      FieldsInjective(fs[1..], gs[1..], r, t);
      assert fs == [fs[0]] + fs[1..] && gs == [gs[0]] + gs[1..];
    }
  }

  /** Equal texts, equal values. */
  lemma SameText(a: Value, b: Value)
    requires WellFormed(a) && WellFormed(b)
    ensures Print(a) == Print(b) <==> a == b
  {
    if Print(a) == Print(b) {
      assert Print(a) + [] == Print(b) + [];
      PrintInjective(a, b, [], []);
    }
  }
}
