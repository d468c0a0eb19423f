/** Which rows write the same physical destination: configured and reported
    identities, and their pruned, cached resolution (cli/src/destination.rs). */
module Destination {
  import opened Json
  import opened Outcomes
  import opened Text

  /** An expanded row: its sink and its prerequisites. */
  datatype Row = Row(id: string, kind: string, config: Value, dependsOn: seq<string>, parent: Option<string>)

  /** What the program asks of code outside this file: whether a string carries a
      per-invocation token, the URI a built sink reports (`None` when it cannot be
      built), and credential redaction. All deterministic. */
  datatype Sinks = Sinks(deferred: string -> bool,
                         datasetUri: (string, Value) -> Option<string>,
                         redact: string -> string)

  /** Reported identities by row id. */
  type Identities = map<string, string>

  const NON_IDENTITY_KEYS: seq<string> := [
    "batch_size", "max_connections", "concurrency", "write_mode", "key", "delete_marker",
    "create_table", "column_mapping", "on_unknown_field", "timeout_secs", "batch_atomicity",
    "rollback", "scope", "_overwrite_staging", "_activate_version", "_overwrite_run"
  ]

  // ── Row predicates ─────────────────────────────────────────────────────────

  function ConfigGet(row: Row, key: string): Option<Value> {
    if row.config.Obj? then Get(row.config.fields, key) else None
  }

  predicate IsOverwrite(row: Row) {
    ConfigGet(row, "write_mode") == Some(Str("overwrite"))
  }

  predicate IsScoped(row: Row) {
    ConfigGet(row, "scope").Some? && !ConfigGet(row, "scope").value.Null?
  }

  predicate IsFullOverwrite(row: Row) {
    IsOverwrite(row) && !IsScoped(row)
  }

  predicate HasRuntimeToken(sinks: Sinks, v: Value) {
    match v
    case Str(s) => sinks.deferred(s)
    case Arr(items) => exists i :: 0 <= i < |items| && HasRuntimeToken(sinks, items[i])
    case Obj(fields) => exists i :: 0 <= i < |fields| && FieldHasToken(sinks, fields[i])
    case _ => false
  }

  predicate FieldHasToken(sinks: Sinks, f: Field) {
    HasRuntimeToken(sinks, f.value)
  }

  predicate TokenFree(sinks: Sinks, row: Row) {
    !HasRuntimeToken(sinks, row.config)
  }

  // ── Identities ─────────────────────────────────────────────────────────────

  function StripKeys(v: Value, keys: seq<string>): Value
    decreases keys
  {
    if keys == [] then v else StripKeys(WithoutKey(v, keys[0]), keys[1..])
  }

  /** Kind and config minus the keys that only tune how the sink writes. */
  function Identity(kind: string, config: Value): string {
    kind + ("\0" + Print(StripKeys(config, NON_IDENTITY_KEYS)))
  }

  function Key(sinks: Sinks, row: Row): Option<string> {
    if TokenFree(sinks, row) then Some(Identity(row.kind, row.config)) else None
  }

  function UriIdentity(sinks: Sinks, kind: string, uri: string): Option<string> {
    var u := TrimEnd(sinks.redact(Trim(uri, IsWhitespace)), c => c == '/');
    if u != "" && !EndsWith(u, "://unknown") then Some(kind + ("\0" + ("uri\0" + u))) else None
  }

  function Reported(sinks: Sinks, row: Row): Option<string> {
    match sinks.datasetUri(row.kind, row.config)
    case None => None
    case Some(uri) => UriIdentity(sinks, row.kind, uri)
  }

  /** Two rows write one destination: their configs say so, or both sinks report it. */
  predicate Same(sinks: Sinks, ids: Identities, a: Row, b: Row) {
    && Key(sinks, a).Some? && Key(sinks, b).Some?
    && (Key(sinks, a) == Key(sinks, b) || (a.id in ids && b.id in ids && ids[a.id] == ids[b.id]))
  }

  // ── Tagged texts ───────────────────────────────────────────────────────────

  predicate NulFree(s: string) {
    forall i :: 0 <= i < |s| ==> s[i] != '\0'
  }

  lemma TagNotLonger(k: string, s: string, l: string, t: string)
    requires k + ("\0" + s) == l + ("\0" + t) && NulFree(l)
    ensures |k| >= |l|
  {
    assert (k + ("\0" + s))[|k|] == '\0';
  }

  /** A kind without NUL is recovered from a text tagged with it. */
  lemma TagInjective(k: string, s: string, l: string, t: string)
    requires k + ("\0" + s) == l + ("\0" + t) && NulFree(k) && NulFree(l)
    ensures k == l && s == t
  {
    TagNotLonger(k, s, l, t);
    TagNotLonger(l, t, k, s);
    assert k == (k + ("\0" + s))[..|k|] == l;
    Cancel(k, "\0" + s, "\0" + t);
    Cancel("\0", s, t);
  }

  /** Equal reported identities force equal kinds. */
  lemma ReportedTagged(sinks: Sinks, a: Row, b: Row)
    requires NulFree(a.kind) && NulFree(b.kind)
    requires Reported(sinks, a).Some? && Reported(sinks, a) == Reported(sinks, b)
    ensures a.kind == b.kind
  {
    var ua := TrimEnd(sinks.redact(Trim(sinks.datasetUri(a.kind, a.config).value, IsWhitespace)), c => c == '/');
    var ub := TrimEnd(sinks.redact(Trim(sinks.datasetUri(b.kind, b.config).value, IsWhitespace)), c => c == '/');
    assert exists u :: Reported(sinks, a).value == a.kind + ("\0" + ("uri\0" + u));
    assert exists u :: Reported(sinks, b).value == b.kind + ("\0" + ("uri\0" + u));
    var x :| Reported(sinks, a).value == a.kind + ("\0" + ("uri\0" + x));
    var y :| Reported(sinks, b).value == b.kind + ("\0" + ("uri\0" + y));
    TagInjective(a.kind, "uri\0" + x, b.kind, "uri\0" + y);
  }

  lemma {:induction false} StripWellFormed(v: Value, keys: seq<string>)
    requires WellFormed(v)
    ensures WellFormed(StripKeys(v, keys))
    decreases keys
  {
    hide WellFormed;
    if keys != [] {
      WithoutKeyWellFormed(v, keys[0]);
      StripWellFormed(WithoutKey(v, keys[0]), keys[1..]);
    }
  }

  /** The config identity is exactly the kind and what is left of the config. */
  lemma IdentityExact(a: Row, b: Row)
    requires NulFree(a.kind) && NulFree(b.kind) && WellFormed(a.config) && WellFormed(b.config)
    ensures Identity(a.kind, a.config) == Identity(b.kind, b.config) <==>
            a.kind == b.kind && StripKeys(a.config, NON_IDENTITY_KEYS) == StripKeys(b.config, NON_IDENTITY_KEYS)
  {
    hide WellFormed, StripKeys, Print;
    var x, y := StripKeys(a.config, NON_IDENTITY_KEYS), StripKeys(b.config, NON_IDENTITY_KEYS);
    StripWellFormed(a.config, NON_IDENTITY_KEYS);
    StripWellFormed(b.config, NON_IDENTITY_KEYS);
    SameText(x, y);
    if Identity(a.kind, a.config) == Identity(b.kind, b.config) {
      TagInjective(a.kind, Print(x), b.kind, Print(y));
    }
  }
}
