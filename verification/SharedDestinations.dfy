/** When two rows write one destination, read off their configs and what their sinks
    report (cli/src/destination.rs). */
module SharedDestinations {
  import opened Json
  import opened Outcomes
  import opened Text
  import opened Destination
  import opened IdentityResolution

  // ── Rows that replace a whole destination ──────────────────────────────────

  /** `write_mode: overwrite`, and no `scope` but null. */
  lemma FullOverwriteIs(row: Row)
    requires WellFormed(row.config)
    ensures IsFullOverwrite(row) <==>
            && row.config.Obj? && Field("write_mode", Str("overwrite")) in row.config.fields
            && forall f :: f in row.config.fields && f.key == "scope" ==> f.value == Null
  {
    if row.config.Obj? {
      var fields := row.config.fields;
      ListedUnder(fields, "write_mode");
      ListedUnder(fields, "scope");
    }
  }

  /** The field under a key is the one `Get` finds. */
  lemma ListedUnder(fields: seq<Field>, key: string)
    requires DistinctKeys(fields)
    ensures forall f :: f in fields && f.key == key ==> Get(fields, key) == Some(f.value)
    ensures Get(fields, key).Some? ==> Field(key, Get(fields, key).value) in fields
  {
    forall f | f in fields && f.key == key ensures Get(fields, key) == Some(f.value) {
      var i :| 0 <= i < |fields| && fields[i] == f;
      FindDistinct(fields, i);
    }
  }

  // ── Configs that depend on the invocation ──────────────────────────────────

  /** `child` is an item or a field's value of `v`. */
  predicate Inside(v: Value, child: Value) {
    match v
    case Arr(items) => child in items
    case Obj(fields) => exists i :: 0 <= i < |fields| && fields[i].value == child
    case _ => false
  }

  /** `c` leads from its first value inwards. */
  ghost predicate Inwards(c: seq<Value>) {
    c != [] && forall i :: 0 < i < |c| ==> Inside(c[i - 1], c[i])
  }

  /** A config carries a token exactly when some string at some depth in it does. */
  lemma TokenInside(sinks: Sinks, v: Value)
    ensures HasRuntimeToken(sinks, v) <==>
            exists c: seq<Value> :: Inwards(c) && c[0] == v && c[|c| - 1].Str? && sinks.deferred(c[|c| - 1].s)
  {
    if HasRuntimeToken(sinks, v) {
      var c := TokenPath(sinks, v);
    }
    if exists c: seq<Value> :: Inwards(c) && c[0] == v && c[|c| - 1].Str? && sinks.deferred(c[|c| - 1].s) {
      var c: seq<Value> :| Inwards(c) && c[0] == v && c[|c| - 1].Str? && sinks.deferred(c[|c| - 1].s);
      TokenAlong(sinks, c);
    }
  }

  lemma {:induction false} TokenPath(sinks: Sinks, v: Value) returns (c: seq<Value>)
    requires HasRuntimeToken(sinks, v)
    ensures Inwards(c) && c[0] == v && c[|c| - 1].Str? && sinks.deferred(c[|c| - 1].s)
    decreases v
  {
    match v
    case Str(_) => c := [v];
    case Arr(items) =>
      var i :| 0 <= i < |items| && HasRuntimeToken(sinks, items[i]);
      var rest := TokenPath(sinks, items[i]);
      c := Further(v, rest);
    case Obj(fields) =>
      var i :| 0 <= i < |fields| && FieldHasToken(sinks, fields[i]);
      var rest := TokenPath(sinks, fields[i].value);
      c := Further(v, rest);
  }

  lemma Further(v: Value, rest: seq<Value>) returns (c: seq<Value>)
    requires Inwards(rest) && Inside(v, rest[0])
    ensures c == [v] + rest && Inwards(c)
  {
    hide Inside;
    c := [v] + rest;
    forall i | 0 < i < |c| ensures Inside(c[i - 1], c[i]) {
      if i > 1 { assert c[i - 1] == rest[i - 2] && c[i] == rest[i - 1]; }
    }
  }

  lemma {:induction false} TokenAlong(sinks: Sinks, c: seq<Value>)
    requires Inwards(c) && c[|c| - 1].Str? && sinks.deferred(c[|c| - 1].s)
    ensures HasRuntimeToken(sinks, c[0])
    decreases |c|
  {
    if |c| > 1 {
      var rest := c[1..];
      assert Inwards(rest) by {
        forall i | 0 < i < |rest| ensures Inside(rest[i - 1], rest[i]) {
          assert rest[i - 1] == c[i] && rest[i] == c[i + 1];
        }
      }
      TokenAlong(sinks, rest);
      assert Inside(c[1 - 1], c[1]);
      match c[0]
      case Arr(items) =>
        var i :| 0 <= i < |items| && items[i] == c[1];
      case Obj(fields) =>
        var i :| 0 <= i < |fields| && fields[i].value == c[1];
        assert FieldHasToken(sinks, fields[i]);
    }
  }

  // ── What a sink reports ────────────────────────────────────────────────────

  /** The destination a row's sink names: its URI without surrounding whitespace,
      credentials and trailing slashes. */
  ghost predicate Names(sinks: Sinks, row: Row, u: string) {
    && sinks.datasetUri(row.kind, row.config).Some?
    && exists t, slashes ::
         && Bare(sinks.datasetUri(row.kind, row.config).value, IsWhitespace, t)
         && sinks.redact(t) == u + slashes && All(slashes, c => c == '/')
         && (u == "" || u[|u| - 1] != '/')
  }

  /** A sink that can be built reports nothing exactly when it names nothing, or the
      default `<name>://unknown`; else what it names, under its kind. */
  lemma ReportedNames(sinks: Sinks, row: Row)
    ensures sinks.datasetUri(row.kind, row.config).None? ==> Reported(sinks, row).None?
    ensures sinks.datasetUri(row.kind, row.config).Some? ==>
              exists u :: Names(sinks, row, u)
                && Reported(sinks, row)
                   == if u == "" || EndsWith(u, "://unknown") then None else Some(row.kind + ("\0uri\0" + u))
  {
    hide Trim, TrimEnd, IsWhitespace, EndsWith;
    if sinks.datasetUri(row.kind, row.config).Some? {
      var uri := sinks.datasetUri(row.kind, row.config).value;
      TrimIsBare(uri, IsWhitespace);
      var t := Trim(uri, IsWhitespace);
      var u := TrimEnd(sinks.redact(t), c => c == '/');
      var slashes := TrimmedEnd(sinks.redact(t), c => c == '/');
      assert Names(sinks, row, u);
      Tagged(u);
      assert row.kind + ("\0" + ("uri\0" + u)) == row.kind + ("\0uri\0" + u);
    }
  }

  /** Rows of one kind whose sinks name one destination report the same, spelled with
      or without credentials, surrounding whitespace and trailing slashes. */
  lemma SameNamesReport(sinks: Sinks, a: Row, b: Row, u: string)
    requires a.kind == b.kind && Names(sinks, a, u) && Names(sinks, b, u)
    ensures Reported(sinks, a) == Reported(sinks, b)
    ensures Reported(sinks, a).Some? <==> u != "" && !EndsWith(u, "://unknown")
  {
    hide Names, Reported, EndsWith;
    ReportedNames(sinks, a);
    ReportedNames(sinks, b);
    forall v | Names(sinks, a, v) ensures v == u { NamesUnique(sinks, a, u, v); }
    forall v | Names(sinks, b, v) ensures v == u { NamesUnique(sinks, b, u, v); }
    NamesBuilt(sinks, a, u);
    NamesBuilt(sinks, b, u);
  }

  lemma NamesBuilt(sinks: Sinks, row: Row, u: string)
    requires Names(sinks, row, u)
    ensures sinks.datasetUri(row.kind, row.config).Some?
  {
  }

  lemma NamesUnique(sinks: Sinks, row: Row, u: string, v: string)
    requires Names(sinks, row, u) && Names(sinks, row, v)
    ensures u == v
  {
    NamesIs(sinks, row, u);
    NamesIs(sinks, row, v);
  }

  lemma NamesIs(sinks: Sinks, row: Row, u: string)
    requires Names(sinks, row, u)
    ensures u == TrimEnd(sinks.redact(Trim(sinks.datasetUri(row.kind, row.config).value, IsWhitespace)), c => c == '/')
  {
    hide Bare, IsWhitespace, Trim, TrimEnd;
    var t, slashes :|
      && Bare(sinks.datasetUri(row.kind, row.config).value, IsWhitespace, t)
      && sinks.redact(t) == u + slashes && All(slashes, c => c == '/')
      && (u == "" || u[|u| - 1] != '/');
    BareIsTrim(sinks.datasetUri(row.kind, row.config).value, IsWhitespace, t);
    EndDropped(u, slashes, c => c == '/');
  }

  lemma Tagged(u: string)
    ensures "\0" + ("uri\0" + u) == "\0uri\0" + u
  {
  }

  // ── One destination ────────────────────────────────────────────────────────

  /** Neither config depends on the invocation, and the two agree apart from how the
      sink writes, or both sinks report the same destination. */
  ghost predicate OneDestination(sinks: Sinks, a: Row, b: Row) {
    && !HasRuntimeToken(sinks, a.config) && !HasRuntimeToken(sinks, b.config)
    && (|| (a.kind == b.kind
            && StripKeys(a.config, NON_IDENTITY_KEYS) == StripKeys(b.config, NON_IDENTITY_KEYS))
        || (Reported(sinks, a).Some? && Reported(sinks, a) == Reported(sinks, b)))
  }

  /** With every token-free sink asked, two rows count as writing the same destination
      exactly when they write one. */
  lemma SameWithAll(sinks: Sinks, rows: seq<Row>, full: Identities, i: nat, j: nat)
    requires ValidRows(rows) && i < |rows| && j < |rows|
    requires Resolved(sinks, rows, AskAll(sinks), full, |rows|)
    ensures Same(sinks, full, rows[i], rows[j]) <==> OneDestination(sinks, rows[i], rows[j])
  {
    hide Reported, Identity, HasRuntimeToken, StripKeys, WellFormed, NulFree;
    var a, b := rows[i], rows[j];
    IdentityExact(a, b);
    assert AskAll(sinks)(a) == TokenFree(sinks, a) && AskAll(sinks)(b) == TokenFree(sinks, b);
  }

  /** So it is with the pruned and cached resolution, for a relevant row and any other. */
  lemma SameIsOneDestination(sinks: Sinks, rows: seq<Row>, relevant: Row -> bool, ids: Identities, i: nat, j: nat)
    requires ValidRows(rows) && i < |rows| && j < |rows| && i != j && relevant(rows[i])
    requires Resolved(sinks, rows, AskedBy(sinks, rows, relevant), ids, |rows|)
    ensures Same(sinks, ids, rows[i], rows[j]) <==> OneDestination(sinks, rows[i], rows[j])
  {
    hide Same, OneDestination, Resolved;
    var full := ResolvedExists(sinks, rows, AskAll(sinks), |rows|);
    PruningLosesNothing(sinks, rows, relevant, ids, full, i, j);
    SameWithAll(sinks, rows, full, i, j);
  }
}
