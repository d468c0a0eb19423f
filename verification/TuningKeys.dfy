/** What the tuning keys of a sink config do to its identity (cli/src/destination.rs
    `identity`). They are removed one by one, and each removal moves the last field
    into the freed place, so the identity depends on the keys' layout. */
module TuningKeys {
  import opened Json
  import opened Merge
  import opened Outcomes
  import opened Destination

  // ── Which fields survive, and in which order ───────────────────────────────

  /** The fields left of an object config. */
  function Stripped(fields: seq<Field>, keys: seq<string>): seq<Field>
    decreases keys
  {
    if keys == [] then fields else Stripped(Remove(fields, keys[0]), keys[1..])
  }

  lemma {:induction false} StrippedIs(fields: seq<Field>, keys: seq<string>)
    ensures StripKeys(Obj(fields), keys) == Obj(Stripped(fields, keys))
    decreases keys
  {
    if keys != [] { StrippedIs(Remove(fields, keys[0]), keys[1..]); }
  }

  /** Exactly the other fields survive, whatever the layout. */
  lemma {:induction false} StrippedMember(fields: seq<Field>, keys: seq<string>, f: Field)
    requires DistinctKeys(fields)
    ensures DistinctKeys(Stripped(fields, keys))
    ensures f in Stripped(fields, keys) <==> f in fields && f.key !in keys
    decreases keys
  {
    hide DistinctKeys, Remove;
    if keys != [] {
      RemoveMember(fields, keys[0], f);
      RemoveDistinct(fields, keys[0]);
      StrippedMember(Remove(fields, keys[0]), keys[1..], f);
    }
  }

  /** The first place of `key`, or the length. */
  function Place(names: seq<string>, key: string): (i: nat)
    ensures i <= |names|
  {
    if names == [] || names[0] == key then 0 else 1 + Place(names[1..], key)
  }

  /** One removal on the key names alone. */
  function Dropped(names: seq<string>, key: string): seq<string> {
    var i, n := Place(names, key), |names|;
    if i == n then names
    else if i == n - 1 then names[..i]
    else names[i := names[n - 1]][..n - 1]
  }

  /** The order in which the names that are not removed are left. */
  function Layout(names: seq<string>, keys: seq<string>): seq<string>
    decreases keys
  {
    if keys == [] then names else Layout(Dropped(names, keys[0]), keys[1..])
  }

  lemma {:induction false} PlaceFind(fields: seq<Field>, key: string)
    ensures Place(Keys(fields), key) == Find(fields, key)
  {
    if fields != [] {
      PlaceFind(fields[1..], key);
      assert Keys(fields)[1..] == Keys(fields[1..]);
    }
  }

  lemma DroppedRemove(fields: seq<Field>, key: string)
    ensures Keys(Remove(fields, key)) == Dropped(Keys(fields), key)
  {
    PlaceFind(fields, key);
  }

  lemma {:induction false} LayoutStripped(fields: seq<Field>, keys: seq<string>)
    ensures Keys(Stripped(fields, keys)) == Layout(Keys(fields), keys)
    decreases keys
  {
    hide Remove, Dropped;
    if keys != [] {
      DroppedRemove(fields, keys[0]);
      LayoutStripped(Remove(fields, keys[0]), keys[1..]);
    }
  }

  lemma SameNamesSameFields(x: seq<Field>, y: seq<Field>)
    requires DistinctKeys(y) && Keys(x) == Keys(y) && forall f :: f in x ==> f in y
    ensures x == y
  {
    assert |x| == |Keys(x)| == |y|;
    forall i | 0 <= i < |x| ensures x[i] == y[i] {
      assert x[i] in x;
      var j :| 0 <= j < |y| && y[j] == x[i];
      assert Keys(x)[i] == Keys(y)[i];
    }
  }

  /** The two configs hold the same fields apart from tuning keys. */
  ghost predicate SameOthers(a: seq<Field>, b: seq<Field>) {
    forall f: Field :: f.key !in NON_IDENTITY_KEYS ==> (f in a <==> f in b)
  }

  lemma StrippedEqual(a: seq<Field>, b: seq<Field>)
    requires DistinctKeys(a) && DistinctKeys(b)
    ensures Stripped(a, NON_IDENTITY_KEYS) == Stripped(b, NON_IDENTITY_KEYS) <==>
            SameOthers(a, b) && Layout(Keys(a), NON_IDENTITY_KEYS) == Layout(Keys(b), NON_IDENTITY_KEYS)
  {
    hide Stripped, Layout, DistinctKeys, Keys;
    var x, y := Stripped(a, NON_IDENTITY_KEYS), Stripped(b, NON_IDENTITY_KEYS);
    LayoutStripped(a, NON_IDENTITY_KEYS);
    LayoutStripped(b, NON_IDENTITY_KEYS);
    StrippedMember(b, NON_IDENTITY_KEYS, Field("", Null));
    forall f: Field
      ensures f in x <==> f in a && f.key !in NON_IDENTITY_KEYS
      ensures f in y <==> f in b && f.key !in NON_IDENTITY_KEYS
    {
      StrippedMember(a, NON_IDENTITY_KEYS, f);
      StrippedMember(b, NON_IDENTITY_KEYS, f);
    }
    if SameOthers(a, b) && Keys(x) == Keys(y) { SameNamesSameFields(x, y); }
  }

  lemma IdentityStripped(kind: string, a: seq<Field>, other: string, b: seq<Field>)
    requires NulFree(kind) && NulFree(other) && WellFormed(Obj(a)) && WellFormed(Obj(b))
    ensures Identity(kind, Obj(a)) == Identity(other, Obj(b)) <==>
            kind == other && Stripped(a, NON_IDENTITY_KEYS) == Stripped(b, NON_IDENTITY_KEYS)
  {
    hide StripKeys, Print, WellFormed, Stripped, Identity;
    IdentityExact(Row("a", kind, Obj(a), [], None), Row("b", other, Obj(b), [], None));
    StrippedIs(a, NON_IDENTITY_KEYS);
    StrippedIs(b, NON_IDENTITY_KEYS);
  }

  /** For any tuning keys on either side, two identities are equal exactly when the
      kinds are, the other fields are, and both key sequences are left in one order. */
  lemma IdentityByLayout(kind: string, a: seq<Field>, other: string, b: seq<Field>)
    requires NulFree(kind) && NulFree(other) && WellFormed(Obj(a)) && WellFormed(Obj(b))
    ensures Identity(kind, Obj(a)) == Identity(other, Obj(b)) <==>
            && kind == other
            && SameOthers(a, b)
            && Layout(Keys(a), NON_IDENTITY_KEYS) == Layout(Keys(b), NON_IDENTITY_KEYS)
  {
    hide Identity, Stripped, Layout;
    IdentityStripped(kind, a, other, b);
    StrippedEqual(a, b);
  }

  lemma SameOthersInPlace(a: seq<Field>, b: seq<Field>)
    requires DistinctKeys(a) && DistinctKeys(b) && Keys(a) == Keys(b)
    ensures SameOthers(a, b) <==> forall i :: 0 <= i < |a| && a[i].key !in NON_IDENTITY_KEYS ==> a[i] == b[i]
  {
    hide NON_IDENTITY_KEYS;
    assert |a| == |Keys(a)| == |b|;
    assert forall i :: 0 <= i < |a| ==> a[i].key == Keys(a)[i] == Keys(b)[i] == b[i].key;
    if SameOthers(a, b) {
      forall i | 0 <= i < |a| && a[i].key !in NON_IDENTITY_KEYS ensures a[i] == b[i] {
        assert a[i] in a;
        var j :| 0 <= j < |b| && b[j] == a[i];
      }
    }
  }

  /** Configs that write the same keys in the same order, as two rows of one template
      do, have one identity exactly when they agree at every key that is no tuning key. */
  lemma SameKeysSameIdentity(kind: string, a: seq<Field>, b: seq<Field>)
    requires NulFree(kind) && WellFormed(Obj(a)) && WellFormed(Obj(b)) && Keys(a) == Keys(b)
    ensures Identity(kind, Obj(a)) == Identity(kind, Obj(b)) <==>
            forall i :: 0 <= i < |a| && a[i].key !in NON_IDENTITY_KEYS ==> a[i] == b[i]
  {
    hide Identity, Layout, SameOthers, Keys;
    IdentityByLayout(kind, a, kind, b);
    SameOthersInPlace(a, b);
  }

  // ── Removing keys one after the other ──────────────────────────────────────

  lemma RemoveAppend(own: seq<Field>, tuning: seq<Field>, key: string)
    requires !HasKey(own, key)
    ensures Remove(own + tuning, key) == own + Remove(tuning, key)
  {
    FindAppend(own, tuning, key);
    var j, n := Find(tuning, key), |tuning|;
    hide Find;
    if j < n - 1 { SwapRemoved(own, tuning, j); } else if j == n - 1 { CutEnd(own, tuning, j); }
  }

  lemma SwapRemoved(own: seq<Field>, tuning: seq<Field>, j: nat)
    requires j < |tuning|
    ensures (own + tuning)[|own| + j := (own + tuning)[|own + tuning| - 1]][..|own + tuning| - 1]
         == own + tuning[j := tuning[|tuning| - 1]][..|tuning| - 1]
  {
  }

  lemma CutEnd(own: seq<Field>, tuning: seq<Field>, j: nat)
    requires j < |tuning|
    ensures (own + tuning)[..|own| + j] == own + tuning[..j]
  {
  }

  /** With at most one other field after the first tuning key, the identity is that
      of the other fields in their order. `late` is everything from that key on and
      `other` the field, if any, among them. */
  lemma {:induction false} StripLate(own: seq<Field>, late: seq<Field>, other: seq<Field>, keys: seq<string>)
    requires DistinctKeys(late) && |other| <= 1
    requires forall f :: f in late ==> f.key in keys || f in other
    requires forall f :: f in other ==> f in late && f.key !in keys
    requires forall k :: k in keys ==> !HasKey(own, k)
    ensures StripKeys(Obj(own + late), keys) == Obj(own + other)
    decreases keys
  {
    hide HasKey, Remove;
    if keys == [] {
      OnlyOther(late, other);
    } else {
      hide DistinctKeys;
      var rest := Remove(late, keys[0]);
      RemoveAppend(own, late, keys[0]);
      RemoveDistinct(late, keys[0]);
      forall f ensures f in rest <==> f in late && f.key != keys[0] {
        RemoveMember(late, keys[0], f);
      }
      StripLate(own, rest, other, keys[1..]);
    }
  }

  lemma OnlyOther(late: seq<Field>, other: seq<Field>)
    requires DistinctKeys(late) && |other| <= 1 && forall f :: f in late <==> f in other
    ensures late == other
  {
    assert late != [] ==> late[0] in late;
    if other != [] {
      assert other[0] in other && other[0] in late;
      forall i | 0 <= i < |late| ensures late[i] == other[0] {
        assert late[i] in late;
        assert late[i] in other;
      }
      assert |late| > 1 ==> late[0].key != late[1].key;
    }
  }

  lemma {:induction false} StripAbsent(fields: seq<Field>, keys: seq<string>)
    requires forall k :: k in keys ==> !HasKey(fields, k)
    ensures StripKeys(Obj(fields), keys) == Obj(fields)
    decreases keys
  {
    hide HasKey;
    if keys != [] {
      assert keys[0] in keys;
      RemoveAbsent(fields, keys[0]);
      StripAbsent(fields, keys[1..]);
    }
  }

  lemma RemoveAbsent(fields: seq<Field>, key: string)
    requires !HasKey(fields, key)
    ensures Remove(fields, key) == fields
  {
  }

  lemma RemoveMiddle(pre: seq<Field>, t: Field, post: seq<Field>)
    requires !HasKey(pre, t.key)
    ensures Remove(pre + ([t] + post), t.key)
         == pre + if post == [] then [] else [post[|post| - 1]] + post[..|post| - 1]
  {
    RemoveAppend(pre, [t] + post, t.key);
    assert Find([t] + post, t.key) == 0;
  }

  lemma LastFirst(post: seq<Field>)
    requires DistinctKeys(post) && post != []
    ensures [post[|post| - 1]] + post[..|post| - 1] == post <==> |post| == 1
  {
    var moved := [post[|post| - 1]] + post[..|post| - 1];
    if |post| == 1 {
      assert moved == post;
    } else {
      assert moved[0] != post[0];
    }
  }

  /** One tuning key among other fields: stripping it leaves the others in their
      order exactly when at most one of them follows it. */
  lemma StripOne(pre: seq<Field>, t: Field, post: seq<Field>, keys: seq<string>)
    requires t.key in keys && DistinctKeys(pre + post)
    requires forall k :: k in keys ==> !HasKey(pre + post, k)
    ensures StripKeys(Obj(pre + ([t] + post)), keys) == Obj(pre + post) <==> |post| <= 1
  {
    var moved := if post == [] then [] else [post[|post| - 1]] + post[..|post| - 1];
    StripTo(pre, t, post, keys);
    DistinctEnd(pre, post);
    if post != [] { LastFirst(post); }
    if pre + moved == pre + post {
      assert moved == (pre + moved)[|pre|..] == (pre + post)[|pre|..] == post;
    }
  }

  lemma DistinctEnd(pre: seq<Field>, post: seq<Field>)
    requires DistinctKeys(pre + post)
    ensures DistinctKeys(post)
  {
    forall i, j | 0 <= i < j < |post| ensures post[i].key != post[j].key {
      assert (pre + post)[|pre| + i] == post[i] && (pre + post)[|pre| + j] == post[j];
    }
  }

  lemma {:induction false} StripTo(pre: seq<Field>, t: Field, post: seq<Field>, keys: seq<string>)
    requires t.key in keys && forall k :: k in keys ==> !HasKey(pre + post, k)
    ensures StripKeys(Obj(pre + ([t] + post)), keys)
         == Obj(pre + if post == [] then [] else [post[|post| - 1]] + post[..|post| - 1])
    decreases keys
  {
    var all, k := pre + ([t] + post), keys[0];
    assert k in keys;
    KeyApart(pre, post, k);
    if t.key == k {
      RemoveMiddle(pre, t, post);
      var left := Remove(all, k);
      forall l | l in keys[1..] ensures !HasKey(left, l) {
        assert l in keys;
        KeyApart(pre, post, l);
      }
      StripAbsent(left, keys[1..]);
    } else {
      RemoveAbsent(all, k);
      StripTo(pre, t, post, keys[1..]);
    }
  }

  lemma KeyApart(pre: seq<Field>, post: seq<Field>, k: string)
    requires !HasKey(pre + post, k)
    ensures !HasKey(pre, k) && !HasKey(post, k)
  {
    FindAppend(pre, post, k);
  }

  lemma NullFields(fields: seq<Field>)
    requires DistinctKeys(fields) && forall i :: 0 <= i < |fields| ==> fields[i].value == Null
    ensures WellFormed(Obj(fields))
  {
    assert WellFormed(Null);
    assert WellFormedFields(fields);
  }

  /** The other fields with the last of them moved to place `p`. */
  function Rotated(all: seq<Field>, p: nat): seq<Field>
    requires p <= |all|
  {
    if p == |all| then all else all[..p] + [all[|all| - 1]] + all[p..|all| - 1]
  }

  lemma RotatedIs(pre: seq<Field>, post: seq<Field>)
    ensures pre + (if post == [] then [] else [post[|post| - 1]] + post[..|post| - 1])
         == Rotated(pre + post, |pre|)
  {
    var all := pre + post;
    if post != [] {
      assert all[..|pre|] == pre && all[|pre|..|all| - 1] == post[..|post| - 1];
    }
  }

  /** Moving the last field to two places gives one order exactly when the places are
      one, or neither move changes anything. */
  lemma RotatedSame(all: seq<Field>, p: nat, q: nat)
    requires DistinctKeys(all) && p <= q <= |all|
    ensures Rotated(all, p) == Rotated(all, q) <==> p == q || |all| - p <= 1
  {
    if p < q {
      assert Rotated(all, p)[p] == all[|all| - 1];
      if p + 1 < |all| {
        assert Rotated(all, q)[p] == all[p];
        assert all[p].key != all[|all| - 1].key;
      } else {
        assert Rotated(all, p) == all;
      }
    }
  }

  /** One tuning key in each config, among the same other fields: the identities are
      equal exactly when as many of those follow it in both, or at most one does. */
  lemma OneTuningKeyEach(kind: string, pre: seq<Field>, t: Field, post: seq<Field>,
                         pre': seq<Field>, t': Field, post': seq<Field>)
    requires NulFree(kind) && t.key in NON_IDENTITY_KEYS && t'.key in NON_IDENTITY_KEYS
    requires pre + post == pre' + post' && forall k :: k in NON_IDENTITY_KEYS ==> !HasKey(pre + post, k)
    requires WellFormed(Obj(pre + ([t] + post))) && WellFormed(Obj(pre' + ([t'] + post')))
    ensures Identity(kind, Obj(pre + ([t] + post))) == Identity(kind, Obj(pre' + ([t'] + post'))) <==>
            |post| == |post'| || (|post| <= 1 && |post'| <= 1)
  {
    hide StripKeys, Print, HasKey, Identity;
    var a, b := Row("a", kind, Obj(pre + ([t] + post)), [], None), Row("b", kind, Obj(pre' + ([t'] + post')), [], None);
    IdentityExact(a, b);
    StripTo(pre, t, post, NON_IDENTITY_KEYS);
    StripTo(pre', t', post', NON_IDENTITY_KEYS);
    RotatedIs(pre, post);
    RotatedIs(pre', post');
    var all := pre + post;
    DistinctWithout(pre, t, post);
    assert |all| == |pre| + |post| == |pre'| + |post'|;
    if |pre| <= |pre'| { RotatedSame(all, |pre|, |pre'|); } else { RotatedSame(all, |pre'|, |pre|); }
  }

  lemma DistinctWithout(pre: seq<Field>, t: Field, post: seq<Field>)
    requires DistinctKeys(pre + ([t] + post))
    ensures DistinctKeys(pre + post)
  {
    var all, with := pre + post, pre + ([t] + post);
    forall i, j | 0 <= i < j < |all| ensures all[i].key != all[j].key {
      assert all[i] == with[if i < |pre| then i else i + 1] && all[j] == with[if j < |pre| then j else j + 1];
    }
  }

  /** Two configs with the same other fields, at most one of them after the first
      tuning key of each, have one identity, however many tuning keys they hold. */
  lemma LateTuningIgnored(kind: string, own: seq<Field>, late: seq<Field>, own': seq<Field>, late': seq<Field>,
                          other: seq<Field>, other': seq<Field>)
    requires LateTuning(own, late, other) && LateTuning(own', late', other') && own + other == own' + other'
    ensures Identity(kind, Obj(own + late)) == Identity(kind, Obj(own' + late'))
  {
    hide StripKeys, Print;
    StripLate(own, late, other, NON_IDENTITY_KEYS);
    StripLate(own', late', other', NON_IDENTITY_KEYS);
  }

  /** `own` holds no tuning key, and `late` nothing else but `other`, one field at most. */
  ghost predicate LateTuning(own: seq<Field>, late: seq<Field>, other: seq<Field>) {
    && DistinctKeys(late) && |other| <= 1
    && (forall f :: f in late ==> f.key in NON_IDENTITY_KEYS || f in other)
    && (forall f :: f in other ==> f in late && f.key !in NON_IDENTITY_KEYS)
    && (forall k :: k in NON_IDENTITY_KEYS ==> !HasKey(own, k))
  }

  /** One tuning key more or less, beside any others: the identity is left alone
      exactly when the key does not change the order the other names are left in. With
      no other tuning key that is when at most one field follows it. */
  lemma TuningKeyIgnored(kind: string, pre: seq<Field>, t: Field, post: seq<Field>)
    requires NulFree(kind) && t.key in NON_IDENTITY_KEYS
    requires WellFormed(Obj(pre + ([t] + post))) && WellFormed(Obj(pre + post))
    ensures Identity(kind, Obj(pre + ([t] + post))) == Identity(kind, Obj(pre + post)) <==>
            Layout(Keys(pre + ([t] + post)), NON_IDENTITY_KEYS) == Layout(Keys(pre + post), NON_IDENTITY_KEYS)
    ensures (forall k :: k in NON_IDENTITY_KEYS ==> !HasKey(pre + post, k)) ==>
              (Identity(kind, Obj(pre + ([t] + post))) == Identity(kind, Obj(pre + post)) <==> |post| <= 1)
  {
    hide StripKeys, Print, HasKey, Layout, Identity;
    var a, b := Row("a", kind, Obj(pre + ([t] + post)), [], None), Row("b", kind, Obj(pre + post), [], None);
    IdentityByLayout(kind, pre + ([t] + post), kind, pre + post);
    if forall k :: k in NON_IDENTITY_KEYS ==> !HasKey(pre + post, k) {
      IdentityExact(a, b);
      StripAbsent(pre + post, NON_IDENTITY_KEYS);
      StripOne(pre, t, post, NON_IDENTITY_KEYS);
    }
  }

  /** The documented "configs that differ only in tuning keys write the same
      destination" fails when such a key stands before two others. */
  lemma TuningKeyMovesFields(a: Field, t: Field, b: Field, c: Field)
    requires a == Field("path", Null) && t == Field("batch_size", Null)
    requires b == Field("bucket", Null) && c == Field("region", Null)
    ensures Identity("blob", Obj([a, t, b, c])) != Identity("blob", Obj([a, b, c]))
  {
    hide StripKeys, Print, Identity, Layout, Keys;
    assert b.key[0] != c.key[0];
    NullFields([a, t, b, c]);
    NullFields([a, b, c]);
    assert [a] + ([t] + [b, c]) == [a, t, b, c] && [a] + [b, c] == [a, b, c];
    TuningKeyIgnored("blob", [a], t, [b, c]);
  }

  /** A field written last is left out of the identity exactly when its key is one of the
      sixteen that only tune how a sink writes. */
  lemma TrailingKey(kind: string, own: seq<Field>, f: Field)
    requires NulFree(kind) && WellFormed(Obj(own)) && WellFormed(Obj(own + [f]))
    requires forall k :: k in NON_IDENTITY_KEYS ==> !HasKey(own, k)
    ensures Identity(kind, Obj(own + [f])) == Identity(kind, Obj(own)) <==>
            f.key in {"batch_size", "max_connections", "concurrency", "write_mode", "key", "delete_marker",
                      "create_table", "column_mapping", "on_unknown_field", "timeout_secs", "batch_atomicity",
                      "rollback", "scope", "_overwrite_staging", "_activate_version", "_overwrite_run"}
  {
    KeysAre(f.key);
    if f.key in NON_IDENTITY_KEYS {
      hide NON_IDENTITY_KEYS, Identity, HasKey, WellFormed;
      assert own + ([f] + []) == own + [f] && own + [] == own;
      TuningKeyIgnored(kind, own, f, []);
    } else {
      hide NON_IDENTITY_KEYS, Identity, HasKey, Layout;
      IdentityByLayout(kind, own + [f], kind, own);
      LastIsNew(own, f);
    }
  }

  lemma LastIsNew(own: seq<Field>, f: Field)
    requires DistinctKeys(own + [f])
    ensures f in own + [f] && f !in own
  {
    var all := own + [f];
    assert all[|own|] == f;
    forall i | 0 <= i < |own| ensures own[i].key != f.key {
      assert all[i] == own[i];
    }
  }

  lemma KeysAre(key: string)
    ensures key in NON_IDENTITY_KEYS <==>
            key in {"batch_size", "max_connections", "concurrency", "write_mode", "key", "delete_marker",
                    "create_table", "column_mapping", "on_unknown_field", "timeout_secs", "batch_atomicity",
                    "rollback", "scope", "_overwrite_staging", "_activate_version", "_overwrite_run"}
  {
  }
}
