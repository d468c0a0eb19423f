/** Text helpers shared by the printers and the line-based tools. */
module Text {

  /** `parts.join(sep)`. */
  function Join(parts: seq<string>, sep: string): string {
    if parts == [] then ""
    else if |parts| == 1 then parts[0]
    else parts[0] + (sep + Join(parts[1..], sep))
  }

  /** `char::is_whitespace` (the Unicode White_Space property). */
  predicate IsWhitespace(c: char) {
    var u := c as int;
    || 9 <= u <= 13 || u == 0x20 || u == 0x85 || u == 0xA0 || u == 0x1680
    || 0x2000 <= u <= 0x200A || u == 0x2028 || u == 0x2029 || u == 0x202F || u == 0x205F || u == 0x3000
  }

  function TrimStart(s: string, drop: char -> bool): (r: string)
    ensures r != [] ==> !drop(r[0])
  {
    if s != [] && drop(s[0]) then TrimStart(s[1..], drop) else s
  }

  function TrimEnd(s: string, drop: char -> bool): (r: string)
    ensures r != [] ==> !drop(r[|r| - 1])
  {
    if s != [] && drop(s[|s| - 1]) then TrimEnd(s[..|s| - 1], drop) else s
  }

  function Trim(s: string, drop: char -> bool): string {
    TrimEnd(TrimStart(s, drop), drop)
  }

  predicate StartsWith(s: string, prefix: string) {
    |prefix| <= |s| && s[..|prefix|] == prefix
  }

  predicate EndsWith(s: string, suffix: string) {
    |suffix| <= |s| && s[|s| - |suffix|..] == suffix
  }

  // ── Joining ────────────────────────────────────────────────────────────────

  lemma JoinOne(p: string, sep: string)
    ensures Join([p], sep) == p
  {
  }

  lemma JoinFirst(p: string, parts: seq<string>, sep: string)
    requires parts != []
    ensures Join([p] + parts, sep) == p + (sep + Join(parts, sep))
  {
    assert ([p] + parts)[1..] == parts;
  }

  /** One more part goes after a separator. */
  lemma {:induction false} JoinSnoc(parts: seq<string>, p: string, sep: string)
    ensures Join(parts + [p], sep) == if parts == [] then p else Join(parts, sep) + (sep + p)
  {
    var all := parts + [p];
    if |parts| > 0 {
      assert all[1..] == parts[1..] + [p];
      JoinSnoc(parts[1..], p, sep);
      if |parts| > 1 {
        var rest := Join(parts[1..], sep);
        assert parts[0] + (sep + (rest + (sep + p))) == parts[0] + (sep + rest) + (sep + p);
      }
    }
  }

  // ── Trimming ───────────────────────────────────────────────────────────────

  ghost predicate All(s: string, p: char -> bool) {
    forall i :: 0 <= i < |s| ==> p(s[i])
  }

  /** `t` is `s` without what `drop` drops at either end. */
  ghost predicate Bare(s: string, drop: char -> bool, t: string) {
    && (exists pre, post :: s == pre + (t + post) && All(pre, drop) && All(post, drop))
    && (t == "" || (!drop(t[0]) && !drop(t[|t| - 1])))
  }

  lemma {:induction false} TrimmedStart(s: string, drop: char -> bool) returns (pre: string)
    ensures s == pre + TrimStart(s, drop) && All(pre, drop)
  {
    if s != "" && drop(s[0]) {
      var rest := TrimmedStart(s[1..], drop);
      pre := [s[0]] + rest;
      Cons(s[0], rest, TrimStart(s[1..], drop));
      assert s == [s[0]] + s[1..];
    } else {
      pre := "";
    }
  }

  lemma Cons(c: char, a: string, b: string)
    ensures [c] + (a + b) == [c] + a + b
  {
  }

  lemma {:induction false} TrimmedEnd(s: string, drop: char -> bool) returns (post: string)
    ensures s == TrimEnd(s, drop) + post && All(post, drop)
  {
    if s != "" && drop(s[|s| - 1]) {
      var init := TrimmedEnd(s[..|s| - 1], drop);
      post := init + [s[|s| - 1]];
      assert s == s[..|s| - 1] + [s[|s| - 1]];
    } else {
      post := "";
    }
  }

  /** Trimming takes off all of it, at both ends, and nothing else. */
  lemma TrimIsBare(s: string, drop: char -> bool)
    ensures Bare(s, drop, Trim(s, drop))
  {
    hide TrimStart, TrimEnd;
    var pre := TrimmedStart(s, drop);
    var m := TrimStart(s, drop);
    var post := TrimmedEnd(m, drop);
    var t := TrimEnd(m, drop);
    assert s == pre + (t + post);
    if t != "" { assert t[0] == m[0]; }
  }

  lemma {:induction false} StartDropped(pre: string, x: string, drop: char -> bool)
    requires All(pre, drop) && (x == "" || !drop(x[0]))
    ensures TrimStart(pre + x, drop) == x
  {
    if pre == "" {
      assert pre + x == x;
    } else {
      StartDropped(pre[1..], x, drop);
      assert (pre + x)[1..] == pre[1..] + x;
    }
  }

  lemma {:induction false} EndDropped(x: string, post: string, drop: char -> bool)
    requires All(post, drop) && (x == "" || !drop(x[|x| - 1]))
    ensures TrimEnd(x + post, drop) == x
  {
    if post == "" {
      assert x + post == x;
    } else {
      EndDropped(x, post[..|post| - 1], drop);
      assert (x + post)[..|x + post| - 1] == x + post[..|post| - 1];
    }
  }

  lemma AllNone(p: char -> bool)
    ensures All("", p)
  {
  }

  lemma AllBoth(a: string, b: string, p: char -> bool)
    requires All(a, p) && All(b, p)
    ensures All(a + b, p)
  {
  }

  /** So the trimmed text is determined. */
  lemma BareIsTrim(s: string, drop: char -> bool, t: string)
    requires Bare(s, drop, t)
    ensures t == Trim(s, drop)
  {
    hide TrimStart, TrimEnd, All;
    var pre, post :| s == pre + (t + post) && All(pre, drop) && All(post, drop);
    if t == "" {
      AllBoth(pre, post, drop);
      assert s == pre + post + "";
      StartDropped(pre + post, "", drop);
      AllNone(drop);
      EndDropped("", "", drop);
      assert "" + "" == "";
    } else {
      assert (t + post)[0] == t[0];
      StartDropped(pre, t + post, drop);
      EndDropped(t, post, drop);
    }
  }
}
