/** Release versions: reading `X.Y.Z`, comparing by precedence (section 11 of
    Semantic Versioning 2.0.0), bump levels (scripts/release-cli-bump.py). */
module Versions {
  import opened Outcomes
  import Decimal

  datatype Version = Version(major: nat, minor: nat, patch: nat)

  predicate Le(a: Version, b: Version) {
    || a.major < b.major
    || (a.major == b.major && (a.minor < b.minor || (a.minor == b.minor && a.patch <= b.patch)))
  }

  // ── Text ───────────────────────────────────────────────────────────────────

  /** How many digits `s` starts with. */
  function DigitRun(s: string): (n: nat)
    ensures n <= |s| && Decimal.AllDigits(s[..n])
    ensures n < |s| ==> !Decimal.IsDigit(s[n])
  {
    if s == "" || !Decimal.IsDigit(s[0]) then 0
    else
      var n := 1 + DigitRun(s[1..]);
      assert forall i :: 0 < i < n ==> s[i] == s[1..][i - 1];
      n
  }

  /** A number and a dot at the start of `s`, and what follows. */
  function NumberDot(s: string): (r: Option<(nat, string)>)
    ensures r.Some? ==> |r.value.1| < |s|
  {
    var n := DigitRun(s);
    if 0 < n < |s| && s[n] == '.' then Some((Decimal.Read(s[..n]), s[n + 1..])) else None
  }

  /** `X.Y.Z` at the start of `s`, and what follows. */
  function VersionPrefix(s: string): (r: Option<(Version, string)>)
    ensures r.Some? ==> |r.value.1| < |s|
  {
    match NumberDot(s)
    case None => None
    case Some((major, r1)) =>
      match NumberDot(r1)
      case None => None
      case Some((minor, r2)) =>
        var n := DigitRun(r2);
        if n > 0 then Some((Version(major, minor, Decimal.Read(r2[..n])), r2[n..])) else None
  }

  function Parse(s: string): Option<Version> {
    match VersionPrefix(s)
    case None => None
    case Some((v, rest)) => if rest == "" then Some(v) else None
  }

  function Show(v: Version): string {
    Decimal.Print(v.major) + ("." + (Decimal.Print(v.minor) + ("." + Decimal.Print(v.patch))))
  }

  lemma {:induction false} DigitRunStops(d: string, rest: string)
    requires Decimal.AllDigits(d) && (rest == "" || !Decimal.IsDigit(rest[0]))
    ensures DigitRun(d + rest) == |d|
  {
    if d == "" {
      assert d + rest == rest;
    } else {
      DigitRunStops(d[1..], rest);
      assert (d + rest)[1..] == d[1..] + rest;
    }
  }

  lemma NumberDotShown(n: nat, rest: string)
    ensures NumberDot(Decimal.Print(n) + ("." + rest)) == Some((n, rest))
  {
    var d := Decimal.Print(n);
    var s := d + ("." + rest);
    DigitRunStops(d, "." + rest);
    Decimal.ReadPrint(n);
    assert s[..|d|] == d && s[|d| + 1..] == rest;
  }

  /** A shown version is read back, whatever non-digit text follows it. */
  lemma PrefixShown(v: Version, rest: string)
    requires rest == "" || !Decimal.IsDigit(rest[0])
    ensures VersionPrefix(Show(v) + rest) == Some((v, rest))
  {
    var major, minor, patch := Decimal.Print(v.major), Decimal.Print(v.minor), Decimal.Print(v.patch);
    assert Show(v) + rest == major + ("." + (minor + ("." + (patch + rest))));
    NumberDotShown(v.major, minor + ("." + (patch + rest)));
    NumberDotShown(v.minor, patch + rest);
    DigitRunStops(patch, rest);
    Decimal.ReadPrint(v.patch);
    assert (patch + rest)[..|patch|] == patch && (patch + rest)[|patch|..] == rest;
  }

  lemma ParseShown(v: Version)
    ensures Parse(Show(v)) == Some(v)
  {
    PrefixShown(v, "");
    assert Show(v) + "" == Show(v);
  }

  // ── Version texts ──────────────────────────────────────────────────────────

  lemma {:induction false} DigitRunExtends(s: string, t: string)
    requires DigitRun(s) < |s| || t == "" || !Decimal.IsDigit(t[0])
    ensures DigitRun(s + t) == DigitRun(s)
  {
    if s == "" {
      assert s + t == t;
    } else if Decimal.IsDigit(s[0]) {
      DigitRunExtends(s[1..], t);
      assert (s + t)[1..] == s[1..] + t;
    }
  }

  lemma NumberDotExtends(s: string, t: string)
    requires NumberDot(s).Some?
    ensures NumberDot(s + t) == Some((NumberDot(s).value.0, NumberDot(s).value.1 + t))
  {
    DigitRunExtends(s, t);
    var n := DigitRun(s);
    assert (s + t)[..n] == s[..n] && (s + t)[n + 1..] == s[n + 1..] + t;
  }

  /** A version text is read whole, whatever non-digit text follows it. */
  lemma ParseExtends(s: string, t: string)
    requires Parse(s).Some? && (t == "" || !Decimal.IsDigit(t[0]))
    ensures VersionPrefix(s + t) == Some((Parse(s).value, t))
  {
    NumberDotExtends(s, t);
    var r1 := NumberDot(s).value.1;
    NumberDotExtends(r1, t);
    var r2 := NumberDot(r1).value.1;
    DigitRunExtends(r2, t);
    var n := DigitRun(r2);
    assert n == |r2| && (r2 + t)[..n] == r2[..n] && (r2 + t)[n..] == t;
  }

  ghost predicate Numeral(s: string) {
    s != "" && Decimal.AllDigits(s)
  }

  /** `X.Y.Z` and what follows, in the text. */
  lemma VersionParts(s: string) returns (a: string, b: string, c: string, after: string)
    requires VersionPrefix(s).Some?
    ensures Numeral(a) && Numeral(b) && Numeral(c) && (after == "" || !Decimal.IsDigit(after[0]))
    ensures s == a + ("." + (b + ("." + (c + after))))
    ensures VersionPrefix(s) == Some((Version(Decimal.Read(a), Decimal.Read(b), Decimal.Read(c)), after))
  {
    var rest, tail;
    a, rest := NumberDotParts(s);
    b, tail := NumberDotParts(rest);
    hide NumberDot, Decimal.AllDigits, Decimal.Read;
    var n := DigitRun(tail);
    c, after := tail[..n], tail[n..];
    LastNumber(tail);
  }

  lemma LastNumber(tail: string)
    ensures var n := DigitRun(tail);
            && tail == tail[..n] + tail[n..] && Decimal.AllDigits(tail[..n])
            && (n < |tail| ==> !Decimal.IsDigit(tail[n..][0]))
  {
    hide DigitRun, Decimal.AllDigits, Decimal.IsDigit;
  }

  lemma NumberDotParts(s: string) returns (a: string, rest: string)
    requires NumberDot(s).Some?
    ensures Numeral(a) && s == a + ("." + rest) && NumberDot(s) == Some((Decimal.Read(a), rest))
  {
    var n := DigitRun(s);
    a, rest := s[..n], s[n + 1..];
    assert s == s[..n] + ([s[n]] + s[n + 1..]);
  }

  /** Three numerals with dots between them are read, and what follows is left. */
  lemma PartsRead(a: string, b: string, c: string, after: string)
    requires Numeral(a) && Numeral(b) && Numeral(c) && (after == "" || !Decimal.IsDigit(after[0]))
    ensures VersionPrefix(a + ("." + (b + ("." + (c + after)))))
         == Some((Version(Decimal.Read(a), Decimal.Read(b), Decimal.Read(c)), after))
  {
    hide NumberDot;
    OneNumber(a, b + ("." + (c + after)));
    OneNumber(b, c + after);
    DigitRunStops(c, after);
    assert (c + after)[..|c|] == c && (c + after)[|c|..] == after;
  }

  /** A text is a version exactly when it is three numerals with dots between them. */
  lemma ParseExact(s: string)
    ensures Parse(s).Some? <==>
            exists a, b, c :: Numeral(a) && Numeral(b) && Numeral(c) && s == a + ("." + (b + ("." + c)))
    ensures forall a, b, c :: Numeral(a) && Numeral(b) && Numeral(c) && s == a + ("." + (b + ("." + c))) ==>
              Parse(s) == Some(Version(Decimal.Read(a), Decimal.Read(b), Decimal.Read(c)))
  {
    hide VersionPrefix, Decimal.AllDigits, Decimal.Read;
    if Parse(s).Some? {
      var a, b, c, after := VersionParts(s);
      assert c + after == c;
    }
    forall a, b, c | Numeral(a) && Numeral(b) && Numeral(c) && s == a + ("." + (b + ("." + c)))
      ensures Parse(s) == Some(Version(Decimal.Read(a), Decimal.Read(b), Decimal.Read(c)))
    {
      assert c + "" == c;
      PartsRead(a, b, c, "");
    }
  }

  ghost predicate DigitsAndDots(s: string) {
    forall i :: 0 <= i < |s| ==> Decimal.IsDigit(s[i]) || s[i] == '.'
  }

  lemma NumberDotText(s: string)
    requires NumberDot(s).Some? && DigitsAndDots(NumberDot(s).value.1)
    ensures DigitsAndDots(s)
  {
    var n, r := DigitRun(s), NumberDot(s).value.1;
    forall i | 0 <= i < |s| ensures Decimal.IsDigit(s[i]) || s[i] == '.' {
      if i < n { assert s[i] == s[..n][i]; }
      else if i > n { assert s[i] == r[i - n - 1]; }
    }
  }

  /** A version text holds digits and dots only. */
  lemma ParseText(s: string)
    requires Parse(s).Some?
    ensures DigitsAndDots(s)
  {
    var r1 := NumberDot(s).value.1;
    var r2 := NumberDot(r1).value.1;
    assert r2[..DigitRun(r2)] == r2;
    NumberDotText(r1);
    NumberDotText(s);
  }

  // ── Bumps ──────────────────────────────────────────────────────────────────

  datatype Level = Patch | Minor | Major

  function Rank(l: Level): nat {
    match l case Patch => 1 case Minor => 2 case Major => 3
  }

  datatype BumpError = Unsupported(text: string) | Backwards(before: string, after: string)

  /** The bump from one version text to another; a new crate counts as minor. */
  function BumpLevel(before: Option<string>, after: string): Result<Option<Level>, BumpError> {
    if before == Some(after) then Ok(None)
    else match before
      case None => Ok(Some(Minor))
      case Some(o) =>
        if Parse(o).None? then Err(Unsupported(o))
        else if Parse(after).None? then Err(Unsupported(after))
        else
          var a, b := Parse(o).value, Parse(after).value;
          if !Le(a, b) then Err(Backwards(o, after))
          else if b.major != a.major then Ok(Some(Major))
          else if b.minor != a.minor then Ok(Some(Minor))
          else Ok(Some(Patch))
  }

  function Next(v: Version, l: Level): Version {
    match l
    case Major => Version(v.major + 1, 0, 0)
    case Minor => Version(v.major, v.minor + 1, 0)
    case Patch => Version(v.major, v.minor, v.patch + 1)
  }

  /** The bump is at least `l`. */
  predicate Reaches(b: Option<Level>, l: Level) {
    b.Some? && Rank(b.value) >= Rank(l)
  }

  /** `next(base, l)` is the least version whose bump over the base is at least
      `l`: `v >= next(base, l)` says the same as `bump(base, v) >= l`, except that
      a respelling of the base itself (leading zeros) is called a patch bump. */
  lemma BumpIffNext(base: string, text: string, l: Level)
    requires Parse(base).Some? && Parse(text).Some? && Le(Parse(base).value, Parse(text).value)
    ensures BumpLevel(Some(base), text).Ok?
    ensures (Reaches(BumpLevel(Some(base), text).value, l) <==> Le(Next(Parse(base).value, l), Parse(text).value))
            <==> !(l == Patch && text != base && Parse(text) == Parse(base))
  {
    hide Parse;
  }

  /** On versions written the canonical way there is no exception. */
  lemma BumpIffNextShown(base: Version, v: Version, l: Level)
    requires Le(base, v)
    ensures BumpLevel(Some(Show(base)), Show(v)).Ok?
    ensures Reaches(BumpLevel(Some(Show(base)), Show(v)).value, l) <==> Le(Next(base, l), v)
  {
    hide Parse, Show;
    ParseShown(base);
    ParseShown(v);
    BumpIffNext(Show(base), Show(v), l);
  }

  /** The exception exists: `01.2.3` is read as 1.2.3 but reported as a patch bump over it. */
  lemma RespellingIsAPatch()
    ensures Parse("1.2.3") == Some(Version(1, 2, 3)) && Parse("01.2.3") == Some(Version(1, 2, 3))
    ensures BumpLevel(Some("1.2.3"), "01.2.3") == Ok(Some(Patch))
    ensures !Le(Next(Version(1, 2, 3), Patch), Version(1, 2, 3))
  {
    hide NumberDot;
    ReadDigit('1');
    ReadDigit('2');
    ReadDigit('3');
    assert Decimal.Read("01") == 1 by { assert "01"[..1] == "0"; ReadDigit('0'); }
    OneNumber("1", "2.3");
    OneNumber("01", "2.3");
    OneNumber("2", "3");
    assert "1" + ("." + "2.3") == "1.2.3" && "01" + ("." + "2.3") == "01.2.3" && "2" + ("." + "3") == "2.3";
    DigitRunStops("3", "");
    assert "3" + "" == "3" && "3"[..1] == "3";
  }

  lemma ReadDigit(c: char)
    requires Decimal.IsDigit(c)
    ensures Decimal.Read([c]) == Decimal.DigitValue(c)
  {
    assert [c][..0] == [];
  }

  lemma OneNumber(d: string, rest: string)
    requires d != "" && Decimal.AllDigits(d)
    ensures NumberDot(d + ("." + rest)) == Some((Decimal.Read(d), rest))
  {
    var s := d + ("." + rest);
    DigitRunStops(d, "." + rest);
    assert s[..|d|] == d && s[|d| + 1..] == rest;
  }
}
