/** Choosing faucet-cli's version on a release PR (scripts/release-cli-bump.py `plan`). */
module ReleasePlan {
  import opened Outcomes
  import opened Sorting
  import opened Versions

  const ROOT := "faucet-cli"

  /** A crate whose version differs from the base revision; no base for a new crate. */
  datatype Bump = Bump(name: string, before: Option<string>, after: string)

  datatype PlanError = BadVersion(error: BumpError) | MajorStop(crates: seq<Bump>)

  /** The bumped crates faucet-cli builds in, itself excluded, by name. */
  function Crates(closure: set<string>, bumps: seq<Bump>): seq<Bump> {
    Sort(Inside(closure, bumps), ByName)
  }

  function Inside(closure: set<string>, bumps: seq<Bump>): (r: seq<Bump>)
    ensures forall b :: b in r <==> b in bumps && b.name in closure && b.name != ROOT
  {
    if bumps == [] then []
    else
      assert forall b :: b in bumps <==> b == bumps[0] || b in bumps[1..];
      (if bumps[0].name in closure && bumps[0].name != ROOT then [bumps[0]] else []) + Inside(closure, bumps[1..])
  }

  predicate ByName(a: Bump, b: Bump) {
    StringLe(a.name, b.name)
  }

  /** The levels of the crates, or the first failure. */
  function Levels(crates: seq<Bump>): (r: Result<seq<Level>, BumpError>)
    requires forall i :: 0 <= i < |crates| ==> crates[i].before != Some(crates[i].after)
    ensures r.Ok? ==> |r.value| == |crates|
    ensures r.Ok? ==> forall i :: 0 <= i < |crates| ==>
              BumpLevel(crates[i].before, crates[i].after) == Ok(Some(r.value[i]))
  {
    hide BumpLevel;
    if crates == [] then Ok([])
    else match BumpLevel(crates[0].before, crates[0].after)
      case Err(e) => Err(e)
      case Ok(l) =>
        match Levels(crates[1..])
        case Err(e) => Err(e)
        case Ok(rest) => Ok([l.value] + rest)
  }

  /** `max(..., key=LEVELS.get)`. */
  function Highest(levels: seq<Level>): (l: Level)
    requires levels != []
    ensures l in levels && forall i :: 0 <= i < |levels| ==> Rank(levels[i]) <= Rank(l)
  {
    if |levels| == 1 then levels[0]
    else
      var rest := Highest(levels[1..]);
      if Rank(levels[0]) >= Rank(rest) then levels[0] else rest
  }

  function Majors(crates: seq<Bump>, levels: seq<Level>): (r: seq<Bump>)
    requires |crates| == |levels|
    ensures r != [] <==> Major in levels
    ensures forall b :: b in r <==> exists i :: 0 <= i < |crates| && crates[i] == b && levels[i] == Major
  {
    if crates == [] then []
    else (if levels[0] == Major then [crates[0]] else []) + Majors(crates[1..], levels[1..])
  }

  /** The new faucet-cli version and the crates that drove it. */
  function Plan(closure: set<string>, bumps: seq<Bump>, cliBase: string, cliHead: string)
    : Result<(string, seq<Bump>), PlanError>
    requires forall b :: b in bumps ==> b.before != Some(b.after)
  {
    var crates := Crates(closure, bumps);
    CratesBumped(closure, bumps);
    PlanFor(crates, cliBase, cliHead)
  }

  function PlanFor(crates: seq<Bump>, cliBase: string, cliHead: string): Result<(string, seq<Bump>), PlanError>
    requires forall i :: 0 <= i < |crates| ==> crates[i].before != Some(crates[i].after)
  {
    match Levels(crates)
    case Err(e) => Err(BadVersion(e))
    case Ok(levels) =>
      if crates == [] then Ok((cliHead, []))
      else if Parse(cliHead).None? && Major in levels then Err(BadVersion(Unsupported(cliHead)))
      else if Parse(cliBase).None? then Err(BadVersion(Unsupported(cliBase)))
      else if Parse(cliHead).None? then Err(BadVersion(Unsupported(cliHead)))
      else
        var base, head := Parse(cliBase).value, Parse(cliHead).value;
        var level := Highest(levels);
        if Major in levels && !Le(Next(base, Major), head) then Err(MajorStop(Majors(crates, levels)))
        else
          var target := Next(base, level);
          Ok((if Le(target, head) then cliHead else Show(target), crates))
  }

  lemma CratesBumped(closure: set<string>, bumps: seq<Bump>)
    requires forall b :: b in bumps ==> b.before != Some(b.after)
    ensures forall i :: 0 <= i < |Crates(closure, bumps)| ==>
              Crates(closure, bumps)[i].before != Some(Crates(closure, bumps)[i].after)
  {
    var crates := Crates(closure, bumps);
    forall i | 0 <= i < |crates| ensures crates[i].before != Some(crates[i].after) {
      CrateIs(closure, bumps, crates[i]);
    }
  }

  /** The crates considered are exactly the bumped ones in the closure. */
  lemma CrateIs(closure: set<string>, bumps: seq<Bump>, b: Bump)
    ensures b in Crates(closure, bumps) <==> b in bumps && b.name in closure && b.name != ROOT
  {
    MultisetMember(Crates(closure, bumps), Inside(closure, bumps), b);
  }

  // ── What the chosen version is ─────────────────────────────────────────────

  /** `level` is the largest bump among the crates. */
  ghost predicate LargestBump(crates: seq<Bump>, level: Level) {
    && (exists i :: 0 <= i < |crates| && BumpLevel(crates[i].before, crates[i].after) == Ok(Some(level)))
    && (forall i :: 0 <= i < |crates| ==>
          exists l :: BumpLevel(crates[i].before, crates[i].after) == Ok(Some(l)) && Rank(l) <= Rank(level))
  }

  /** When a crate in the closure is bumped and planning does not stop, the chosen
      version is the least one that is not below the PR's and whose bump over the
      base is at least the largest bump in the closure. */
  lemma PlanIsLeast(closure: set<string>, bumps: seq<Bump>, cliBase: string, cliHead: string) returns (level: Level)
    requires forall b :: b in bumps ==> b.before != Some(b.after)
    requires Plan(closure, bumps, cliBase, cliHead).Ok? && Plan(closure, bumps, cliBase, cliHead).value.1 != []
    ensures LargestBump(Crates(closure, bumps), level)
    ensures Plan(closure, bumps, cliBase, cliHead).value.1 == Crates(closure, bumps)
    ensures Parse(cliBase).Some? && Parse(cliHead).Some?
    ensures LeastFrom(Parse(cliBase).value, Parse(cliHead).value, level,
                      Plan(closure, bumps, cliBase, cliHead).value.0)
    ensures LeastBump(cliBase, Parse(cliHead).value, level, Plan(closure, bumps, cliBase, cliHead).value.0)
  {
    hide Crates, Parse, Show, BumpLevel, LeastBump;
    var crates := Crates(closure, bumps);
    CratesBumped(closure, bumps);
    var levels := Levels(crates).value;
    level := Highest(levels);
    assert LargestBump(crates, level) by {
      var i :| 0 <= i < |levels| && levels[i] == level;
      assert BumpLevel(crates[i].before, crates[i].after) == Ok(Some(level));
      forall k | 0 <= k < |crates|
        ensures exists l :: BumpLevel(crates[k].before, crates[k].after) == Ok(Some(l)) && Rank(l) <= Rank(level)
      {
        assert BumpLevel(crates[k].before, crates[k].after) == Ok(Some(levels[k]));
      }
    }
    var base, head := Parse(cliBase).value, Parse(cliHead).value;
    ParseShown(Next(base, level));
    LeastByBump(cliBase, head, level, Plan(closure, bumps, cliBase, cliHead).value.0);
  }

  /** The bump from `base` to `text` is at least `level`. */
  ghost predicate BumpReaches(base: string, text: string, level: Level) {
    BumpLevel(Some(base), text).Ok? && Reaches(BumpLevel(Some(base), text).value, level)
  }

  /** Another spelling of the same version, which counts as a patch bump over it. */
  ghost predicate Respells(base: string, text: string) {
    text != base && Parse(text) == Parse(base)
  }

  /** Among all version texts at least `head`, `text` reads as the least whose bump
      over `base` is at least `level`, a respelling of the base aside. */
  ghost predicate LeastBump(base: string, head: Version, level: Level, text: string) {
    && Parse(text).Some? && Le(head, Parse(text).value) && BumpReaches(base, text, level)
    && forall w :: Parse(w).Some? && Le(head, Parse(w).value) && BumpReaches(base, w, level) && !Respells(base, w)
         ==> Le(Parse(text).value, Parse(w).value)
  }

  lemma LeastByBump(base: string, head: Version, level: Level, text: string)
    requires Parse(base).Some? && LeastFrom(Parse(base).value, head, level, text)
    ensures LeastBump(base, head, level, text)
  {
    hide Parse, BumpLevel, Reaches, Next;
    var b := Parse(base).value;
    PlanExceedsBase(b, head, level, text);
    BumpIffNext(base, text, level);
    forall w | Parse(w).Some? && Le(head, Parse(w).value) && BumpReaches(base, w, level) && !Respells(base, w)
      ensures Le(Parse(text).value, Parse(w).value)
    {
      NotBackwards(base, w);
      BumpIffNext(base, w, level);
    }
  }

  lemma NotBackwards(base: string, w: string)
    requires Parse(base).Some? && Parse(w).Some? && BumpLevel(Some(base), w).Ok?
    ensures Le(Parse(base).value, Parse(w).value)
  {
    hide Parse;
  }

  /** With a canonically written base nothing needs setting aside. */
  lemma LeastAmongVersions(base: Version, head: Version, level: Level, text: string, v: Version)
    requires LeastBump(Show(base), head, level, text)
    requires Le(head, v) && BumpReaches(Show(base), Show(v), level)
    ensures Le(Parse(text).value, v)
  {
    hide Parse, Show, BumpReaches, Le;
    ParseShown(base);
    ParseShown(v);
  }

  /** `text` reads as the least version at least `head` and at least the `level` bump
      of `base`. */
  ghost predicate LeastFrom(base: Version, head: Version, level: Level, text: string) {
    && Parse(text).Some?
    && Le(head, Parse(text).value) && Le(Next(base, level), Parse(text).value)
    && forall v :: Le(head, v) && Le(Next(base, level), v) ==> Le(Parse(text).value, v)
  }

  /** The chosen version exceeds the base. */
  lemma PlanExceedsBase(base: Version, head: Version, level: Level, text: string)
    requires LeastFrom(base, head, level, text)
    ensures Le(base, Parse(text).value) && Parse(text).value != base
  {
    hide Parse;
  }

  /** Planning again from the result changes nothing. */
  lemma PlanIdempotent(closure: set<string>, bumps: seq<Bump>, again: seq<Bump>, cliBase: string, cliHead: string)
    requires forall b :: b in bumps ==> b.before != Some(b.after)
    requires forall b :: b in again ==> b.before != Some(b.after)
    requires Crates(closure, again) == Crates(closure, bumps)
    requires Plan(closure, bumps, cliBase, cliHead).Ok?
    ensures Plan(closure, again, cliBase, Plan(closure, bumps, cliBase, cliHead).value.0)
         == Plan(closure, bumps, cliBase, cliHead)
  {
    hide Crates, Parse, Show, Levels;
    var crates := Crates(closure, bumps);
    CratesBumped(closure, bumps);
    CratesBumped(closure, again);
    if crates != [] {
      var levels := Levels(crates).value;
      var base := Parse(cliBase).value;
      var target := Next(base, Highest(levels));
      ParseShown(target);
      if Major in levels { assert Highest(levels) == Major; }
    }
  }

  /** Planning stops exactly on a major bump in the closure that the PR's version
      does not already match. */
  lemma StopsOnMajor(closure: set<string>, bumps: seq<Bump>, cliBase: string, cliHead: string)
    requires forall b :: b in bumps ==> b.before != Some(b.after)
    requires Parse(cliBase).Some? && Parse(cliHead).Some?
    requires forall b :: b in bumps && b.name in closure && b.name != ROOT ==> BumpLevel(b.before, b.after).Ok?
    ensures Plan(closure, bumps, cliBase, cliHead).Err? <==>
            && (exists b :: b in bumps && b.name in closure && b.name != ROOT
                            && BumpLevel(b.before, b.after) == Ok(Some(Major)))
            && !Le(Next(Parse(cliBase).value, Major), Parse(cliHead).value)
  {
    hide Parse, Show, BumpLevel, Crates;
    var crates := Crates(closure, bumps);
    CratesBumped(closure, bumps);
    forall i | 0 <= i < |crates| ensures BumpLevel(crates[i].before, crates[i].after).Ok? {
      CrateIs(closure, bumps, crates[i]);
    }
    LevelsOk(crates);
    MajorAmong(closure, bumps);
  }

  lemma {:induction false} LevelsOk(crates: seq<Bump>)
    requires forall i :: 0 <= i < |crates| ==> crates[i].before != Some(crates[i].after)
    requires forall i :: 0 <= i < |crates| ==> BumpLevel(crates[i].before, crates[i].after).Ok?
    ensures Levels(crates).Ok?
  {
    hide BumpLevel;
    if crates != [] { LevelsOk(crates[1..]); }
  }

  // ── By the versions themselves ─────────────────────────────────────────────

  /** Nothing bumped in the closure: the PR's version stays, whatever it is. */
  lemma NothingBumped(closure: set<string>, bumps: seq<Bump>, cliBase: string, cliHead: string)
    requires forall b :: b in bumps ==> b.before != Some(b.after)
    requires forall b :: b in bumps ==> b.name !in closure || b.name == "faucet-cli"
    ensures Plan(closure, bumps, cliBase, cliHead) == Ok((cliHead, []))
  {
    hide BumpLevel, Parse;
    var crates := Crates(closure, bumps);
    CratesBumped(closure, bumps);
    if crates != [] { CrateIs(closure, bumps, crates[0]); }
  }

  /** The crates are listed by name. */
  lemma CratesByName(closure: set<string>, bumps: seq<Bump>, i: nat, j: nat)
    requires i < j < |Crates(closure, bumps)|
    ensures StringLe(Crates(closure, bumps)[i].name, Crates(closure, bumps)[j].name)
  {
    NameOrderTotal();
    SortSorted(Inside(closure, bumps), ByName);
  }

  lemma NameOrderTotal()
    ensures TotalOrder(ByName)
  {
    StringOrderTotal();
    forall a: Bump, b: Bump ensures ByName(a, b) || ByName(b, a) { StringLeTotal(a.name, b.name); }
    forall a: Bump, b: Bump, c: Bump | ByName(a, b) && ByName(b, c) ensures ByName(a, c) {
      StringLeTransitive(a.name, b.name, c.name);
    }
  }

  /** `v` has a higher major than `base`; a higher major or minor; is higher. */
  ghost predicate MajorAbove(base: Version, v: Version) {
    v.major > base.major
  }

  ghost predicate MinorAbove(base: Version, v: Version) {
    v.major > base.major || (v.major == base.major && v.minor > base.minor)
  }

  ghost predicate Above(base: Version, v: Version) {
    MinorAbove(base, v) || (v.major == base.major && v.minor == base.minor && v.patch > base.patch)
  }

  /** The chosen version answers every crate in the closure in kind: a new crate or a
      minor bump with a minor, a major with a major, anything else with a higher one. */
  lemma AnswersEveryCrate(closure: set<string>, bumps: seq<Bump>, cliBase: string, cliHead: string, b: Bump)
    requires forall c :: c in bumps ==> c.before != Some(c.after)
    requires Plan(closure, bumps, cliBase, cliHead).Ok?
    requires b in bumps && b.name in closure && b.name != "faucet-cli"
    ensures Parse(cliBase).Some? && Parse(Plan(closure, bumps, cliBase, cliHead).value.0).Some?
    ensures var base, v := Parse(cliBase).value, Parse(Plan(closure, bumps, cliBase, cliHead).value.0).value;
            && Above(base, v)
            && (b.before.None? ==> MinorAbove(base, v))
            && (b.before.Some? && Parse(b.before.value).Some? && Parse(b.after).Some? ==>
                  var o, n := Parse(b.before.value).value, Parse(b.after).value;
                  && (MajorAbove(o, n) ==> MajorAbove(base, v))
                  && (MinorAbove(o, n) ==> MinorAbove(base, v)))
  {
    hide Crates, Parse, Show, BumpLevel, LeastBump, Plan;
    CrateIs(closure, bumps, b);
    CratesBumped(closure, bumps);
    PlanLists(closure, bumps, cliBase, cliHead);
    var level := PlanIsLeast(closure, bumps, cliBase, cliHead);
    var crates := Crates(closure, bumps);
    var i :| 0 <= i < |crates| && crates[i] == b;
    var l :| BumpLevel(crates[i].before, crates[i].after) == Ok(Some(l)) && Rank(l) <= Rank(level);
    LevelIs(b, l);
    NextAbove(Parse(cliBase).value, level, Parse(Plan(closure, bumps, cliBase, cliHead).value.0).value);
  }

  lemma PlanLists(closure: set<string>, bumps: seq<Bump>, cliBase: string, cliHead: string)
    requires forall c :: c in bumps ==> c.before != Some(c.after)
    requires Plan(closure, bumps, cliBase, cliHead).Ok?
    ensures Plan(closure, bumps, cliBase, cliHead).value.1 == Crates(closure, bumps)
  {
    hide Crates, Parse, Show, Levels;
    CratesBumped(closure, bumps);
  }

  lemma LevelIs(b: Bump, l: Level)
    requires BumpLevel(b.before, b.after) == Ok(Some(l))
    ensures b.before.None? ==> Rank(l) >= 2
    ensures b.before.Some? && Parse(b.before.value).Some? && Parse(b.after).Some? ==>
              var o, n := Parse(b.before.value).value, Parse(b.after).value;
              && (MajorAbove(o, n) ==> Rank(l) >= 3)
              && (MinorAbove(o, n) ==> Rank(l) >= 2)
  {
    hide Parse;
  }

  lemma NextAbove(base: Version, level: Level, v: Version)
    requires Le(Next(base, level), v)
    ensures Above(base, v)
    ensures Rank(level) >= 2 ==> MinorAbove(base, v)
    ensures Rank(level) >= 3 ==> MajorAbove(base, v)
  {
  }

  /** With readable bumps in the closure, an unreadable version is reported: the base's,
      unless the PR's is unreadable and is either looked at first, for a major, or alone. */
  lemma UnreadableVersions(closure: set<string>, bumps: seq<Bump>, cliBase: string, cliHead: string)
    requires forall b :: b in bumps ==> b.before != Some(b.after)
    requires forall b :: b in bumps && b.name in closure && b.name != ROOT ==> BumpLevel(b.before, b.after).Ok?
    requires exists b :: b in bumps && b.name in closure && b.name != ROOT
    requires Parse(cliBase).None? || Parse(cliHead).None?
    ensures var major := exists b :: b in bumps && b.name in closure && b.name != ROOT
                                     && BumpLevel(b.before, b.after) == Ok(Some(Major));
            Plan(closure, bumps, cliBase, cliHead)
            == Err(BadVersion(Unsupported(
                 if Parse(cliHead).None? && (major || Parse(cliBase).Some?) then cliHead else cliBase)))
  {
    hide Parse, Show, BumpLevel, Crates, Levels;
    var crates := Crates(closure, bumps);
    var b :| b in bumps && b.name in closure && b.name != ROOT;
    CrateIs(closure, bumps, b);
    CratesBumped(closure, bumps);
    forall i | 0 <= i < |crates| ensures BumpLevel(crates[i].before, crates[i].after).Ok? {
      CrateIs(closure, bumps, crates[i]);
    }
    LevelsOk(crates);
    MajorAmong(closure, bumps);
  }

  lemma MajorAmong(closure: set<string>, bumps: seq<Bump>)
    requires forall b :: b in bumps ==> b.before != Some(b.after)
    requires forall i :: 0 <= i < |Crates(closure, bumps)| ==>
               Crates(closure, bumps)[i].before != Some(Crates(closure, bumps)[i].after)
    requires Levels(Crates(closure, bumps)).Ok?
    ensures Major in Levels(Crates(closure, bumps)).value <==>
            exists b :: b in bumps && b.name in closure && b.name != ROOT
                        && BumpLevel(b.before, b.after) == Ok(Some(Major))
  {
    hide BumpLevel, Crates;
    var crates := Crates(closure, bumps);
    var levels := Levels(crates).value;
    if Major in levels {
      var i :| 0 <= i < |levels| && levels[i] == Major;
      CrateIs(closure, bumps, crates[i]);
    }
    forall b | b in bumps && b.name in closure && b.name != ROOT && BumpLevel(b.before, b.after) == Ok(Some(Major))
      ensures Major in levels
    {
      CrateIs(closure, bumps, b);
      var i :| 0 <= i < |crates| && crates[i] == b;
      assert levels[i] == Major;
    }
  }
}
