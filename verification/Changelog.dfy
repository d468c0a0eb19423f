/** The changelog rewriter (scripts/release-cli-bump.py `update_changelog`) and the
    reader that must agree with it (scripts/release-notes.py `changelog_section`). */
module Changelog {
  import opened Outcomes
  import opened Text
  import opened Lines
  import opened Versions
  import RP = ReleasePlan

  const DEPS_HEADING := "### Dependencies"

  // ── Headings ───────────────────────────────────────────────────────────────

  /** A `## [X.Y.Z]` heading: the version as written, and what follows the optional link. */
  datatype Heading = Heading(text: string, version: Version, tail: string)

  /** Position of the first `)`, or the length. */
  function Paren(s: string): (i: nat)
    ensures i <= |s| && (i < |s| <==> ')' in s)
    ensures i < |s| ==> s[i] == ')'
  {
    if s == "" || s[0] == ')' then 0 else 1 + Paren(s[1..])
  }

  /** `(\([^)]*\))?(.*)`: what is left after an optional link. */
  function AfterLink(s: string): string {
    if s != "" && s[0] == '(' && Paren(s) < |s| then s[Paren(s) + 1..] else s
  }

  /** `^## \[(\d+\.\d+\.\d+)\](\([^)]*\))?(.*)$` on one line. */
  function ReadHeading(line: string): Option<Heading> {
    if !StartsWith(line, "## [") then None
    else
      var rest := line[4..];
      match VersionPrefix(rest)
      case None => None
      case Some((v, after)) =>
        if after != "" && after[0] == ']'
        then Some(Heading(rest[..|rest| - |after|], v, AfterLink(after[1..]))) else None
  }

  predicate IsHeading(line: string) {
    ReadHeading(line).Some?
  }

  predicate IsSection(line: string) {
    StartsWith(line, "## ")
  }

  // ── Finding sections ───────────────────────────────────────────────────────

  /** Index of the first line that satisfies `p`, or the length. */
  function FirstWhere(lines: seq<string>, p: string -> bool): (i: nat)
    ensures i <= |lines|
    ensures i < |lines| ==> p(lines[i])
    ensures forall j :: 0 <= j < i ==> !p(lines[j])
  {
    if lines == [] || p(lines[0]) then 0 else 1 + FirstWhere(lines[1..], p)
  }

  /** Index of the first version heading, or the length. */
  function FirstHeading(lines: seq<string>): (i: nat)
    ensures i <= |lines|
    ensures i < |lines| ==> IsHeading(lines[i])
    ensures forall j :: 0 <= j < i ==> !IsHeading(lines[j])
  {
    FirstWhere(lines, IsHeading)
  }

  /** Index of the first `## ` line, or the length. */
  function FirstSection(lines: seq<string>): (i: nat)
    ensures i <= |lines|
    ensures i < |lines| ==> IsSection(lines[i])
    ensures forall j :: 0 <= j < i ==> !IsSection(lines[j])
  {
    FirstWhere(lines, IsSection)
  }

  predicate Names(line: string, version: string) {
    IsHeading(line) && ReadHeading(line).value.text == version
  }

  /** Index of the heading that names `version`, or the length. */
  function FirstNamed(lines: seq<string>, version: string): (i: nat)
    ensures i <= |lines|
    ensures i < |lines| ==> Names(lines[i], version)
    ensures forall j :: 0 <= j < i ==> !Names(lines[j], version)
  {
    FirstWhere(lines, line => Names(line, version))
  }

  /** The lines up to the next section. */
  function Body(lines: seq<string>): seq<string> {
    lines[..FirstSection(lines)]
  }

  // ── The Dependencies block ─────────────────────────────────────────────────

  predicate IsDeps(line: string) {
    Strip(line) == DEPS_HEADING
  }

  /** Drop every Dependencies block: its heading and the lines up to the next `#`. */
  function WithoutDeps(lines: seq<string>, skipping: bool): seq<string> {
    if lines == [] then []
    else if IsDeps(lines[0]) then WithoutDeps(lines[1..], true)
    else if skipping && !StartsWith(lines[0], "#") then WithoutDeps(lines[1..], true)
    else [lines[0]] + WithoutDeps(lines[1..], false)
  }

  function DropEmptyEnd(lines: seq<string>): (r: seq<string>)
    ensures r != [] ==> r[|r| - 1] != ""
  {
    if lines != [] && lines[|lines| - 1] == "" then DropEmptyEnd(lines[..|lines| - 1]) else lines
  }

  // ── The rewriter ───────────────────────────────────────────────────────────

  function Parts(crates: seq<RP.Bump>): seq<string> {
    if crates == [] then []
    else
      var c := crates[0];
      [match c.before
       case None => c.name + (" " + (c.after + " (new)"))
       case Some(o) => c.name + (" " + (o + (" \U{2192} " + c.after)))] + Parts(crates[1..])
  }

  function DependencyLine(crates: seq<RP.Bump>): string {
    "- Bumped with: " + Join(Parts(crates), ", ")
  }

  function Link(repo: string, base: string, version: string): string {
    "https://github.com/" + (repo + ("/compare/faucet-cli-v" + (base + ("...faucet-cli-v" + version))))
  }

  function Title(version: string, link: string, tail: string): string {
    "## [" + (version + ("](" + (link + (")" + tail))))
  }

  function Block(deps: string): seq<string> {
    [DEPS_HEADING, "", deps, ""]
  }

  /** Put faucet-cli's section first, with a regenerated Dependencies block. */
  function Updated(lines: seq<string>, base: Version, version: string, link: string, deps: string, today: string)
    : seq<string>
  {
    var first := FirstHeading(lines);
    if first == |lines| || Le(ReadHeading(lines[first]).value.version, base) then
      lines[..first] + ([Title(version, link, " - " + today), ""] + Block(deps)) + lines[first..]
    else
      var top := ReadHeading(lines[first]).value;
      var rest := lines[first + 1..];
      var end := FirstSection(rest);
      var kept := DropEmptyEnd(WithoutDeps(rest[..end], false));
      lines[..first] + ([Title(version, link, top.tail)] + kept + [""] + Block(deps)) + rest[end..]
  }

  /** The section of a version, without its Dependencies block. */
  function SectionOf(lines: seq<string>, version: string): seq<string> {
    var i := FirstNamed(lines, version);
    if i == |lines| then [] else WithoutDeps(Body(lines[i + 1..]), false)
  }

  // ── Reading a title back ───────────────────────────────────────────────────

  lemma {:induction false} ParenAt(a: string, rest: string)
    requires ')' !in a
    ensures Paren(a + (")" + rest)) == |a|
  {
    if a == "" {
      assert a + (")" + rest) == ")" + rest;
    } else {
      ParenAt(a[1..], rest);
      assert (a + (")" + rest))[1..] == a[1..] + (")" + rest);
    }
  }

  lemma {:induction false} ParenInside(a: string, rest: string)
    requires ')' in a
    ensures Paren(a + rest) < |a|
  {
    if a[0] != ')' {
      ParenInside(a[1..], rest);
      assert (a + rest)[1..] == a[1..] + rest;
    }
  }

  /** What the heading pattern leaves of the text after the version. */
  lemma AfterTitleLink(link: string, tail: string)
    ensures AfterLink("(" + (link + (")" + tail))) == tail <==> ')' !in link
  {
    var s := "(" + (link + (")" + tail));
    if ')' in link {
      assert s == ("(" + link) + (")" + tail);
      ParenInside("(" + link, ")" + tail);
      assert |AfterLink(s)| > |tail|;
    } else {
      assert s == ("(" + link) + (")" + tail);
      ParenAt("(" + link, tail);
      assert s[|link| + 2..] == tail;
    }
  }

  lemma TitleReads(version: string, link: string, tail: string)
    requires Parse(version).Some?
    ensures ReadHeading(Title(version, link, tail))
         == Some(Heading(version, Parse(version).value, AfterLink("(" + (link + (")" + tail)))))
    ensures IsSection(Title(version, link, tail))
  {
    hide Parse, VersionPrefix, AfterLink;
    var linked := "(" + (link + (")" + tail));
    var after := "]" + linked;
    TitleSplit(version, link, tail);
    ParseExtends(version, after);
  }

  lemma TitleSplit(version: string, link: string, tail: string)
    ensures var line := Title(version, link, tail);
            && StartsWith(line, "## [") && StartsWith(line, "## ")
            && line[4..] == version + ("]" + ("(" + (link + (")" + tail))))
  {
    var rest := version + ("]" + ("(" + (link + (")" + tail))));
    assert Title(version, link, tail) == "## [" + rest;
    assert ("## [" + rest)[..3] == "## ";
  }

  lemma TitleTail(version: string, link: string, a: string, b: string)
    ensures Title(version, link, a) == Title(version, link, b) <==> a == b
  {
    if Title(version, link, a) == Title(version, link, b) {
      var p := "## [" + (version + ("](" + (link + ")")));
      assert Title(version, link, a) == p + a && Title(version, link, b) == p + b;
      assert a == (p + a)[|p|..] == (p + b)[|p|..] == b;
    }
  }

  // ── The Dependencies block ─────────────────────────────────────────────────

  lemma DepsHeadingIsDeps()
    ensures IsDeps(DEPS_HEADING) && !IsDeps("")
  {
  }

  lemma NotSections(deps: string)
    requires StartsWith(deps, "- ")
    ensures !IsSection(DEPS_HEADING) && !IsSection("") && !IsSection(deps) && !StartsWith(deps, "#")
  {
    assert DEPS_HEADING[..3][2] == '#' && "## "[2] == ' ';
    assert deps[0] == deps[..2][0] == '-';
  }

  ghost predicate NoDeps(lines: seq<string>) {
    forall i :: 0 <= i < |lines| ==> !IsDeps(lines[i])
  }

  lemma {:induction false} WithoutDepsOfClean(kept: seq<string>, rest: seq<string>)
    requires NoDeps(kept)
    ensures WithoutDeps(kept + rest, false) == kept + WithoutDeps(rest, false)
  {
    hide IsDeps;
    if kept == [] {
      assert kept + rest == rest;
    } else {
      WithoutDepsOfClean(kept[1..], rest);
      assert (kept + rest)[1..] == kept[1..] + rest;
    }
  }

  lemma {:induction false} WithoutDepsMembers(lines: seq<string>, skipping: bool)
    ensures NoDeps(WithoutDeps(lines, skipping))
    ensures forall l :: l in WithoutDeps(lines, skipping) ==> l in lines
  {
    hide IsDeps;
    if lines != [] {
      WithoutDepsMembers(lines[1..], true);
      WithoutDepsMembers(lines[1..], false);
    }
  }

  lemma {:induction false} DropEmptyEndPrefix(lines: seq<string>)
    ensures DropEmptyEnd(lines) <= lines
    ensures Strip(Unsplit(DropEmptyEnd(lines))) == Strip(Unsplit(lines))
  {
    if lines != [] && lines[|lines| - 1] == "" {
      var init := lines[..|lines| - 1];
      DropEmptyEndPrefix(init);
      assert lines == init + [""];
      StripEmptyLine(init);
    }
  }

  /** The regenerated block disappears when the section is read. */
  lemma BlockVanishes(kept: seq<string>, deps: string)
    requires NoDeps(kept) && !StartsWith(deps, "#")
    ensures WithoutDeps(kept + [""] + Block(deps), false) == kept + [""]
  {
    DepsHeadingIsDeps();
    hide IsDeps;
    var b := Block(deps);
    assert kept + [""] + b == kept + ([""] + b);
    WithoutDepsOfClean(kept, [""] + b);
    assert ([""] + b)[1..] == b;
    assert b[1..] == ["", deps, ""] && ["", deps, ""][1..] == [deps, ""] && [deps, ""][1..] == [""] && [""][1..] == [];
    assert WithoutDeps([""], true) == [];
    assert WithoutDeps([deps, ""], true) == [];
    assert WithoutDeps(["", deps, ""], true) == [];
    assert WithoutDeps(b, false) == [];
    assert WithoutDeps([""] + b, false) == [""];
  }

  lemma DropEmptyEndOf(kept: seq<string>)
    requires kept != [] ==> kept[|kept| - 1] != ""
    ensures DropEmptyEnd(kept + [""]) == kept
  {
    assert (kept + [""])[..|kept + [""]| - 1] == kept;
  }

  // ── The shape every rewrite has ────────────────────────────────────────────

  ghost predicate NoHeadings(lines: seq<string>) {
    forall i :: 0 <= i < |lines| ==> !IsHeading(lines[i])
  }

  ghost predicate NoSections(lines: seq<string>) {
    forall i :: 0 <= i < |lines| ==> !IsSection(lines[i])
  }

  /** What is around and inside the faucet-cli section: the preamble, the heading's
      tail, the entries kept, and the later sections. */
  datatype Shape = Shape(pre: seq<string>, tail: string, kept: seq<string>, post: seq<string>)

  function Section(sh: Shape, deps: string): seq<string> {
    sh.kept + [""] + Block(deps)
  }

  function Laid(sh: Shape, version: string, link: string, deps: string): seq<string> {
    sh.pre + ([Title(version, link, sh.tail)] + (Section(sh, deps) + sh.post))
  }

  ghost predicate ValidShape(sh: Shape) {
    && NoHeadings(sh.pre)
    && NoSections(sh.kept) && NoDeps(sh.kept) && (sh.kept != [] ==> sh.kept[|sh.kept| - 1] != "")
    && (sh.post != [] ==> IsSection(sh.post[0]))
  }

  /** The shape a rewrite of `lines` has. */
  function ShapeOf(lines: seq<string>, base: Version, today: string): Shape {
    var first := FirstHeading(lines);
    if first == |lines| || Le(ReadHeading(lines[first]).value.version, base) then
      Shape(lines[..first], " - " + today, [], lines[first..])
    else
      var rest := lines[first + 1..];
      var end := FirstSection(rest);
      Shape(lines[..first], ReadHeading(lines[first]).value.tail, DropEmptyEnd(WithoutDeps(rest[..end], false)), rest[end..])
  }

  lemma HeadingIsSection(line: string)
    requires IsHeading(line)
    ensures IsSection(line)
  {
    assert line[..3] == line[..4][..3] == "## [" [..3] == "## ";
  }

  lemma UpdatedShape(lines: seq<string>, base: Version, version: string, link: string, deps: string, today: string)
    ensures Updated(lines, base, version, link, deps, today) == Laid(ShapeOf(lines, base, today), version, link, deps)
    ensures ValidShape(ShapeOf(lines, base, today))
  {
    hide ReadHeading, Title, WithoutDeps, DropEmptyEnd, IsDeps, IsSection;
    var first := FirstHeading(lines);
    var sh := ShapeOf(lines, base, today);
    if first == |lines| || Le(ReadHeading(lines[first]).value.version, base) {
      if first < |lines| { HeadingIsSection(lines[first]); }
      assert [Title(version, link, sh.tail), ""] + Block(deps) == [Title(version, link, sh.tail)] + Section(sh, deps);
    } else {
      KeptIsClean(lines[first + 1..]);
    }
    LaidAssociates(sh, Title(version, link, sh.tail), deps);
  }

  lemma LaidAssociates(sh: Shape, title: string, deps: string)
    ensures sh.pre + ([title] + sh.kept + [""] + Block(deps)) + sh.post
         == sh.pre + ([title] + (Section(sh, deps) + sh.post))
    ensures sh.pre + ([title] + Section(sh, deps)) + sh.post
         == sh.pre + ([title] + (Section(sh, deps) + sh.post))
  {
  }

  lemma KeptIsClean(rest: seq<string>)
    ensures var kept := DropEmptyEnd(WithoutDeps(Body(rest), false));
            NoDeps(kept) && NoSections(kept)
  {
    hide IsDeps, IsSection;
    var w := WithoutDeps(Body(rest), false);
    WithoutDepsMembers(Body(rest), false);
    DropEmptyEndPrefix(w);
    var kept := DropEmptyEnd(w);
    forall i | 0 <= i < |kept| ensures !IsDeps(kept[i]) && !IsSection(kept[i]) {
      assert kept[i] == w[i];
      assert w[i] in Body(rest);
    }
  }

  // ── Finding the section again ──────────────────────────────────────────────

  lemma {:induction false} FirstHeadingAt(pre: seq<string>, title: string, rest: seq<string>)
    requires NoHeadings(pre) && IsHeading(title)
    ensures FirstHeading(pre + ([title] + rest)) == |pre|
  {
    hide ReadHeading;
    if pre == [] {
      assert pre + ([title] + rest) == [title] + rest;
    } else {
      FirstHeadingAt(pre[1..], title, rest);
      assert (pre + ([title] + rest))[1..] == pre[1..] + ([title] + rest);
    }
  }

  lemma {:induction false} FirstSectionAt(sec: seq<string>, post: seq<string>)
    requires NoSections(sec) && (post != [] ==> IsSection(post[0]))
    ensures FirstSection(sec + post) == |sec|
  {
    hide IsSection;
    if sec == [] {
      assert sec + post == post;
    } else {
      FirstSectionAt(sec[1..], post);
      assert (sec + post)[1..] == sec[1..] + post;
    }
  }

  lemma SectionHasNone(sh: Shape, deps: string)
    requires ValidShape(sh) && StartsWith(deps, "- ")
    ensures NoSections(Section(sh, deps))
  {
    NotSections(deps);
    hide IsSection;
  }

  /** Looking for the section in a rewritten changelog. */
  lemma Refound(sh: Shape, version: string, link: string, deps: string)
    requires ValidShape(sh) && Parse(version).Some? && StartsWith(deps, "- ")
    ensures var u := Laid(sh, version, link, deps);
            && FirstHeading(u) == |sh.pre| < |u|
            && u[|sh.pre|] == Title(version, link, sh.tail)
            && u[..|sh.pre|] == sh.pre
            && u[|sh.pre| + 1..] == Section(sh, deps) + sh.post
            && FirstSection(u[|sh.pre| + 1..]) == |Section(sh, deps)|
  {
    hide ReadHeading, IsSection, IsDeps, Title, Parse;
    TitleReads(version, link, sh.tail);
    FirstHeadingAt(sh.pre, Title(version, link, sh.tail), Section(sh, deps) + sh.post);
    SectionHasNone(sh, deps);
    FirstSectionAt(Section(sh, deps), sh.post);
  }

  /** Rewriting a rewritten changelog changes only what the link leaves in the tail. */
  lemma Relaid(sh: Shape, base: Version, version: string, link: string, deps: string, today: string)
    requires ValidShape(sh) && Parse(version).Some? && StartsWith(deps, "- ")
    requires !Le(Parse(version).value, base)
    ensures ShapeOf(Laid(sh, version, link, deps), base, today)
         == sh.(tail := AfterLink("(" + (link + (")" + sh.tail))))
  {
    hide Parse, AfterLink, WithoutDeps, DropEmptyEnd, IsDeps, Laid, ValidShape, Block, Title, IsSection;
    var u := Laid(sh, version, link, deps);
    Refound(sh, version, link, deps);
    TitleReads(version, link, sh.tail);
    NotSections(deps);
    var rest := u[|sh.pre| + 1..];
    assert rest[..|Section(sh, deps)|] == Section(sh, deps) && rest[|Section(sh, deps)|..] == sh.post;
    ShapeKept(sh);
    BlockVanishes(sh.kept, deps);
    DropEmptyEndOf(sh.kept);
  }

  lemma ShapeKept(sh: Shape)
    requires ValidShape(sh)
    ensures NoDeps(sh.kept) && (sh.kept != [] ==> sh.kept[|sh.kept| - 1] != "")
  {
  }

  // ── Whole texts ────────────────────────────────────────────────────────────

  function UpdateText(text: string, cliBase: string, cliNew: string, crates: seq<RP.Bump>, today: string, repo: string)
    : string
    requires Parse(cliBase).Some?
  {
    Unsplit(Updated(Split(text), Parse(cliBase).value, cliNew, Link(repo, cliBase, cliNew), DependencyLine(crates), today))
  }

  function SectionText(text: string, version: string): string {
    Strip(Unsplit(SectionOf(Split(text), version)))
  }

  /** The arguments of a release run: a new version above the base, nothing with a
      line break in it. */
  ghost predicate ValidRun(cliBase: string, cliNew: string, crates: seq<RP.Bump>, today: string, repo: string) {
    && Parse(cliBase).Some? && Parse(cliNew).Some? && !Le(Parse(cliNew).value, Parse(cliBase).value)
    && OneLine(repo) && OneLine(today) && OneLine(DependencyLine(crates))
  }

  /** The version `plan` chooses meets the rewriter's premise. */
  lemma PlannedVersionIsAbove(closure: set<string>, bumps: seq<RP.Bump>, cliBase: string, cliHead: string)
    requires forall b :: b in bumps ==> b.before != Some(b.after)
    requires RP.Plan(closure, bumps, cliBase, cliHead).Ok? && RP.Plan(closure, bumps, cliBase, cliHead).value.1 != []
    ensures var version := RP.Plan(closure, bumps, cliBase, cliHead).value.0;
            && Parse(cliBase).Some? && Parse(version).Some?
            && !Le(Parse(version).value, Parse(cliBase).value)
  {
    hide RP.Plan, Parse;
    var level := RP.PlanIsLeast(closure, bumps, cliBase, cliHead);
    var base, version := Parse(cliBase).value, RP.Plan(closure, bumps, cliBase, cliHead).value.0;
    RP.PlanExceedsBase(base, Parse(cliHead).value, level, version);
  }

  lemma VersionIsOneLine(s: string)
    requires Parse(s).Some?
    ensures OneLine(s) && ')' !in s
  {
    hide Parse;
    ParseText(s);
  }

  lemma LinkText(repo: string, base: string, version: string)
    requires Parse(base).Some? && Parse(version).Some?
    ensures OneLine(repo) ==> OneLine(Link(repo, base, version))
    ensures ')' in Link(repo, base, version) <==> ')' in repo
  {
    hide Parse;
    VersionIsOneLine(base);
    VersionIsOneLine(version);
  }

  lemma DependencyLineStarts(crates: seq<RP.Bump>)
    ensures StartsWith(DependencyLine(crates), "- ")
  {
    assert "- Bumped with: "[..2] == "- ";
    assert DependencyLine(crates)[..2] == "- Bumped with: "[..2];
  }

  lemma TailOneLine(line: string)
    requires OneLine(line) && IsHeading(line)
    ensures OneLine(ReadHeading(line).value.tail)
  {
    hide VersionPrefix;
    var rest := line[4..];
    var after := VersionPrefix(rest).value.1;
    VersionPrefixSuffix(rest);
    SuffixOneLine(line, 4);
    SuffixOneLine(rest, |rest| - |after|);
    SuffixOneLine(after, 1);
    var a := after[1..];
    if AfterLink(a) != a { SuffixOneLine(a, Paren(a) + 1); }
  }

  lemma SuffixOneLine(s: string, i: nat)
    requires OneLine(s) && i <= |s|
    ensures OneLine(s[i..])
  {
  }

  lemma VersionPrefixSuffix(s: string)
    requires VersionPrefix(s).Some?
    ensures VersionPrefix(s).value.1 == s[|s| - |VersionPrefix(s).value.1|..]
  {
    var r1 := NumberDot(s).value.1;
    var r2 := NumberDot(r1).value.1;
    assert r1 == s[|s| - |r1|..] && r2 == r1[|r1| - |r2|..];
  }

  lemma ShapeLines(lines: seq<string>, base: Version, today: string)
    requires AllLines(lines) && OneLine(today)
    ensures var sh := ShapeOf(lines, base, today);
            AllLines(sh.pre) && OneLine(sh.tail) && AllLines(sh.kept) && AllLines(sh.post)
  {
    hide ReadHeading, WithoutDeps, DropEmptyEnd, OneLine;
    var first := FirstHeading(lines);
    var sh := ShapeOf(lines, base, today);
    DateTail(today);
    if !(first == |lines| || Le(ReadHeading(lines[first]).value.version, base)) {
      TailOneLine(lines[first]);
      var body := Body(lines[first + 1..]);
      var w := WithoutDeps(body, false);
      WithoutDepsMembers(body, false);
      DropEmptyEndPrefix(w);
      forall i | 0 <= i < |sh.kept| ensures OneLine(sh.kept[i]) {
        assert sh.kept[i] == w[i] && w[i] in body;
      }
    }
  }

  lemma DateTail(today: string)
    requires OneLine(today)
    ensures OneLine(" - " + today)
  {
  }

  lemma LaidLines(sh: Shape, version: string, link: string, deps: string)
    requires AllLines(sh.pre) && OneLine(sh.tail) && AllLines(sh.kept) && AllLines(sh.post)
    requires OneLine(version) && OneLine(link) && OneLine(deps)
    ensures Laid(sh, version, link, deps) != [] && AllLines(Laid(sh, version, link, deps))
  {
    BlockLines(deps);
    hide OneLine, Title, Block;
  }

  lemma BlockLines(deps: string)
    requires OneLine(deps)
    ensures AllLines(Block(deps)) && AllLines([""])
  {
  }

  /** The rewritten text's lines are the laid-out shape of the original's. */
  lemma UpdatedLines(text: string, cliBase: string, cliNew: string, crates: seq<RP.Bump>, today: string, repo: string)
    requires ValidRun(cliBase, cliNew, crates, today, repo)
    ensures var sh := ShapeOf(Split(text), Parse(cliBase).value, today);
            && ValidShape(sh) && OneLine(sh.tail)
            && AllLines(sh.pre) && AllLines(sh.kept) && AllLines(sh.post)
            && Split(UpdateText(text, cliBase, cliNew, crates, today, repo))
               == Laid(sh, cliNew, Link(repo, cliBase, cliNew), DependencyLine(crates))
  {
    hide Parse, Link, DependencyLine, Laid, ShapeOf, Updated, OneLine, ValidShape;
    var base, link, deps := Parse(cliBase).value, Link(repo, cliBase, cliNew), DependencyLine(crates);
    var sh := ShapeOf(Split(text), base, today);
    VersionIsOneLine(cliNew);
    LinkText(repo, cliBase, cliNew);
    ShapeLines(Split(text), base, today);
    UpdatedShape(Split(text), base, cliNew, link, deps, today);
    LaidLines(sh, cliNew, link, deps);
    SplitUnsplit(Laid(sh, cliNew, link, deps));
  }

  /** Running the rewriter again, on any later date, changes nothing, exactly when
      the repository name holds no `)` (which would end the heading's link early). */
  lemma UpdateIdempotent(text: string, cliBase: string, cliNew: string, crates: seq<RP.Bump>, today: string,
                         later: string, repo: string)
    requires ValidRun(cliBase, cliNew, crates, today, repo) && OneLine(later)
    ensures var once := UpdateText(text, cliBase, cliNew, crates, today, repo);
            UpdateText(once, cliBase, cliNew, crates, later, repo) == once <==> ')' !in repo
  {
    hide Parse, Link, DependencyLine, Laid, ShapeOf, OneLine, ValidShape, Updated, AfterLink;
    var base, link, deps := Parse(cliBase).value, Link(repo, cliBase, cliNew), DependencyLine(crates);
    var once := UpdateText(text, cliBase, cliNew, crates, today, repo);
    var sh := ShapeOf(Split(text), base, today);
    UpdatedLines(text, cliBase, cliNew, crates, today, repo);
    UpdatedLines(once, cliBase, cliNew, crates, later, repo);
    DependencyLineStarts(crates);
    Relaid(sh, base, cliNew, link, deps, later);
    LinkText(repo, cliBase, cliNew);
    AfterTitleLink(link, sh.tail);
    var tail' := AfterLink("(" + (link + (")" + sh.tail)));
    LaidDiffers(sh, tail', cliNew, link, deps);
    LaidText(text, cliBase, cliNew, crates, today, repo);
    LaidText(once, cliBase, cliNew, crates, later, repo);
  }

  lemma LaidText(text: string, cliBase: string, cliNew: string, crates: seq<RP.Bump>, today: string, repo: string)
    requires ValidRun(cliBase, cliNew, crates, today, repo)
    ensures UpdateText(text, cliBase, cliNew, crates, today, repo)
         == Unsplit(Laid(ShapeOf(Split(text), Parse(cliBase).value, today), cliNew, Link(repo, cliBase, cliNew),
                         DependencyLine(crates)))
  {
    hide Parse, Link, DependencyLine, Laid, ShapeOf, OneLine, ValidShape, Updated;
    UpdatedShape(Split(text), Parse(cliBase).value, cliNew, Link(repo, cliBase, cliNew), DependencyLine(crates), today);
  }

  lemma LaidDiffers(sh: Shape, tail: string, version: string, link: string, deps: string)
    ensures Laid(sh.(tail := tail), version, link, deps) == Laid(sh, version, link, deps) <==> tail == sh.tail
  {
    hide Block, Title;
    TitleTail(version, link, tail, sh.tail);
    assert Laid(sh.(tail := tail), version, link, deps)[|sh.pre|] == Title(version, link, tail);
    assert Laid(sh, version, link, deps)[|sh.pre|] == Title(version, link, sh.tail);
  }

  // ── The reader agrees ──────────────────────────────────────────────────────

  lemma {:induction false} FirstNamedSkips(a: seq<string>, b: seq<string>, version: string)
    requires forall i :: 0 <= i < |a| ==> !Names(a[i], version)
    ensures FirstNamed(a + b, version) == |a| + FirstNamed(b, version)
  {
    hide Names;
    if a == [] {
      assert a + b == b;
    } else {
      FirstNamedSkips(a[1..], b, version);
      assert (a + b)[1..] == a[1..] + b;
    }
  }

  /** Lines that name another version, or none, do not change what is read. */
  lemma SectionSkips(a: seq<string>, b: seq<string>, version: string)
    requires forall i :: 0 <= i < |a| ==> !Names(a[i], version)
    ensures SectionOf(a + b, version) == SectionOf(b, version)
  {
    hide Names, WithoutDeps, Body;
    FirstNamedSkips(a, b, version);
    var i := FirstNamed(b, version);
    if i < |b| { assert (a + b)[|a| + i + 1..] == b[i + 1..]; }
  }

  lemma UnnamedWithoutHeadings(lines: seq<string>, version: string)
    requires NoHeadings(lines) || NoSections(lines)
    ensures forall i :: 0 <= i < |lines| ==> !Names(lines[i], version)
  {
    hide ReadHeading;
    forall i | 0 <= i < |lines| ensures !Names(lines[i], version) {
      if IsHeading(lines[i]) { HeadingIsSection(lines[i]); }
    }
  }

  /** The section the reader finds under a heading it is looking for. */
  lemma SectionHere(pre: seq<string>, title: string, sec: seq<string>, post: seq<string>, version: string)
    requires NoHeadings(pre) && Names(title, version) && NoSections(sec) && (post != [] ==> IsSection(post[0]))
    ensures SectionOf(pre + ([title] + (sec + post)), version) == WithoutDeps(sec, false)
  {
    hide Names, WithoutDeps, IsSection;
    UnnamedWithoutHeadings(pre, version);
    var rest := [title] + (sec + post);
    SectionSkips(pre, rest, version);
    assert FirstNamed(rest, version) == 0 && rest[1..] == sec + post;
    FirstSectionAt(sec, post);
    assert (sec + post)[..|sec|] == sec;
  }

  /** The original lines, cut where the rewriter cuts them. */
  lemma CutAtHeading(lines: seq<string>, first: nat)
    requires first == FirstHeading(lines) < |lines|
    ensures var rest := lines[first + 1..];
            lines == lines[..first] + ([lines[first]] + (Body(rest) + rest[FirstSection(rest)..]))
  {
    hide FirstHeading, FirstSection, Body, IsHeading, IsSection;
    var rest := lines[first + 1..];
    CutBody(rest);
    assert lines == lines[..first] + ([lines[first]] + rest);
  }

  lemma CutBody(rest: seq<string>)
    ensures rest == Body(rest) + rest[FirstSection(rest)..]
  {
    hide FirstSection, IsSection;
  }

  /** What the rewriter keeps is what the reader would have read. */
  lemma KeptIsRead(lines: seq<string>, base: Version, today: string)
    requires RenamesTop(lines, base)
    ensures Strip(Unsplit(ShapeOf(lines, base, today).kept))
         == Strip(Unsplit(SectionOf(lines, ReadHeading(lines[FirstHeading(lines)]).value.text)))
  {
    hide ReadHeading, WithoutDeps, DropEmptyEnd, IsSection, Strip, Unsplit;
    var first := FirstHeading(lines);
    var rest := lines[first + 1..];
    CutAtHeading(lines, first);
    SectionHere(lines[..first], lines[first], Body(rest), rest[FirstSection(rest)..],
                ReadHeading(lines[first]).value.text);
    DropEmptyEndPrefix(WithoutDeps(Body(rest), false));
  }

  /** Reading the new section of a rewritten changelog. */
  lemma ReadLaid(sh: Shape, version: string, link: string, deps: string)
    requires ValidShape(sh) && Parse(version).Some? && StartsWith(deps, "- ")
    ensures Strip(Unsplit(SectionOf(Laid(sh, version, link, deps), version))) == Strip(Unsplit(sh.kept))
  {
    hide ReadHeading, WithoutDeps, IsDeps, IsSection, Strip, Unsplit, Parse, Title, Block, SectionOf;
    TitleReads(version, link, sh.tail);
    SectionHasNone(sh, deps);
    NotSections(deps);
    SectionHere(sh.pre, Title(version, link, sh.tail), Section(sh, deps), sh.post, version);
    BlockVanishes(sh.kept, deps);
    StripEmptyLine(sh.kept);
  }

  /** The rewriter takes over the top section: its version is above the base. */
  predicate RenamesTop(lines: seq<string>, base: Version) {
    FirstHeading(lines) < |lines| && !Le(ReadHeading(lines[FirstHeading(lines)]).value.version, base)
  }

  predicate Renames(text: string, base: Version) {
    RenamesTop(Split(text), base)
  }

  function TopVersion(text: string): string
    requires FirstHeading(Split(text)) < |Split(text)|
  {
    ReadHeading(Split(text)[FirstHeading(Split(text))]).value.text
  }

  /** After the rewrite the reader finds, under the new version, the text it found
      before under the section taken over, and nothing in a newly inserted section. */
  lemma ReadsBack(text: string, cliBase: string, cliNew: string, crates: seq<RP.Bump>, today: string, repo: string)
    requires ValidRun(cliBase, cliNew, crates, today, repo)
    ensures SectionText(UpdateText(text, cliBase, cliNew, crates, today, repo), cliNew)
         == if Renames(text, Parse(cliBase).value) then SectionText(text, TopVersion(text)) else ""
  {
    hide Parse, Link, DependencyLine, Laid, OneLine, ValidShape, Updated, ReadHeading, SectionOf, Strip, Unsplit;
    var base := Parse(cliBase).value;
    var sh := ShapeOf(Split(text), base, today);
    UpdatedLines(text, cliBase, cliNew, crates, today, repo);
    DependencyLineStarts(crates);
    ReadLaid(sh, cliNew, Link(repo, cliBase, cliNew), DependencyLine(crates));
    if Renames(text, base) {
      KeptIsRead(Split(text), base, today);
    } else {
      StripNone();
    }
  }

  lemma StripNone()
    ensures Strip(Unsplit([])) == ""
  {
  }

  /** Every other version's section reads as before. */
  lemma OthersUntouched(text: string, cliBase: string, cliNew: string, crates: seq<RP.Bump>, today: string,
                        repo: string, version: string)
    requires ValidRun(cliBase, cliNew, crates, today, repo) && version != cliNew
    requires Renames(text, Parse(cliBase).value) ==> version != TopVersion(text)
    ensures SectionText(UpdateText(text, cliBase, cliNew, crates, today, repo), version) == SectionText(text, version)
  {
    hide Parse, Link, DependencyLine, OneLine, ValidShape, Updated, ReadHeading, SectionOf, Strip, Unsplit, Title,
         IsSection, WithoutDeps, DropEmptyEnd, Block;
    var base, lines := Parse(cliBase).value, Split(text);
    var sh := ShapeOf(lines, base, today);
    var link, deps := Link(repo, cliBase, cliNew), DependencyLine(crates);
    UpdatedLines(text, cliBase, cliNew, crates, today, repo);
    DependencyLineStarts(crates);
    OthersInLaid(sh, cliNew, link, deps, version);
    OthersInOriginal(lines, base, today, version);
  }

  lemma OthersInLaid(sh: Shape, version: string, link: string, deps: string, other: string)
    requires ValidShape(sh) && Parse(version).Some? && StartsWith(deps, "- ") && other != version
    ensures SectionOf(Laid(sh, version, link, deps), other) == SectionOf(sh.post, other)
  {
    hide ReadHeading, IsSection, IsDeps, Title, Parse, Block, SectionOf;
    var title, sec := Title(version, link, sh.tail), Section(sh, deps);
    TitleReads(version, link, sh.tail);
    SectionHasNone(sh, deps);
    UnnamedWithoutHeadings(sh.pre, other);
    UnnamedWithoutHeadings(sec, other);
    SectionSkips(sh.pre, [title] + (sec + sh.post), other);
    SectionSkips([title], sec + sh.post, other);
    SectionSkips(sec, sh.post, other);
  }

  lemma OthersInOriginal(lines: seq<string>, base: Version, today: string, other: string)
    requires RenamesTop(lines, base) ==> !Names(lines[FirstHeading(lines)], other)
    ensures SectionOf(lines, other) == SectionOf(ShapeOf(lines, base, today).post, other)
  {
    hide ShapeOf, SectionOf, Names, RenamesTop, FirstHeading, FirstSection;
    ShapePost(lines, base, today);
    if RenamesTop(lines, base) {
      SkipFirst(lines, other);
    } else {
      SkipPreamble(lines, other);
    }
  }

  /** The later sections are the original's, from the next section on. */
  lemma ShapePost(lines: seq<string>, base: Version, today: string)
    ensures var first := FirstHeading(lines);
            var post := ShapeOf(lines, base, today).post;
            if RenamesTop(lines, base) then
              first < |lines| && post == lines[first + 1..][FirstSection(lines[first + 1..])..]
            else post == lines[first..]
  {
    hide WithoutDeps, DropEmptyEnd, FirstHeading, FirstSection, ReadHeading;
  }

  lemma SkipPreamble(lines: seq<string>, other: string)
    ensures SectionOf(lines, other) == SectionOf(lines[FirstHeading(lines)..], other)
  {
    hide IsHeading, SectionOf;
    var first := FirstHeading(lines);
    UnnamedWithoutHeadings(lines[..first], other);
    assert lines == lines[..first] + lines[first..];
    SectionSkips(lines[..first], lines[first..], other);
  }

  lemma SkipFirst(lines: seq<string>, other: string)
    requires FirstHeading(lines) < |lines| && !Names(lines[FirstHeading(lines)], other)
    ensures var rest := lines[FirstHeading(lines) + 1..];
            SectionOf(lines, other) == SectionOf(rest[FirstSection(rest)..], other)
  {
    hide IsHeading, IsSection, Names, SectionOf;
    var first := FirstHeading(lines);
    var rest := lines[first + 1..];
    CutAtHeading(lines, first);
    SkipTop(lines[..first], lines[first], Body(rest), rest[FirstSection(rest)..], other);
  }

  lemma SkipTop(pre: seq<string>, top: string, body: seq<string>, post: seq<string>, other: string)
    requires NoHeadings(pre) && NoSections(body) && !Names(top, other)
    ensures SectionOf(pre + ([top] + (body + post)), other) == SectionOf(post, other)
  {
    hide Names, IsSection, SectionOf, IsHeading;
    UnnamedWithoutHeadings(pre, other);
    UnnamedWithoutHeadings(body, other);
    SectionSkips(pre, [top] + (body + post), other);
    SectionSkips([top], body + post, other);
    SectionSkips(body, post, other);
  }

  // ── Which lines the Dependencies filter keeps ──────────────────────────────

  /** A line that opens a Dependencies block or ends one. */
  predicate IsMarker(line: string) {
    IsDeps(line) || StartsWith(line, "#")
  }

  /** The nearest marker at or before line `i` is a Dependencies heading. */
  ghost predicate InDeps(lines: seq<string>, i: nat)
    requires i < |lines|
  {
    exists j :: 0 <= j <= i && IsDeps(lines[j]) && forall k :: j < k <= i ==> !IsMarker(lines[k])
  }

  /** The lines outside Dependencies blocks among the first `k`, in order. */
  ghost function Outside(lines: seq<string>, k: nat): seq<string>
    requires k <= |lines|
  {
    if k == 0 then []
    else Outside(lines, k - 1) + if InDeps(lines, k - 1) then [] else [lines[k - 1]]
  }

  lemma InDepsNext(lines: seq<string>, i: nat)
    requires i < |lines|
    ensures InDeps(lines, i) <==>
            IsDeps(lines[i]) || (i > 0 && InDeps(lines, i - 1) && !StartsWith(lines[i], "#"))
  {
    hide IsDeps;
    if InDeps(lines, i) && !IsDeps(lines[i]) {
      var j :| 0 <= j <= i && IsDeps(lines[j]) && forall k :: j < k <= i ==> !IsMarker(lines[k]);
      assert j < i && !IsMarker(lines[i]);
    }
    if i > 0 && InDeps(lines, i - 1) && !StartsWith(lines[i], "#") && !IsDeps(lines[i]) {
      var j :| 0 <= j <= i - 1 && IsDeps(lines[j]) && forall k :: j < k <= i - 1 ==> !IsMarker(lines[k]);
      assert forall k :: j < k <= i ==> !IsMarker(lines[k]);
    }
  }

  lemma {:induction false} OutsideFrom(lines: seq<string>, k: nat)
    requires k <= |lines|
    ensures Outside(lines, k) + WithoutDeps(lines[k..], k > 0 && InDeps(lines, k - 1)) == Outside(lines, |lines|)
    decreases |lines| - k
  {
    hide IsDeps, InDeps;
    if k < |lines| {
      InDepsNext(lines, k);
      assert lines[k..][0] == lines[k] && lines[k..][1..] == lines[k + 1..];
      OutsideFrom(lines, k + 1);
    }
  }

  /** The filter keeps exactly the lines outside Dependencies blocks. */
  lemma WithoutDepsIs(lines: seq<string>)
    ensures WithoutDeps(lines, false) == Outside(lines, |lines|)
  {
    OutsideFrom(lines, 0);
    assert lines[0..] == lines;
  }

  // ── The two tools ──────────────────────────────────────────────────────────

  /** Drop Dependencies blocks in one pass over the lines. */
  method KeepEntries(body: seq<string>) returns (kept: seq<string>)
    ensures kept == DropEmptyEnd(WithoutDeps(body, false))
    ensures kept == DropEmptyEnd(Outside(body, |body|))
  {
    hide IsDeps, WithoutDeps, DropEmptyEnd, Outside, StartsWith;
    WithoutDepsIs(body);
    assert body[0..] == body;
    kept := [];
    var skipping := false;
    for i := 0 to |body|
      invariant kept + WithoutDeps(body[i..], skipping) == WithoutDeps(body, false)
    {
      var line := body[i];
      assert body[i..] == [line] + body[i + 1..];
      FilterStep(line, body[i + 1..], skipping);
      if IsDeps(line) {
        skipping := true;
        continue;
      }
      if skipping && StartsWith(line, "#") { skipping := false; }
      if !skipping { kept := kept + [line]; }
    }
    NothingFiltered(skipping);
    assert body[|body|..] == [] && kept + [] == kept;
    ghost var all := kept;
    while kept != [] && kept[|kept| - 1] == ""
      invariant DropEmptyEnd(kept) == DropEmptyEnd(all)
      decreases |kept|
    {
      DropStep(kept);
      kept := kept[..|kept| - 1];
    }
    DropStep(kept);
  }

  /** What the filter does with one line. */
  lemma FilterStep(line: string, rest: seq<string>, skipping: bool)
    ensures WithoutDeps([line] + rest, skipping)
         == if IsDeps(line) || (skipping && !StartsWith(line, "#")) then WithoutDeps(rest, true)
            else [line] + WithoutDeps(rest, false)
  {
    hide IsDeps;
    assert ([line] + rest)[1..] == rest;
  }

  lemma NothingFiltered(skipping: bool)
    ensures WithoutDeps([], skipping) == []
  {
  }

  lemma DropStep(lines: seq<string>)
    ensures DropEmptyEnd(lines)
         == if lines != [] && lines[|lines| - 1] == "" then DropEmptyEnd(lines[..|lines| - 1]) else lines
  {
  }

  /** Rewrite faucet-cli's changelog for a release. */
  method UpdateChangelog(text: string, cliBase: string, cliNew: string, crates: seq<RP.Bump>, today: string,
                         repo: string)
    returns (out: string)
    requires Parse(cliBase).Some?
    ensures out == UpdateText(text, cliBase, cliNew, crates, today, repo)
  {
    hide ReadHeading, Title, Link, DependencyLine, WithoutDeps, DropEmptyEnd, Parse, IsSection;
    var link := Link(repo, cliBase, cliNew);
    var block := Block(DependencyLine(crates));
    var lines := Split(text);
    var first := FirstHeading(lines);
    var base := Parse(cliBase).value;
    if first == |lines| || Le(ReadHeading(lines[first]).value.version, base) {
      var section := [Title(cliNew, link, " - " + today), ""] + block;
      return Unsplit(lines[..first] + section + lines[first..]);
    }
    var top := ReadHeading(lines[first]).value;
    var rest := lines[first + 1..];
    var end := FirstSection(rest);
    var kept := KeepEntries(rest[..end]);
    out := Unsplit(lines[..first] + ([Title(cliNew, link, top.tail)] + kept + [""] + block) + rest[end..]);
  }

  /** What one more line does to the section sought and to the section at hand. */
  lemma ReaderStep(lines: seq<string>, i: nat, version: string)
    requires i < |lines|
    ensures Names(lines[i], version) ==> IsHeading(lines[i])
    ensures IsHeading(lines[i]) ==> IsSection(lines[i])
    ensures SectionOf(lines[i..], version)
         == if Names(lines[i], version) then WithoutDeps(Body(lines[i + 1..]), false)
            else SectionOf(lines[i + 1..], version)
    ensures Body(lines[i..]) == if IsSection(lines[i]) then [] else [lines[i]] + Body(lines[i + 1..])
  {
    hide ReadHeading, IsSection, WithoutDeps, SectionOf, FirstSection;
    var line, rest := lines[i], lines[i + 1..];
    assert lines[i..] == [line] + rest;
    if IsHeading(line) { HeadingIsSection(line); }
    if Names(line, version) {
      NamedSection(line, rest, version);
    } else {
      SectionSkips([line], rest, version);
    }
    BodyStep(line, rest);
  }

  lemma NamedSection(line: string, rest: seq<string>, version: string)
    requires Names(line, version)
    ensures SectionOf([line] + rest, version) == WithoutDeps(Body(rest), false)
  {
    hide Names, WithoutDeps, Body;
    var s := [line] + rest;
    assert FirstNamed(s, version) == 0 && s[1..] == rest;
  }

  lemma BodyStep(line: string, rest: seq<string>)
    ensures Body([line] + rest) == if IsSection(line) then [] else [line] + Body(rest)
  {
    hide IsSection;
    var s, j := [line] + rest, FirstSection(rest);
    if IsSection(line) {
      assert FirstSection(s) == 0;
    } else {
      assert s[1..] == rest;
      assert FirstSection(s) == 1 + j;
      assert s[..1 + j] == [line] + rest[..j];
    }
  }

  lemma NothingLeft(version: string, skipping: bool)
    ensures SectionOf([], version) == [] && WithoutDeps(Body([]), skipping) == [] && WithoutDeps([], skipping) == []
  {
  }

  /** Body of a version's section, without the generated Dependencies block. */
  method ChangelogSection(text: string, version: string) returns (section: string)
    ensures section == SectionText(text, version)
  {
    hide ReadHeading, IsHeading, IsSection, Names, IsDeps, Strip, Unsplit, Split, SectionOf, Body, WithoutDeps, StartsWith;
    var lines := Split(text);
    var out: seq<string> := [];
    var inside, skipping := false, false;
    assert lines[0..] == lines;
    for i := 0 to |lines|
      invariant !inside ==> !skipping && out == [] && SectionOf(lines[i..], version) == SectionOf(lines, version)
      invariant inside ==> out + WithoutDeps(Body(lines[i..]), skipping) == SectionOf(lines, version)
    {
      var line := lines[i];
      ReaderStep(lines, i, version);
      NothingLeft(version, skipping);
      FilterStep(line, Body(lines[i + 1..]), skipping);
      assert out + [] == out;
      if IsHeading(line) || IsSection(line) {
        if inside { return Strip(Unsplit(out)); }
        inside := Names(line, version);
        continue;
      }
      if !inside { continue; }
      if IsDeps(line) {
        skipping := true;
        continue;
      }
      if skipping && StartsWith(line, "#") { skipping := false; }
      if !skipping { out := out + [line]; }
    }
    assert lines[|lines|..] == [] && out + [] == out;
    NothingLeft(version, skipping);
    section := Strip(Unsplit(out));
  }
}
