/** The changelog's texts, spelled out: which lines are version headings, what the
    rewriter writes and where (scripts/release-cli-bump.py `update_changelog`). */
module ChangelogMeaning {
  import opened Outcomes
  import opened Text
  import opened Lines
  import opened Versions
  import opened Changelog
  import RP = ReleasePlan

  // ── Headings ───────────────────────────────────────────────────────────────

  /** `line` is a heading of the version text `version`, followed by `rest`. */
  ghost predicate Headed(line: string, version: string, rest: string) {
    Parse(version).Some? && line == "## [" + (version + ("]" + rest))
  }

  /** What follows a heading's optional link. */
  ghost predicate Linked(rest: string, tail: string) {
    if rest != "" && rest[0] == '(' && ')' in rest then
      exists link :: ')' !in link && rest == "(" + (link + (")" + tail))
    else tail == rest
  }

  lemma LinkedIs(rest: string)
    ensures Linked(rest, AfterLink(rest))
  {
    if rest != "" && rest[0] == '(' && ')' in rest {
      var p := Paren(rest);
      FirstParen(rest);
      hide Paren;
      var link, tail := rest[1..p], rest[p + 1..];
      CutAt(rest, p);
      assert forall c :: c in link ==> c in rest[..p] by { assert link == rest[..p][1..]; }
    }
  }

  lemma CutAt(s: string, p: nat)
    requires 0 < p < |s| && s[0] == '(' && s[p] == ')'
    ensures s == "(" + (s[1..p] + (")" + s[p + 1..]))
  {
  }

  lemma {:induction false} FirstParen(s: string)
    ensures ')' !in s[..Paren(s)]
  {
    if s != "" && s[0] != ')' {
      FirstParen(s[1..]);
      assert s[..Paren(s)] == [s[0]] + s[1..][..Paren(s[1..])];
    }
  }

  /** A heading is read as its version text, its version and what follows its link. */
  lemma HeadingReads(line: string, version: string, rest: string)
    requires Headed(line, version, rest)
    ensures ReadHeading(line).Some?
    ensures var h := ReadHeading(line).value;
            h.text == version && Some(h.version) == Parse(version) && Linked(rest, h.tail)
  {
    hide Parse, VersionPrefix, AfterLink, Linked;
    var text := version + ("]" + rest);
    assert line == "## [" + text && line[..4] == "## [" && line[4..] == text;
    ParseExtends(version, "]" + rest);
    assert text[..|text| - |"]" + rest|] == version;
    LinkedIs(rest);
  }

  /** Only such lines are headings. */
  lemma HeadingIs(line: string) returns (rest: string)
    requires ReadHeading(line).Some?
    ensures Headed(line, ReadHeading(line).value.text, rest)
  {
    hide AfterLink, VersionPrefix, Parse;
    var text := line[4..];
    var after := VersionPrefix(text).value.1;
    rest := after[1..];
    VersionBefore(text);
    assert after == "]" + rest;
    assert line == line[..4] + text;
  }

  /** What precedes the rest is a version text. */
  lemma VersionBefore(text: string)
    requires VersionPrefix(text).Some?
    ensures var v, after := VersionPrefix(text).value.0, VersionPrefix(text).value.1;
            && |after| <= |text| && Parse(text[..|text| - |after|]) == Some(v)
            && text == text[..|text| - |after|] + after
  {
    var a, b, c, after := VersionParts(text);
    hide VersionPrefix, Parse;
    var version := a + ("." + (b + ("." + c)));
    ParseExact(version);
    Flattened(a, b, c, after);
    assert text[..|text| - |after|] == version;
  }

  lemma Flattened(a: string, b: string, c: string, after: string)
    ensures a + ("." + (b + ("." + (c + after)))) == a + ("." + (b + ("." + c))) + after
  {
  }

  // ── What is written ────────────────────────────────────────────────────────

  /** How the Dependencies line names a crate. */
  function Entry(c: RP.Bump): string {
    if c.before.None? then c.name + " " + c.after + " (new)"
    else c.name + " " + c.before.value + " \U{2192} " + c.after
  }

  lemma {:induction false} PartsAre(crates: seq<RP.Bump>)
    ensures |Parts(crates)| == |crates|
    ensures forall i :: 0 <= i < |crates| ==> Parts(crates)[i] == Entry(crates[i])
  {
    if crates != [] {
      PartsAre(crates[1..]);
      var c := crates[0];
      EntryIs(c);
    }
  }

  lemma EntryIs(c: RP.Bump)
    ensures c.before.None? ==> c.name + (" " + (c.after + " (new)")) == Entry(c)
    ensures c.before.Some? ==> c.name + (" " + (c.before.value + (" \U{2192} " + c.after))) == Entry(c)
  {
  }

  /** The Dependencies line names the crates one after the other, in their order. */
  lemma LineOfOne(c: RP.Bump)
    ensures DependencyLine([c]) == "- Bumped with: " + Entry(c)
  {
    PartsAre([c]);
    assert Parts([c]) == [Entry(c)];
  }

  lemma LineOfMore(crates: seq<RP.Bump>, c: RP.Bump)
    requires crates != []
    ensures DependencyLine(crates + [c]) == DependencyLine(crates) + ", " + Entry(c)
  {
    hide Parts, Join;
    PartsAre(crates);
    PartsAre(crates + [c]);
    assert Parts(crates + [c]) == Parts(crates) + [Entry(c)];
    JoinSnoc(Parts(crates), Entry(c), ", ");
    Regrouped("- Bumped with: ", Join(Parts(crates), ", "), Entry(c));
  }

  lemma Regrouped(a: string, b: string, c: string)
    ensures a + (b + (", " + c)) == a + b + ", " + c
  {
  }

  /** The heading a rewrite writes. */
  function Written(repo: string, base: string, version: string, tail: string): string {
    "## [" + version + "](https://github.com/" + repo + "/compare/faucet-cli-v" + base + "...faucet-cli-v"
    + version + ")" + tail
  }

  lemma WrittenIs(repo: string, base: string, version: string, tail: string)
    ensures Title(version, Link(repo, base, version), tail) == Written(repo, base, version, tail)
  {
    var link := Link(repo, base, version);
    LinkIs(repo, base, version);
    var open := "## [" + version;
    assert Title(version, link, tail) == open + "](" + link + ")" + tail;
    Opened(open, "https://github.com/" + repo + "/compare/faucet-cli-v" + base + "...faucet-cli-v" + version);
    assert open + "](https://github.com/" + repo + "/compare/faucet-cli-v" + base + "...faucet-cli-v" + version
        == open + "](" + link by {
      Spread(open, repo, base, version);
    }
  }

  lemma LinkIs(repo: string, base: string, version: string)
    ensures Link(repo, base, version)
         == "https://github.com/" + repo + "/compare/faucet-cli-v" + base + "...faucet-cli-v" + version
  {
  }

  lemma Opened(open: string, link: string)
    ensures open + ("](" + link) == open + "](" + link
  {
  }

  lemma Spread(open: string, repo: string, base: string, version: string)
    ensures open + "](https://github.com/" + repo + "/compare/faucet-cli-v" + base + "...faucet-cli-v" + version
         == open + "](" + ("https://github.com/" + repo + "/compare/faucet-cli-v" + base + "...faucet-cli-v" + version)
  {
    assert "](https://github.com/" == "](" + "https://github.com/";
  }

  /** Trailing empty lines go, and nothing else. */
  lemma {:induction false} EmptyEndDropped(lines: seq<string>)
    ensures var r := DropEmptyEnd(lines);
            && |r| <= |lines| && lines[..|r|] == r && (forall i :: |r| <= i < |lines| ==> lines[i] == "")
            && (r != [] ==> r[|r| - 1] != "")
  {
    if lines != [] && lines[|lines| - 1] == "" { EmptyEndDropped(lines[..|lines| - 1]); }
  }

  /** Where the section goes and what becomes of the one it may take over: `pre` holds
      no version heading; a new section is put before the first heading, or at the end,
      when that is not above the base; else the first section, up to the next `## ` line,
      is taken over with its entries. */
  ghost predicate Placed(lines: seq<string>, base: Version, today: string, pre: seq<string>, tail: string,
                         kept: seq<string>, post: seq<string>)
  {
    && (forall i :: 0 <= i < |pre| ==> ReadHeading(pre[i]).None?)
    && (|| (lines == pre + post && kept == [] && tail == " - " + today
            && (post == [] || (ReadHeading(post[0]).Some? && Le(ReadHeading(post[0]).value.version, base))))
        || (exists heading, body :: lines == pre + ([heading] + (body + post)) && TakenOver(heading, body, post, base, tail, kept)))
  }

  ghost predicate TakenOver(heading: string, body: seq<string>, post: seq<string>, base: Version, tail: string,
                            kept: seq<string>)
  {
    && ReadHeading(heading).Some? && !Le(ReadHeading(heading).value.version, base)
    && tail == ReadHeading(heading).value.tail
    && (forall i :: 0 <= i < |body| ==> !StartsWith(body[i], "## "))
    && (post == [] || StartsWith(post[0], "## "))
    && kept == DropEmptyEnd(Outside(body, |body|))
  }

  /** The rewritten changelog, line by line. */
  lemma RewrittenLines(text: string, cliBase: string, cliNew: string, crates: seq<RP.Bump>, today: string, repo: string)
    returns (pre: seq<string>, tail: string, kept: seq<string>, post: seq<string>)
    requires ValidRun(cliBase, cliNew, crates, today, repo)
    ensures Split(UpdateText(text, cliBase, cliNew, crates, today, repo))
         == pre + [Written(repo, cliBase, cliNew, tail)] + kept
            + ["", "### Dependencies", "", DependencyLine(crates), ""] + post
    ensures Placed(Split(text), Parse(cliBase).value, today, pre, tail, kept, post)
  {
    hide Parse, ReadHeading, Title, Link, Written, WithoutDeps, DropEmptyEnd, Outside, StartsWith, UpdateText, ShapeOf,
         DependencyLine, Placed;
    var lines, base := Split(text), Parse(cliBase).value;
    var sh := ShapeOf(lines, base, today);
    UpdatedLines(text, cliBase, cliNew, crates, today, repo);
    pre, tail, kept, post := sh.pre, sh.tail, sh.kept, sh.post;
    WrittenIs(repo, cliBase, cliNew, tail);
    ShapePlaced(lines, base, today);
    LaidOut(pre, Written(repo, cliBase, cliNew, tail), kept, DependencyLine(crates), post);
  }

  lemma LaidOut(pre: seq<string>, title: string, kept: seq<string>, deps: string, post: seq<string>)
    ensures pre + ([title] + (kept + [""] + Block(deps) + post))
         == pre + [title] + kept + ["", "### Dependencies", "", deps, ""] + post
  {
    assert [""] + Block(deps) == ["", "### Dependencies", "", deps, ""];
  }

  lemma ShapePlaced(lines: seq<string>, base: Version, today: string)
    ensures var sh := ShapeOf(lines, base, today);
            Placed(lines, base, today, sh.pre, sh.tail, sh.kept, sh.post)
  {
    hide ReadHeading, WithoutDeps, DropEmptyEnd, Outside, StartsWith, FirstHeading, FirstSection, TakenOver;
    var first := FirstHeading(lines);
    var pre := lines[..first];
    forall i | 0 <= i < |pre| ensures ReadHeading(pre[i]).None? {
      assert pre[i] == lines[i] && !IsHeading(lines[i]);
    }
    if first == |lines| || Le(ReadHeading(lines[first]).value.version, base) {
      assert lines == pre + lines[first..];
    } else {
      var rest := lines[first + 1..];
      SectionTaken(lines[first], rest, base);
      SplitAt(lines, first, FirstSection(rest));
    }
  }

  lemma SplitAt(lines: seq<string>, first: nat, end: nat)
    requires first < |lines| && first + 1 + end <= |lines|
    ensures var rest := lines[first + 1..];
            lines == lines[..first] + ([lines[first]] + (rest[..end] + rest[end..]))
  {
  }

  lemma SectionTaken(heading: string, rest: seq<string>, base: Version)
    requires ReadHeading(heading).Some? && !Le(ReadHeading(heading).value.version, base)
    ensures var end := FirstSection(rest);
            TakenOver(heading, rest[..end], rest[end..], base, ReadHeading(heading).value.tail,
                      DropEmptyEnd(WithoutDeps(rest[..end], false)))
  {
    hide ReadHeading, WithoutDeps, DropEmptyEnd, Outside, StartsWith, FirstSection;
    var end := FirstSection(rest);
    var body := rest[..end];
    WithoutDepsIs(body);
    forall i | 0 <= i < |body| ensures !StartsWith(body[i], "## ") {
      assert body[i] == rest[i] && !IsSection(rest[i]);
    }
    if end < |rest| { assert rest[end..][0] == rest[end] && IsSection(rest[end]); }
  }

  // ── What is read ───────────────────────────────────────────────────────────

  /** The reader finds the section under the first heading of that version text, up to
      the next `## ` line, without its Dependencies blocks; nothing without one. */
  lemma SectionFound(before: seq<string>, heading: string, body: seq<string>, after: seq<string>, version: string)
    requires forall i :: 0 <= i < |before| ==> !(exists rest :: Headed(before[i], version, rest))
    requires exists rest :: Headed(heading, version, rest)
    requires forall i :: 0 <= i < |body| ==> !StartsWith(body[i], "## ")
    requires after == [] || StartsWith(after[0], "## ")
    ensures SectionOf(before + ([heading] + (body + after)), version) == Outside(body, |body|)
  {
    hide StartsWith, Headed, ReadHeading, WithoutDeps, SectionOf, Outside;
    forall i | 0 <= i < |before| ensures !Names(before[i], version) { NamesMeans(before[i], version); }
    NamesMeans(heading, version);
    SectionSkips(before, [heading] + (body + after), version);
    NamedSection(heading, body + after, version);
    FirstSectionAt(body, after);
    assert (body + after)[..|body|] == body;
    WithoutDepsIs(body);
  }

  lemma NotFound(lines: seq<string>, version: string)
    requires forall i :: 0 <= i < |lines| ==> !(exists rest :: Headed(lines[i], version, rest))
    ensures SectionOf(lines, version) == []
  {
    hide Headed, ReadHeading, WithoutDeps, Body;
    forall i | 0 <= i < |lines| ensures !Names(lines[i], version) { NamesMeans(lines[i], version); }
    assert FirstNamed(lines, version) == |lines|;
  }

  lemma NamesMeans(line: string, version: string)
    ensures Names(line, version) <==> exists rest :: Headed(line, version, rest)
  {
    hide Headed, ReadHeading, Linked, Parse;
    if Names(line, version) {
      var rest := HeadingIs(line);
    }
    forall rest | Headed(line, version, rest) ensures Names(line, version) { HeadingReads(line, version, rest); }
  }

  /** The reader's text is the lines joined, without the whitespace around them. */
  lemma ReadText(text: string, version: string)
    ensures Bare(Unsplit(SectionOf(Split(text), version)), IsSpace, SectionText(text, version))
  {
    hide Bare, Trim, SectionOf;
    TrimIsBare(Unsplit(SectionOf(Split(text), version)), IsSpace);
  }
}
