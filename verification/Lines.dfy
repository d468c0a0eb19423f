/** Text as lines: `text.split("\n")`, `"\n".join(lines)` and `str.strip()`. */
module Lines {
  import opened Text

  predicate OneLine(s: string) {
    '\n' !in s
  }

  ghost predicate AllLines(lines: seq<string>) {
    forall i :: 0 <= i < |lines| ==> OneLine(lines[i])
  }

  /** Position of the first newline, or the length. */
  function Newline(s: string): (i: nat)
    ensures i <= |s| && OneLine(s[..i])
    ensures i < |s| ==> s[i] == '\n'
  {
    if s == "" || s[0] == '\n' then 0
    else
      var i := 1 + Newline(s[1..]);
      assert s[..i] == [s[0]] + s[1..][..i - 1];
      i
  }

  function Split(s: string): (lines: seq<string>)
    ensures lines != []
    ensures AllLines(lines)
    decreases |s|
  {
    var i := Newline(s);
    if i == |s| then
      assert s[..i] == s;
      [s]
    else [s[..i]] + Split(s[i + 1..])
  }

  function Unsplit(lines: seq<string>): string {
    Join(lines, "\n")
  }

  lemma {:induction false} NewlineAt(a: string, rest: string)
    requires OneLine(a)
    ensures Newline(a) == |a| && Newline(a + ("\n" + rest)) == |a|
  {
    if a != "" {
      NewlineAt(a[1..], rest);
      assert (a + ("\n" + rest))[1..] == a[1..] + ("\n" + rest);
    }
  }

  /** Splitting what was joined gives the lines back. */
  lemma {:induction false} SplitUnsplit(lines: seq<string>)
    requires lines != [] && AllLines(lines)
    ensures Split(Unsplit(lines)) == lines
  {
    NewlineAt(lines[0], Unsplit(lines[1..]));
    if |lines| > 1 {
      SplitUnsplit(lines[1..]);
      var s := lines[0] + ("\n" + Unsplit(lines[1..]));
      assert s[..|lines[0]|] == lines[0] && s[|lines[0]| + 1..] == Unsplit(lines[1..]);
      assert lines == [lines[0]] + lines[1..];
    }
  }

  lemma SplitFirst(s: string)
    ensures var i := Newline(s);
            Split(s) == if i == |s| then [s] else [s[..i]] + Split(s[i + 1..])
  {
    hide Newline, AllLines;
  }

  /** Joining what was split gives the text back. */
  lemma {:induction false} UnsplitSplit(s: string)
    ensures Unsplit(Split(s)) == s
    decreases |s|
  {
    hide Newline, Split, Join;
    var i := Newline(s);
    SplitFirst(s);
    if i == |s| {
      JoinOne(s, "\n");
    } else {
      var rest := s[i + 1..];
      UnsplitSplit(rest);
      JoinFirst(s[..i], Split(rest), "\n");
      assert s == s[..i] + ("\n" + rest);
    }
  }

  // ── Strip ──────────────────────────────────────────────────────────────────

  /** What `str.strip()` removes. */
  predicate IsSpace(c: char) {
    IsWhitespace(c) || 0x1C <= c as int <= 0x1F
  }

  function Strip(s: string): string {
    Trim(s, IsSpace)
  }

  lemma {:induction false} TrimStartSnoc(s: string)
    ensures TrimEnd(TrimStart(s + "\n", IsSpace), IsSpace) == TrimEnd(TrimStart(s, IsSpace), IsSpace)
  {
    if s == "" {
      assert s + "\n" == "\n" && "\n"[1..] == "";
    } else if IsSpace(s[0]) {
      TrimStartSnoc(s[1..]);
      assert (s + "\n")[1..] == s[1..] + "\n";
    } else {
      assert (s + "\n")[..|s|] == s;
    }
  }

  /** A trailing newline does not survive stripping. */
  lemma StripNewline(s: string)
    ensures Strip(s + "\n") == Strip(s)
  {
    TrimStartSnoc(s);
  }

  lemma {:induction false} UnsplitSnoc(lines: seq<string>)
    requires lines != []
    ensures Unsplit(lines + [""]) == Unsplit(lines) + "\n"
  {
    if |lines| > 1 {
      UnsplitSnoc(lines[1..]);
      assert (lines + [""])[1..] == lines[1..] + [""];
    } else {
      assert (lines + [""])[1..] == [""] && Unsplit([""]) == "";
      assert "\n" + "" == "\n";
    }
  }

  /** Neither does a trailing empty line. */
  lemma StripEmptyLine(lines: seq<string>)
    ensures Strip(Unsplit(lines + [""])) == Strip(Unsplit(lines))
  {
    if lines != [] {
      UnsplitSnoc(lines);
      StripNewline(Unsplit(lines));
    } else {
      assert lines + [""] == [""];
    }
  }

  /** The whitespace of the Latin-1 block, as `str.strip()` knows it. */
  lemma LatinSpace(c: char)
    requires (c as int) < 256
    ensures IsSpace(c) <==>
            c as int in {9, 10, 11, 12, 13, 28, 29, 30, 31, 32, 133, 160}
  {
  }
}
