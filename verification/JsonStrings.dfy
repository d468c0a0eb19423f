/** Reading back the quoted strings of section 7 of RFC 8259. */
module JsonStrings {
  import opened Json
  import opened Outcomes

  /** The value of a hexadecimal digit of either case. */
  function HexValue(c: char): Option<nat> {
    if '0' <= c <= '9' then Some(c as int - '0' as int)
    else if 'a' <= c <= 'f' then Some(c as int - 'a' as int + 10)
    else if 'A' <= c <= 'F' then Some(c as int - 'A' as int + 10)
    else None
  }

  /** The character a two-character escape stands for. */
  function ShortEscape(c: char): Option<char> {
    match c
    case '\"' => Some('\"')
    case '\\' => Some('\\')
    case '/' => Some('/')
    case 'b' => Some(8 as char)
    case 'f' => Some(12 as char)
    case 'n' => Some(10 as char)
    case 'r' => Some(13 as char)
    case 't' => Some(9 as char)
    case _ => None
  }

  /** One character of a string's text, and what follows it. No control character
      stands for itself. Surrogate pairs do not arise and are not read. */
  function ReadChar(s: string): Option<(char, string)> {
    if s == "" || s[0] == '\"' || s[0] as int < 32 then None
    else if s[0] != '\\' then Some((s[0], s[1..]))
    else if |s| < 2 then None
    else if s[1] != 'u' then
      if ShortEscape(s[1]).Some? then Some((ShortEscape(s[1]).value, s[2..])) else None
    else if |s| < 6 then None
    else
      var a, b, c, d := HexValue(s[2]), HexValue(s[3]), HexValue(s[4]), HexValue(s[5]);
      if a.None? || b.None? || c.None? || d.None? then None
      else
        var code := 4096 * a.value + 256 * b.value + 16 * c.value + d.value;
        if 0xD800 <= code < 0xE000 then None else Some((code as char, s[6..]))
  }

  /** The characters up to the closing quote, and what follows it. */
  function ReadChars(s: string): Option<(string, string)>
    decreases |s|
  {
    if s != "" && s[0] == '\"' then Some(("", s[1..]))
    else match ReadChar(s)
      case None => None
      case Some((c, rest)) =>
        if |rest| >= |s| then None
        else match ReadChars(rest)
          case None => None
          case Some((cs, after)) => Some(([c] + cs, after))
  }

  function ReadString(s: string): Option<(string, string)> {
    if s != "" && s[0] == '\"' then ReadChars(s[1..]) else None
  }

  lemma EscapedCharRead(c: char, rest: string)
    ensures ReadChar(EscapeChar(c) + rest) == Some((c, rest))
    ensures EscapeChar(c) != "" && EscapeChar(c)[0] != '\"'
  {
    var e := EscapeChar(c);
    assert (e + rest)[|e|..] == rest;
    if c as int < 32 { HexDigits(c as int); }
  }

  lemma HexDigits(n: nat)
    requires n < 32
    ensures HexValue(Hex(n / 16)) == Some(n / 16) && HexValue(Hex(n % 16)) == Some(n % 16)
    ensures HexValue('0') == Some(0)
  {
  }

  lemma {:induction false} EscapedRead(s: string, rest: string)
    ensures ReadChars(Escape(s) + ("\"" + rest)) == Some((s, rest))
  {
    if s == "" {
      assert Escape(s) + ("\"" + rest) == "\"" + rest;
    } else {
      hide EscapeChar, ReadChar;
      var e, more := EscapeChar(s[0]), Escape(s[1..]) + ("\"" + rest);
      Reassociate(e, Escape(s[1..]), "\"" + rest);
      EscapedCharRead(s[0], more);
      EscapedRead(s[1..], rest);
      assert (e + more)[0] == e[0] && |more| < |e + more|;
      assert s == [s[0]] + s[1..];
    }
  }

  /** A quoted string is read back, whatever follows it. */
  lemma QuotedRead(s: string, rest: string)
    ensures ReadString(Quote(s) + rest) == Some((s, rest))
  {
    hide Escape, ReadChars;
    Unwrap("\"", Escape(s), "\"", rest);
    var text := Escape(s) + ("\"" + rest);
    assert ("\"" + text)[1..] == text;
    EscapedRead(s, rest);
  }

  /** Nothing but quotes, backslashes and control characters is escaped. */
  lemma {:induction false} PlainQuoted(s: string)
    requires forall i :: 0 <= i < |s| ==> s[i] as int >= 32 && s[i] != '\"' && s[i] != '\\'
    ensures Quote(s) == "\"" + s + "\""
  {
    PlainKept(s);
  }

  lemma {:induction false} PlainKept(s: string)
    requires forall i :: 0 <= i < |s| ==> s[i] as int >= 32 && s[i] != '\"' && s[i] != '\\'
    ensures Escape(s) == s
  {
    if s != "" {
      PlainKept(s[1..]);
      assert s == [s[0]] + s[1..];
    }
  }
}
