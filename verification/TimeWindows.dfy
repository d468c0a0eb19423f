/** Time windows: parsing and printing a step, and tiling a range with windows
    (cli/src/chunking.rs). Instants and durations are integers of nanoseconds; the
    time zone is arbitrary. */
module TimeWindows {
  import opened Outcomes
  import opened Text
  import Decimal

  const MAX_UNITS := 10_000
  const NANOS := 1_000_000_000
  const HOUR := 3600 * NANOS
  /** Whole seconds a duration can hold (i64::MAX milliseconds). */
  const MAX_SECONDS := 9_223_372_036_854_775
  const I64_MAX := 0x7FFF_FFFF_FFFF_FFFF

  datatype WindowStep = Absolute(nanos: int) | Days(n: int) | Weeks(n: int)

  predicate Positive(step: WindowStep) {
    match step
    case Absolute(d) => d > 0
    case Days(n) => n > 0
    case Weeks(n) => n > 0
  }

  // ── Durations ──────────────────────────────────────────────────────────────

  /** `Duration::try_seconds` and its multiples, as nanoseconds. */
  function TryUnits(n: int, seconds: nat): Option<int> {
    if -MAX_SECONDS <= n * seconds <= MAX_SECONDS then Some(n * seconds * NANOS) else None
  }

  function Nominal(step: WindowStep): Option<int> {
    match step
    case Absolute(d) => Some(d)
    case Days(n) => TryUnits(n, 86_400)
    case Weeks(n) => TryUnits(n, 604_800)
  }

  function CalendarDays(step: WindowStep): Option<int> {
    match step
    case Absolute(_) => None
    case Days(n) => Some(n)
    case Weeks(n) => if -I64_MAX - 1 <= n * 7 <= I64_MAX then Some(n * 7) else None
  }

  // ── Parsing ────────────────────────────────────────────────────────────────

  datatype ParseError = NotAWindow | NotPositive | TooLarge

  /** `str::parse::<i64>`: an optional sign and at least one digit, in range. */
  function ParseI64(s: string): Option<int> {
    if s == "" then None
    else
      var digits := if s[0] == '-' || s[0] == '+' then s[1..] else s;
      if digits == "" || !Decimal.AllDigits(digits) then None
      else
        var v: int := if s[0] == '-' then 0 - Decimal.Read(digits) else Decimal.Read(digits);
        if -I64_MAX - 1 <= v <= I64_MAX then Some(v) else None
  }

  function StepOf(n: int, unit: char): Result<WindowStep, ParseError> {
    if unit == 's' then AbsoluteStep(n, 1)
    else if unit == 'm' then AbsoluteStep(n, 60)
    else if unit == 'h' then AbsoluteStep(n, 3600)
    else if unit == 'd' then if TryUnits(n, 86_400).Some? then Ok(Days(n)) else Err(TooLarge)
    else if unit == 'w' then if TryUnits(n, 604_800).Some? then Ok(Weeks(n)) else Err(TooLarge)
    else Err(NotAWindow)
  }

  function AbsoluteStep(n: int, seconds: nat): Result<WindowStep, ParseError> {
    var d := TryUnits(n, seconds);
    if d.Some? then Ok(Absolute(d.value)) else Err(TooLarge)
  }

  /** `45s`, `30m`, `6h`, `1d`, `1w`, or a bare integer of seconds. */
  function ParseWindow(text: string): Result<WindowStep, ParseError> {
    var s := Trim(text, IsWhitespace);
    if s == "" then Err(NotAWindow)
    else
      var c := s[|s| - 1];
      var num := if Decimal.IsDigit(c) then s else s[..|s| - 1];
      var unit := if Decimal.IsDigit(c) then 's' else c;
      var n := ParseI64(num);
      if n.None? then Err(NotAWindow)
      else if n.value <= 0 then Err(NotPositive)
      else StepOf(n.value, unit)
  }

  /** The text that keys a progress marker. */
  function Display(step: WindowStep): string
    requires Positive(step)
  {
    match step
    case Absolute(d) => Decimal.Print(d / NANOS)
    case Days(n) => Decimal.Print(n) + "d"
    case Weeks(n) => Decimal.Print(n) + "w"
  }

  /** What parsing can produce: a positive number of whole seconds, days or weeks
      that fits a duration. */
  ghost predicate Parsed(step: WindowStep) {
    match step
    case Absolute(d) => d > 0 && d % NANOS == 0 && d / NANOS <= MAX_SECONDS
    case Days(n) => 0 < n && n * 86_400 <= MAX_SECONDS
    case Weeks(n) => 0 < n && n * 604_800 <= MAX_SECONDS
  }

  lemma ParseYieldsParsed(text: string)
    requires ParseWindow(text).Ok?
    ensures Parsed(ParseWindow(text).value) && Positive(ParseWindow(text).value)
  {
    hide StepOf, ParseI64, Trim, Parsed, Positive;
    var s := Trim(text, IsWhitespace);
    var c := s[|s| - 1];
    var n := ParseI64(if Decimal.IsDigit(c) then s else s[..|s| - 1]).value;
    StepYieldsParsed(n, if Decimal.IsDigit(c) then 's' else c);
  }

  /** `s` is an optional sign and digits that stand for `v`. */
  ghost predicate Signed(s: string, sign: string, digits: string, v: int) {
    && s == sign + digits && digits != "" && Decimal.AllDigits(digits)
    && match sign
       case "-" => v == 0 - Decimal.Read(digits)
       case "+" => v == Decimal.Read(digits)
       case "" => v == Decimal.Read(digits)
       case _ => false
  }

  /** A number is read exactly from an optional sign and digits, when an i64 holds it. */
  lemma NumberRead(s: string, v: int)
    ensures ParseI64(s) == Some(v) <==>
            && -0x8000_0000_0000_0000 <= v <= 0x7FFF_FFFF_FFFF_FFFF
            && exists sign, digits :: Signed(s, sign, digits, v)
  {
    hide Decimal.Read, Signed;
    if ParseI64(s) == Some(v) {
      var sign := if s[0] == '-' || s[0] == '+' then [s[0]] else "";
      SignedBy(s, sign, v);
    }
    forall sign, digits | Signed(s, sign, digits, v)
      ensures -0x8000_0000_0000_0000 <= v <= 0x7FFF_FFFF_FFFF_FFFF ==> ParseI64(s) == Some(v)
    {
      if -0x8000_0000_0000_0000 <= v <= 0x7FFF_FFFF_FFFF_FFFF { SignedRead(s, sign, digits, v); }
    }
  }

  lemma SignedBy(s: string, sign: string, v: int)
    requires ParseI64(s) == Some(v) && sign == if s[0] == '-' || s[0] == '+' then [s[0]] else ""
    ensures Signed(s, sign, s[|sign|..], v)
  {
    assert s == sign + s[|sign|..];
    assert s[0..] == s;
  }

  lemma SignedRead(s: string, sign: string, digits: string, v: int)
    requires Signed(s, sign, digits, v) && -0x8000_0000_0000_0000 <= v <= 0x7FFF_FFFF_FFFF_FFFF
    ensures ParseI64(s) == Some(v)
  {
    assert sign != "" ==> s[0] == sign[0] && s[1..] == digits;
    assert sign == "" ==> s == digits && Decimal.IsDigit(digits[0]);
  }

  lemma StepYieldsParsed(n: int, unit: char)
    requires n > 0 && StepOf(n, unit).Ok?
    ensures Parsed(StepOf(n, unit).value) && Positive(StepOf(n, unit).value)
  {
    if unit == 's' { WholeSeconds(n, 1); }
    if unit == 'm' { WholeSeconds(n, 60); }
    if unit == 'h' { WholeSeconds(n, 3600); }
  }

  lemma WholeSeconds(n: nat, seconds: nat)
    ensures n * seconds * NANOS % NANOS == 0 && n * seconds * NANOS / NANOS == n * seconds
  {
    var s := n * seconds;
    assert s * NANOS == NANOS * s;
  }

  lemma NoTrim(s: string)
    requires s != "" && !IsWhitespace(s[0]) && !IsWhitespace(s[|s| - 1])
    ensures Trim(s, IsWhitespace) == s
  {
  }

  lemma ParsePrinted(n: nat)
    requires n <= I64_MAX
    ensures ParseI64(Decimal.Print(n)) == Some(n)
  {
    Decimal.ReadPrint(n);
  }

  /** A step is read back from its text: parsing the display of a parsed step
      returns that step. */
  lemma DisplayRoundTrip(step: WindowStep)
    requires Parsed(step)
    ensures Positive(step) && ParseWindow(Display(step)) == Ok(step)
  {
    hide ParseWindow, IsWhitespace, Decimal.IsDigit, TryUnits;
    TryPositive(step);
    match step
    case Absolute(d) =>
      ParseBare(d / NANOS);
    case Days(n) => ParseSuffixed(n, 'd');
    case Weeks(n) => ParseSuffixed(n, 'w');
  }

  /** The units: seconds, minutes of 60, hours of 3600, calendar days and weeks. */
  lemma UnitsRead(n: nat)
    requires 0 < n <= I64_MAX
    ensures ParseWindow(Decimal.Print(n)) == AbsoluteOrLarge(n)
    ensures ParseWindow(Decimal.Print(n) + "s") == AbsoluteOrLarge(n)
    ensures ParseWindow(Decimal.Print(n) + "m") == AbsoluteOrLarge(60 * n)
    ensures ParseWindow(Decimal.Print(n) + "h") == AbsoluteOrLarge(3_600 * n)
    ensures ParseWindow(Decimal.Print(n) + "d")
         == if n * 86_400 <= 9_223_372_036_854_775 then Ok(Days(n)) else Err(TooLarge)
    ensures ParseWindow(Decimal.Print(n) + "w")
         == if n * 604_800 <= 9_223_372_036_854_775 then Ok(Weeks(n)) else Err(TooLarge)
  {
    hide ParseWindow;
    ParseBare(n);
    ParseSuffixed(n, 's');
    ParseSuffixed(n, 'm');
    ParseSuffixed(n, 'h');
    ParseSuffixed(n, 'd');
    ParseSuffixed(n, 'w');
  }

  /** A window of that many seconds, if a duration holds them. */
  ghost function AbsoluteOrLarge(seconds: nat): Result<WindowStep, ParseError> {
    if seconds <= 9_223_372_036_854_775 then Ok(Absolute(seconds * 1_000_000_000)) else Err(TooLarge)
  }

  /** No other unit is read, and no number that is not positive. */
  lemma OthersRefused(n: nat, unit: char)
    requires n <= I64_MAX && !Decimal.IsDigit(unit) && !IsWhitespace(unit)
    ensures unit !in {'s', 'm', 'h', 'd', 'w'} && n > 0 ==> ParseWindow(Decimal.Print(n) + [unit]) == Err(NotAWindow)
    ensures n == 0 ==> ParseWindow(Decimal.Print(n) + [unit]) == Err(NotPositive)
  {
    if n > 0 {
      ParseSuffixed(n, unit);
    } else {
      hide StepOf, ParseI64, Trim;
      var text := Decimal.Print(n) + [unit];
      ParsePrinted(n);
      NoTrim(text);
      assert text[..|text| - 1] == Decimal.Print(n);
    }
  }

  lemma TryPositive(step: WindowStep)
    requires Parsed(step)
    ensures step.Absolute? ==> TryUnits(step.nanos / NANOS, 1) == Some(step.nanos)
    ensures step.Days? ==> TryUnits(step.n, 86_400).Some?
    ensures step.Weeks? ==> TryUnits(step.n, 604_800).Some?
    ensures !Decimal.IsDigit('d') && !Decimal.IsDigit('w') && !IsWhitespace('d') && !IsWhitespace('w')
  {
  }

  lemma ParseBare(n: nat)
    requires 0 < n <= I64_MAX
    ensures ParseWindow(Decimal.Print(n)) == StepOf(n, 's')
  {
    hide StepOf, ParseI64, Trim;
    ParsePrinted(n);
    NoTrim(Decimal.Print(n));
  }

  lemma ParseSuffixed(n: nat, unit: char)
    requires 0 < n <= I64_MAX && !Decimal.IsDigit(unit) && !IsWhitespace(unit)
    ensures ParseWindow(Decimal.Print(n) + [unit]) == StepOf(n, unit)
  {
    hide StepOf, ParseI64, Trim;
    var text := Decimal.Print(n) + [unit];
    ParsePrinted(n);
    NoTrim(text);
    assert text[..|text| - 1] == Decimal.Print(n);
  }

  // ── Advancing the cursor ───────────────────────────────────────────────────

  /** The representable instants and an arbitrary zone: local wall-clock time of an
      instant, and the earliest instant showing a wall-clock time, if any. */
  datatype Calendar = Calendar(lo: int, hi: int, toLocal: int -> int, earliest: int -> Option<int>)

  function CheckedAdd(cal: Calendar, t: int, d: int): Option<int> {
    if cal.lo <= t + d <= cal.hi then Some(t + d) else None
  }

  /** Nudge a wall-clock time out of a gap, an hour at a time. */
  function ResolveLocal(cal: Calendar, naive: int, hours: nat): Option<int>
    requires hours <= 4
    decreases 4 - hours
  {
    if hours == 4 then None
    else match CheckedAdd(cal, naive, hours * HOUR)
      case None => None
      case Some(t) => if cal.earliest(t).Some? then cal.earliest(t) else ResolveLocal(cal, naive, hours + 1)
  }

  function AdvanceCalendar(cal: Calendar, cursor: int, days: int): Option<int> {
    match TryUnits(days, 86_400)
    case None => None
    case Some(d) =>
      match CheckedAdd(cal, cal.toLocal(cursor), d)
      case None => None
      case Some(naive) => ResolveLocal(cal, naive, 0)
  }

  function NominalNext(cal: Calendar, step: WindowStep, cursor: int, end: int): int {
    match Nominal(step)
    case None => end
    case Some(d) => if CheckedAdd(cal, cursor, d).Some? then CheckedAdd(cal, cursor, d).value else end
  }

  /** The end of the window starting at `cursor`. */
  function WindowEnd(cal: Calendar, step: WindowStep, cursor: int, end: int): (e: int)
    requires cursor < end && Positive(step)
    ensures cursor < e <= end
  {
    var nominal := NominalNext(cal, step, cursor, end);
    var next := match CalendarDays(step)
      case None => nominal
      case Some(days) =>
        if AdvanceCalendar(cal, cursor, days).Some? then AdvanceCalendar(cal, cursor, days).value else nominal;
    var ahead := if next > cursor then next else nominal;
    if ahead < end then ahead else end
  }

  // ── How long a window is ───────────────────────────────────────────────────

  /** `len` is the step's length in nanoseconds: days of 86 400 and weeks of 604 800
      seconds. */
  ghost predicate Lasts(step: WindowStep, len: int) {
    match step
    case Absolute(d) => len == d
    case Days(n) => len == n * 86_400_000_000_000
    case Weeks(n) => len == n * 604_800_000_000_000
  }

  /** `e` is the first instant that shows the wall clock `wall`, or the first of one,
      two and three hours later that some instant shows: `h` hours later. */
  ghost predicate FirstInstant(cal: Calendar, wall: int, h: int, e: int) {
    && 0 <= h <= 3
    && (forall g :: 0 <= g <= h ==> cal.lo <= Later(wall, g) <= cal.hi)
    && (forall g :: 0 <= g < h ==> cal.earliest(Later(wall, g)).None?)
    && cal.earliest(Later(wall, h)) == Some(e)
  }

  ghost predicate Shows(cal: Calendar, wall: int, e: int) {
    exists h :: FirstInstant(cal, wall, h, e)
  }

  ghost predicate NoneAhead(cal: Calendar, wall: int, cursor: int) {
    forall e :: Shows(cal, wall, e) ==> e <= cursor
  }

  ghost function Later(wall: int, hours: int): int {
    wall + hours * 3_600_000_000_000
  }

  /** A length a duration can hold: at most `i64::MAX` milliseconds, in whole seconds. */
  ghost predicate Fits(len: int) {
    len <= 9_223_372_036_854_775_000_000_000
  }

  lemma {:induction false} ResolvedFrom(cal: Calendar, naive: int, hours: nat)
    requires hours <= 4 && forall g :: 0 <= g < hours ==> cal.lo <= Later(naive, g) <= cal.hi
    requires forall g :: 0 <= g < hours ==> cal.earliest(Later(naive, g)).None?
    ensures forall e :: ResolveLocal(cal, naive, hours) == Some(e) <==> Shows(cal, naive, e)
    decreases 4 - hours
  {
    if hours < 4 {
      var t := Later(naive, hours);
      assert t == naive + hours * HOUR;
      if cal.lo <= t <= cal.hi {
        if cal.earliest(t).Some? {
          assert FirstInstant(cal, naive, hours, cal.earliest(t).value);
        } else {
          ResolvedFrom(cal, naive, hours + 1);
        }
      }
    }
  }

  /** Advancing by days reaches exactly the first instant that many days on by the wall
      clock. */
  lemma AdvancedTo(cal: Calendar, cursor: int, days: int, e: int)
    requires days > 0
    ensures AdvanceCalendar(cal, cursor, days) == Some(e) <==>
            && Fits(days * 86_400_000_000_000)
            && Shows(cal, cal.toLocal(cursor) + days * 86_400_000_000_000, e)
  {
    hide ResolveLocal;
    var wall := cal.toLocal(cursor) + days * 86_400_000_000_000;
    ResolvedFrom(cal, wall, 0);
    if Shows(cal, wall, e) {
      var h :| FirstInstant(cal, wall, h, e);
      assert cal.lo <= Later(wall, 0) <= cal.hi;
    }
  }

  lemma CalendarLength(step: WindowStep, len: int)
    requires Positive(step) && !step.Absolute? && Lasts(step, len)
    ensures Fits(len) ==> CalendarDays(step).Some? && CalendarDays(step).value > 0
                          && CalendarDays(step).value * 86_400_000_000_000 == len
    ensures Nominal(step) == if Fits(len) then Some(len) else None
    ensures CalendarDays(step).Some? ==> CalendarDays(step).value * 86_400_000_000_000 == len
  {
  }

  /** A day or week window ends at the instant the wall clock shows the step's length
      later, nudged out of a gap by whole hours, when that is ahead of the cursor. */
  lemma CalendarWindow(cal: Calendar, step: WindowStep, cursor: int, end: int, len: int, h: int, e: int)
    requires cursor < end && Positive(step) && !step.Absolute? && Lasts(step, len) && Fits(len)
    requires FirstInstant(cal, cal.toLocal(cursor) + len, h, e) && e > cursor
    ensures WindowEnd(cal, step, cursor, end) == if e < end then e else end
  {
    hide AdvanceCalendar, CalendarDays, NominalNext, FirstInstant;
    assert Shows(cal, cal.toLocal(cursor) + len, e);
    CalendarLength(step, len);
    AdvancedTo(cal, cursor, CalendarDays(step).value, e);
  }

  /** Otherwise, when no such instant is ahead, it lasts the step's nominal length; a
      boundary outside the representable dates ends the range. */
  lemma NominalWindow(cal: Calendar, step: WindowStep, cursor: int, end: int, len: int)
    requires cursor < end && Positive(step) && Lasts(step, len)
    requires step.Absolute? || !Fits(len) || NoneAhead(cal, cal.toLocal(cursor) + len, cursor)
    ensures WindowEnd(cal, step, cursor, end)
         == if (step.Absolute? || Fits(len)) && cal.lo <= cursor + len <= cal.hi && cursor + len < end then cursor + len
            else end
  {
    hide AdvanceCalendar, CalendarDays, Shows;
    if !step.Absolute? {
      CalendarLength(step, len);
      if CalendarDays(step).Some? {
        var days := CalendarDays(step).value;
        DaysPositive(step);
        forall e ensures AdvanceCalendar(cal, cursor, days) == Some(e) <==>
                         Fits(len) && Shows(cal, cal.toLocal(cursor) + len, e)
        {
          AdvancedTo(cal, cursor, days, e);
        }
      }
    } else {
      NoCalendarDays(step);
    }
  }

  lemma DaysPositive(step: WindowStep)
    requires Positive(step) && CalendarDays(step).Some?
    ensures CalendarDays(step).value > 0
  {
  }

  lemma NoCalendarDays(step: WindowStep)
    requires step.Absolute?
    ensures CalendarDays(step).None?
  {
  }

  // ── Planning ───────────────────────────────────────────────────────────────

  /** A window and its stable id: its start, to the second. */
  datatype TimeChunk = TimeChunk(id: int, start: int, end: int)

  datatype PlanError = EmptyRange | TooManyUnits

  /** The windows the step cuts `[cursor, end)` into, however many. */
  ghost function Windows(cal: Calendar, step: WindowStep, cursor: int, end: int): seq<TimeChunk>
    requires Positive(step)
    decreases end - cursor
  {
    if cursor >= end then []
    else
      var e := WindowEnd(cal, step, cursor, end);
      [TimeChunk(cursor / NANOS, cursor, e)] + Windows(cal, step, e, end)
  }

  /** Without a window the whole range is one unit. */
  function StepFor(window: Option<WindowStep>, from: int, to: int): WindowStep {
    if window.Some? then window.value else Absolute(to - from)
  }

  /** Chunk `[from, to)` into contiguous half-open windows. */
  method PlanWindows(cal: Calendar, from: int, to: int, window: Option<WindowStep>)
    returns (r: Result<seq<TimeChunk>, PlanError>)
    requires window.Some? ==> Positive(window.value)
    ensures r == Err(EmptyRange) <==> from >= to
    ensures from < to && window.None? ==> r == Ok([TimeChunk(from / 1_000_000_000, from, to)])
    ensures from < to && window.Some? ==>
              var ws := Windows(cal, window.value, from, to);
              r == if |ws| > 10_000 then Err(TooManyUnits) else Ok(ws)
  {
    hide WindowEnd, Windows;
    if from >= to { return Err(EmptyRange); }
    var units: seq<TimeChunk> := [];
    var cursor, end := from, to;
    var step := StepFor(window, from, to);
    ghost var ws := Windows(cal, step, from, to);
    if window.None? { WholeRange(cal, from, to); }
    while cursor < end
      invariant cursor <= end && |units| <= MAX_UNITS
      invariant units + Windows(cal, step, cursor, end) == ws
      decreases end - cursor
    {
      if |units| >= MAX_UNITS {
        WindowsStep(cal, step, cursor, end);
        return Err(TooManyUnits);
      }
      var unitEnd := WindowEnd(cal, step, cursor, end);
      WindowsStep(cal, step, cursor, end);
      Moved(units, TimeChunk(cursor / NANOS, cursor, unitEnd), Windows(cal, step, unitEnd, end));
      units := units + [TimeChunk(cursor / NANOS, cursor, unitEnd)];
      cursor := unitEnd;
    }
    WindowsDone(cal, step, end);
    assert units + [] == units;
    r := Ok(units);
  }

  lemma WindowsStep(cal: Calendar, step: WindowStep, cursor: int, end: int)
    requires Positive(step) && cursor < end
    ensures var e := WindowEnd(cal, step, cursor, end);
            Windows(cal, step, cursor, end) == [TimeChunk(cursor / NANOS, cursor, e)] + Windows(cal, step, e, end)
  {
    hide WindowEnd;
  }

  lemma WindowsDone(cal: Calendar, step: WindowStep, end: int)
    requires Positive(step)
    ensures Windows(cal, step, end, end) == []
  {
  }

  lemma Moved(units: seq<TimeChunk>, c: TimeChunk, rest: seq<TimeChunk>)
    ensures units + ([c] + rest) == units + [c] + rest
  {
  }

  /** Each window is named by its start, to the second, and ends where the step from
      its start does. */
  lemma {:induction false} WindowAt(cal: Calendar, step: WindowStep, from: int, to: int, i: nat)
    requires Positive(step) && i < |Windows(cal, step, from, to)|
    ensures var c := Windows(cal, step, from, to)[i];
            && from <= c.start < to && c.end == WindowEnd(cal, step, c.start, to)
            && c.id * 1_000_000_000 <= c.start < (c.id + 1) * 1_000_000_000
    decreases (to - from)
  {
    hide WindowEnd;
    if i > 0 { WindowAt(cal, step, WindowEnd(cal, step, from, to), to, i - 1); }
  }

  /** Without a window the whole range is one unit. */
  lemma WholeRange(cal: Calendar, from: int, to: int)
    requires from < to
    ensures Windows(cal, StepFor(None, from, to), from, to) == [TimeChunk(from / 1_000_000_000, from, to)]
  {
    NominalWindow(cal, Absolute(to - from), from, to, to - from);
    assert Windows(cal, Absolute(to - from), to, to) == [];
  }

  /** Contiguous, non-empty, from `from` to `to`. */
  ghost predicate Tiles(ws: seq<TimeChunk>, from: int, to: int) {
    && ws != [] && ws[0].start == from && ws[|ws| - 1].end == to
    && (forall i :: 0 <= i < |ws| ==> ws[i].start < ws[i].end)
    && (forall i :: 0 < i < |ws| ==> ws[i - 1].end == ws[i].start)
  }

  lemma {:induction false} WindowsTile(cal: Calendar, step: WindowStep, from: int, to: int)
    requires Positive(step) && from < to
    ensures Tiles(Windows(cal, step, from, to), from, to)
    decreases (to - from)
  {
    hide WindowEnd;
    var e := WindowEnd(cal, step, from, to);
    if e < to { WindowsTile(cal, step, e, to); }
  }

  lemma {:induction false} TilesOrdered(ws: seq<TimeChunk>, from: int, to: int, i: nat, j: nat)
    requires Tiles(ws, from, to) && i < j < |ws|
    ensures ws[i].end <= ws[j].start
    decreases j
  {
    assert ws[j - 1].end == ws[j].start;
    if i < j - 1 { TilesOrdered(ws, from, to, i, j - 1); }
  }

  /** Every instant of the range is in exactly one window. */
  lemma InOneWindow(ws: seq<TimeChunk>, from: int, to: int, t: int) returns (i: nat)
    requires Tiles(ws, from, to) && from <= t < to
    ensures i < |ws| && ws[i].start <= t < ws[i].end
    ensures forall j :: 0 <= j < |ws| && ws[j].start <= t < ws[j].end ==> j == i
  {
    i := 0;
    while t >= ws[i].end
      invariant 0 <= i < |ws| && ws[i].start <= t
      decreases |ws| - i
    {
      assert i + 1 < |ws| ==> ws[i + 1 - 1].end == ws[i + 1].start;
      i := i + 1;
    }
    forall j | 0 <= j < |ws| && ws[j].start <= t < ws[j].end ensures j == i {
      if i < j { TilesOrdered(ws, from, to, i, j); }
      if j < i { TilesOrdered(ws, from, to, j, i); }
    }
  }

  // ── Stable ids ─────────────────────────────────────────────────────────────

  lemma {:induction false} IdsGrow(ws: seq<TimeChunk>, i: nat, j: nat)
    requires i < j < |ws| && forall k :: 0 <= k < |ws| ==> ws[k].id == ws[k].start / NANOS
    requires forall k :: 0 < k < |ws| ==> ws[k].start >= ws[k - 1].start + NANOS
    ensures ws[i].id < ws[j].id
    decreases j
  {
    assert ws[j].start >= ws[j - 1].start + NANOS;
    if i < j - 1 { IdsGrow(ws, i, j - 1); }
  }

  /** Units start `d` apart, the first at `from`, and are named by their start. */
  ghost predicate EvenlySpaced(ws: seq<TimeChunk>, d: int, from: int) {
    && (forall k :: 0 <= k < |ws| ==> ws[k].id == ws[k].start / NANOS)
    && (forall k :: 0 < k < |ws| ==> ws[k].start == ws[k - 1].start + d)
    && (ws != [] ==> ws[0].start == from)
  }

  lemma {:induction false} AbsoluteStarts(cal: Calendar, d: int, from: int, to: int)
    requires d > 0
    ensures EvenlySpaced(Windows(cal, Absolute(d), from, to), d, from)
    decreases (to - from)
  {
    if from < to {
      var e := WindowEnd(cal, Absolute(d), from, to);
      AbsoluteStarts(cal, d, e, to);
      var rest := Windows(cal, Absolute(d), e, to);
      assert Windows(cal, Absolute(d), from, to)[1..] == rest;
    }
  }

  /** With a step of whole seconds every unit has its own id. */
  lemma AbsoluteIdsDistinct(cal: Calendar, d: int, from: int, to: int, i: nat, j: nat)
    requires d >= NANOS && i < j < |Windows(cal, Absolute(d), from, to)|
    ensures Windows(cal, Absolute(d), from, to)[i].id != Windows(cal, Absolute(d), from, to)[j].id
  {
    hide Windows;
    AbsoluteStarts(cal, d, from, to);
    IdsGrow(Windows(cal, Absolute(d), from, to), i, j);
  }

  lemma WindowEndStable(cal: Calendar, step: WindowStep, cursor: int, end: int, later: int)
    requires Positive(step) && cursor < end <= later && WindowEnd(cal, step, cursor, end) < end
    ensures WindowEnd(cal, step, cursor, later) == WindowEnd(cal, step, cursor, end)
  {
  }

  /** Growing the range leaves every unit but the old last one as it was. */
  lemma {:induction false} GrowingRange(cal: Calendar, step: WindowStep, from: int, to: int, later: int, i: nat)
    requires Positive(step) && to <= later && i + 1 < |Windows(cal, step, from, to)|
    ensures i < |Windows(cal, step, from, later)|
    ensures Windows(cal, step, from, later)[i] == Windows(cal, step, from, to)[i]
    decreases (to - from)
  {
    hide WindowEnd;
    var e := WindowEnd(cal, step, from, to);
    WindowEndStable(cal, step, from, to, later);
    if i > 0 { GrowingRange(cal, step, e, to, later, i - 1); }
  }
}
