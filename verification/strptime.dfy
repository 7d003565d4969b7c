/**
 Python's `datetime.strptime` for the two formats the system parses
 (`%d/%b/%Y:%H:%M:%S` in access logs, `%Y%m%d` in RIR statistics) and the
 `strftime` renderings it writes.

 `strptime` compiles the format into a regular expression in which every
 numeric directive is an ordered alternation (for `%d`:
 `3[01]|[12]\d|0[1-9]|[1-9]| [1-9]`), matches it at the start of the text
 with ordinary backtracking, rejects the text when the match does not reach
 its end ("unconverted data remains"), and finally lets `datetime` reject
 values outside the calendar.
 */
module Strptime {
  import opened Wrappers
  import opened Text

  /** One character position of an alternative: an ASCII digit in `lo..hi`, or one literal character. */
  datatype Atom = DigitIn(lo: nat, hi: nat) | Char(c: char)

  datatype Field = Year | Month | Day | Hour | Minute | Second

  datatype Directive =
    | Numeric(field: Field, alts: seq<seq<Atom>>)   // a numeric directive, alternatives in regex order
    | MonthAbbrev                                   // `%b`, case-insensitive
    | Lit(c: char)                                  // a literal format character

  datatype Capture = Capture(field: Field, value: nat)

  datatype DateTime = DateTime(year: nat, month: nat, day: nat, hour: nat, minute: nat, second: nat)

  const Digit := DigitIn(0, 9)

  // The alternations of CPython's `_strptime` for each directive used here.
  const DayAlts: seq<seq<Atom>> :=
    [[DigitIn(3, 3), DigitIn(0, 1)], [DigitIn(1, 2), Digit], [DigitIn(0, 0), DigitIn(1, 9)],
     [DigitIn(1, 9)], [Char(' '), DigitIn(1, 9)]]
  const MonthAlts: seq<seq<Atom>> := [[DigitIn(1, 1), DigitIn(0, 2)], [DigitIn(0, 0), DigitIn(1, 9)], [DigitIn(1, 9)]]
  const YearAlts: seq<seq<Atom>> := [[Digit, Digit, Digit, Digit]]
  const HourAlts: seq<seq<Atom>> := [[DigitIn(2, 2), DigitIn(0, 3)], [DigitIn(0, 1), Digit], [Digit]]
  const MinuteAlts: seq<seq<Atom>> := [[DigitIn(0, 5), Digit], [Digit]]
  const SecondAlts: seq<seq<Atom>> := [[DigitIn(6, 6), DigitIn(0, 1)], [DigitIn(0, 5), Digit], [Digit]]

  /** `%d/%b/%Y:%H:%M:%S` */
  const LogFormat: seq<Directive> :=
    [Numeric(Day, DayAlts), Lit('/'), MonthAbbrev, Lit('/'), Numeric(Year, YearAlts), Lit(':'),
     Numeric(Hour, HourAlts), Lit(':'), Numeric(Minute, MinuteAlts), Lit(':'), Numeric(Second, SecondAlts)]

  /** `%Y%m%d` */
  const YmdFormat: seq<Directive> :=
    [Numeric(Year, YearAlts), Numeric(Month, MonthAlts), Numeric(Day, DayAlts)]

  /** The C-locale month abbreviations, January first, as `strftime('%b')` writes them. */
  const MonthNames: seq<string> :=
    ["Jan", "Feb", "Mar", "Apr", "May", "Jun", "Jul", "Aug", "Sep", "Oct", "Nov", "Dec"]

  /** The same names lower-cased, as `strptime`'s case-insensitive `%b` alternation holds them. */
  const MonthKeys: seq<string> :=
    ["jan", "feb", "mar", "apr", "may", "jun", "jul", "aug", "sep", "oct", "nov", "dec"]

  function MonthKey(m: nat): string
    requires 1 <= m <= 12
  {
    MonthKeys[m - 1]
  }

  predicate AtomMatches(a: Atom, c: char) {
    match a
    case DigitIn(lo, hi) => IsDigit(c) && lo <= DigitValue(c) <= hi
    case Char(x) => c == x
  }

  predicate AltMatchesAt(s: string, pos: nat, alt: seq<Atom>) {
    pos + |alt| <= |s| && forall i :: 0 <= i < |alt| ==> AtomMatches(alt[i], s[pos + i])
  }

  /** Python's `int()` of a matched numeric field: digits, possibly after the one space `%d` admits. */
  function FieldNumber(s: string): nat {
    if |s| == 0 then 0
    else if IsDigit(s[|s| - 1]) then 10 * FieldNumber(s[..|s| - 1]) + DigitValue(s[|s| - 1])
    else FieldNumber(s[..|s| - 1])
  }

  /** The month whose abbreviation sits at `pos`, compared without case. */
  function MonthAt(s: string, pos: nat): (r: Option<nat>)
    ensures r.Some? ==> 1 <= r.value <= 12 && pos + 3 <= |s|
                        && LowerStr(s[pos..pos + 3]) == MonthKey(r.value)
    ensures r.None? ==> pos + 3 > |s| || forall k :: 1 <= k <= 12 ==> LowerStr(s[pos..pos + 3]) != MonthKey(k)
  {
    if pos + 3 > |s| then None else MonthFrom(LowerStr(s[pos..pos + 3]), 1)
  }

  function MonthFrom(w: string, m: nat): (r: Option<nat>)
    requires 1 <= m <= 13
    ensures r.Some? ==> m <= r.value <= 12 && w == MonthKey(r.value)
    ensures r.Some? ==> forall k :: m <= k < r.value ==> w != MonthKey(k)
    ensures r.None? ==> forall k :: m <= k <= 12 ==> w != MonthKey(k)
    decreases 13 - m
  {
    if m == 13 then None
    else if w == MonthKey(m) then Some(m)
    else MonthFrom(w, m + 1)
  }

  /**
   The regex engine's first successful match of `fmt` at `pos`: the end
   position and the captured fields. Alternatives are tried in order and a
   later one only when the rest of the format fails after an earlier one.
   */
  function MatchSeq(s: string, pos: nat, fmt: seq<Directive>): (r: Option<(nat, seq<Capture>)>)
    requires pos <= |s|
    ensures r.Some? ==> pos <= r.value.0 <= |s|
    decreases |fmt|, 1, 0
  {
    if |fmt| == 0 then Some((pos, []))
    else
      match fmt[0]
      case Lit(c) =>
        if pos < |s| && s[pos] == c then MatchSeq(s, pos + 1, fmt[1..]) else None
      case MonthAbbrev =>
        (match MonthAt(s, pos)
         case None => None
         case Some(m) =>
           (match MatchSeq(s, pos + 3, fmt[1..])
            case None => None
            case Some(rest) => Some((rest.0, [Capture(Month, m)] + rest.1))))
      case Numeric(f, alts) => TryAlts(s, pos, f, alts, fmt[1..])
  }

  function TryAlts(s: string, pos: nat, f: Field, alts: seq<seq<Atom>>, rest: seq<Directive>)
    : (r: Option<(nat, seq<Capture>)>)
    requires pos <= |s|
    ensures r.Some? ==> pos <= r.value.0 <= |s|
    decreases |rest| + 1, 0, |alts|
  {
    if |alts| == 0 then None
    else if AltMatchesAt(s, pos, alts[0]) then
      var e := pos + |alts[0]|;
      match MatchSeq(s, e, rest)
      case Some(more) => Some((more.0, [Capture(f, FieldNumber(s[pos..e]))] + more.1))
      case None => TryAlts(s, pos, f, alts[1..], rest)
    else TryAlts(s, pos, f, alts[1..], rest)
  }

  /** Fields `strptime` leaves at their defaults: 1900-01-01 00:00:00. */
  const Defaults := DateTime(1900, 1, 1, 0, 0, 0)

  /** Stores one captured value in its field. */
  function Apply(c: Capture, dt: DateTime): DateTime {
    match c.field
    case Year => dt.(year := c.value)
    case Month => dt.(month := c.value)
    case Day => dt.(day := c.value)
    case Hour => dt.(hour := c.value)
    case Minute => dt.(minute := c.value)
    case Second => dt.(second := c.value)
  }

  /** The captures applied left to right over the defaults, as `_strptime` reads its match groups. */
  function Assemble(caps: seq<Capture>, dt: DateTime): DateTime {
    if |caps| == 0 then dt else Assemble(caps[1..], Apply(caps[0], dt))
  }

  predicate IsLeapYear(y: nat) {
    y % 4 == 0 && (y % 100 != 0 || y % 400 == 0)
  }

  function DaysInMonth(y: nat, m: nat): nat
    requires 1 <= m <= 12
  {
    if m == 2 then (if IsLeapYear(y) then 29 else 28)
    else if m == 4 || m == 6 || m == 9 || m == 11 then 30
    else 31
  }

  /** What `datetime` accepts: years 1..9999 and a real calendar day and time. */
  predicate ValidDateTime(dt: DateTime) {
    && 1 <= dt.year <= 9999
    && 1 <= dt.month <= 12
    && 1 <= dt.day <= DaysInMonth(dt.year, dt.month)
    && dt.hour < 24 && dt.minute < 60 && dt.second < 60
  }

  /** `datetime.strptime(s, fmt)`, `None` where it raises `ValueError`. */
  function Parse(s: string, fmt: seq<Directive>): (r: Option<DateTime>)
    ensures r.Some? ==> ValidDateTime(r.value)
  {
    match MatchSeq(s, 0, fmt)
    case None => None
    case Some(m) =>
      if m.0 != |s| then None
      else
        var dt := Assemble(m.1, Defaults);
        if ValidDateTime(dt) then Some(dt) else None
  }

  // ------------------------------------------------------------- strftime

  /** Field values the fixed-width renderings below can write: those of a
      `datetime`, except that the day is only bounded by 31 and the year may be 0. */
  predicate InRange(dt: DateTime) {
    && dt.year <= 9999 && 1 <= dt.month <= 12 && 1 <= dt.day <= 31
    && dt.hour < 24 && dt.minute < 60 && dt.second < 60
  }

  /** The characters a rendered timestamp is made of: digits, ASCII letters, `/` and `:`. */
  predicate StampChar(c: char) {
    IsDigit(c) || c == '/' || c == ':' || 'A' <= c <= 'Z' || 'a' <= c <= 'z'
  }

  predicate StampChars(s: string) {
    forall i :: 0 <= i < |s| ==> StampChar(s[i])
  }

  lemma StampCat(a: string, b: string)
    requires StampChars(a) && StampChars(b)
    ensures StampChars(a + b)
  {
    forall i | 0 <= i < |a + b| ensures StampChar((a + b)[i]) {
      if i >= |a| {
        assert (a + b)[i] == b[i - |a|];
      }
    }
  }

  lemma MonthNameChars(m: nat)
    requires 1 <= m <= 12
    ensures |MonthNames[m - 1]| == 3 && StampChars(MonthNames[m - 1])
  {
  }

  /** `dt.strftime('%d/%b/%Y:%H:%M:%S')` */
  function FormatLog(dt: DateTime): (r: string)
    requires InRange(dt)
    ensures |r| == 20 && NoSpace(r)
    ensures Excludes(r, ']') && Excludes(r, '"') && Excludes(r, '\n')
  {
    MonthNameChars(dt.month);
    var p2 := Pad2(dt.day) + "/" + MonthNames[dt.month - 1];
    StampCat(Pad2(dt.day), "/");
    StampCat(Pad2(dt.day) + "/", MonthNames[dt.month - 1]);
    var p5 := p2 + "/" + Pad4(dt.year) + ":";
    StampCat(p2, "/");
    StampCat(p2 + "/", Pad4(dt.year));
    StampCat(p2 + "/" + Pad4(dt.year), ":");
    var p7 := p5 + Pad2(dt.hour) + ":";
    StampCat(p5, Pad2(dt.hour));
    StampCat(p5 + Pad2(dt.hour), ":");
    var p9 := p7 + Pad2(dt.minute) + ":";
    StampCat(p7, Pad2(dt.minute));
    StampCat(p7 + Pad2(dt.minute), ":");
    var r := p9 + Pad2(dt.second);
    StampCat(p9, Pad2(dt.second));
    r
  }

  lemma ValidIsInRange(dt: DateTime)
    requires ValidDateTime(dt)
    ensures InRange(dt)
  {
  }

  /** `dt.strftime('%Y-%m-%d')`, the daily key. */
  function DateKey(dt: DateTime): (r: string)
    requires InRange(dt)
    ensures |r| == 10 && r[4] == '-' && r[7] == '-'
    ensures AllDigits(r[..4]) && AllDigits(r[5..7]) && AllDigits(r[8..])
    ensures NatOfDigits(r[..4]) == dt.year && NatOfDigits(r[5..7]) == dt.month && NatOfDigits(r[8..]) == dt.day
  {
    Pad4Value(dt.year);
    Pad2Value(dt.month);
    Pad2Value(dt.day);
    var r := Pad4(dt.year) + "-" + Pad2(dt.month) + "-" + Pad2(dt.day);
    assert r[..4] == Pad4(dt.year) && r[5..7] == Pad2(dt.month) && r[8..] == Pad2(dt.day);
    r
  }

  /** `dt.strftime('%H')`, the hourly key: the hour alone, whatever the day. */
  function HourKey(dt: DateTime): (r: string)
    requires InRange(dt)
    ensures |r| == 2 && AllDigits(r) && NatOfDigits(r) == dt.hour
  {
    Pad2Value(dt.hour);
    Pad2(dt.hour)
  }

  /** `dt.strftime('%Y-%m-%d %H:%M:%S')`, the report's `last_updated`. */
  function Stamp(dt: DateTime): string
    requires InRange(dt)
  {
    DateKey(dt) + " " + Pad2(dt.hour) + ":" + Pad2(dt.minute) + ":" + Pad2(dt.second)
  }

  /** The eight digits `%Y%m%d` reads, as the RIR statistics files write dates. */
  function FormatYmd(dt: DateTime): (r: string)
    requires InRange(dt)
    ensures |r| == 8 && AllDigits(r)
  {
    Pad4(dt.year) + Pad2(dt.month) + Pad2(dt.day)
  }

  // ---------------------------------------------------- round-trip proofs

  lemma FieldNumberOfDigits(s: string)
    requires AllDigits(s)
    ensures FieldNumber(s) == NatOfDigits(s)
  {
  }

  lemma Pad2Number(n: nat)
    requires n < 100
    ensures FieldNumber(Pad2(n)) == n
  {
    FieldNumberOfDigits(Pad2(n));
    Pad2Value(n);
  }

  lemma Pad4Number(n: nat)
    requires n < 10000
    ensures FieldNumber(Pad4(n)) == n
  {
    FieldNumberOfDigits(Pad4(n));
    Pad4Value(n);
  }

  /** The alternation takes the first alternative that matches and lets the rest of the format match. */
  lemma {:induction false} TryAltsPicks(s: string, pos: nat, f: Field, alts: seq<seq<Atom>>,
                                        rest: seq<Directive>, k: nat)
    requires pos <= |s| && k < |alts|
    requires forall j :: 0 <= j < k ==> !AltMatchesAt(s, pos, alts[j])
    requires AltMatchesAt(s, pos, alts[k])
    requires MatchSeq(s, pos + |alts[k]|, rest).Some?
    ensures var more := MatchSeq(s, pos + |alts[k]|, rest).value;
            TryAlts(s, pos, f, alts, rest)
            == Some((more.0, [Capture(f, FieldNumber(s[pos..pos + |alts[k]|]))] + more.1))
    decreases k
  {
    if k > 0 {
      TryAltsPicks(s, pos, f, alts[1..], rest, k - 1);
    }
  }

  /** A two-digit rendering of `n` at `pos` is read back as `n` by the alternative at index `k`. */
  lemma TwoDigitField(s: string, pos: nat, f: Field, alts: seq<seq<Atom>>, rest: seq<Directive>,
                      n: nat, k: nat)
    requires n < 100 && pos + 2 <= |s| && s[pos..pos + 2] == Pad2(n)
    requires k < |alts| && |alts[k]| == 2
    requires forall j :: 0 <= j < k ==> !AltMatchesAt(s, pos, alts[j])
    requires AltMatchesAt(s, pos, alts[k])
    requires MatchSeq(s, pos + 2, rest).Some?
    ensures var more := MatchSeq(s, pos + 2, rest).value;
            TryAlts(s, pos, f, alts, rest) == Some((more.0, [Capture(f, n)] + more.1))
  {
    TryAltsPicks(s, pos, f, alts, rest, k);
    Pad2Number(n);
  }

  lemma DayField(s: string, pos: nat, rest: seq<Directive>, d: nat)
    requires 1 <= d <= 31 && pos + 2 <= |s| && s[pos..pos + 2] == Pad2(d)
    requires MatchSeq(s, pos + 2, rest).Some?
    ensures var more := MatchSeq(s, pos + 2, rest).value;
            TryAlts(s, pos, Day, DayAlts, rest) == Some((more.0, [Capture(Day, d)] + more.1))
  {
    assert s[pos] == DigitChar(d / 10) && s[pos + 1] == DigitChar(d % 10);
    assert DigitValue(s[pos]) == d / 10;
    var k := if d >= 30 then 0 else if d >= 10 then 1 else 2;
    if k >= 1 {
      assert !AtomMatches(DayAlts[0][0], s[pos]);
    }
    if k >= 2 {
      assert !AtomMatches(DayAlts[1][0], s[pos]);
    }
    TwoDigitField(s, pos, Day, DayAlts, rest, d, k);
  }

  lemma MonthField(s: string, pos: nat, rest: seq<Directive>, m: nat)
    requires 1 <= m <= 12 && pos + 2 <= |s| && s[pos..pos + 2] == Pad2(m)
    requires MatchSeq(s, pos + 2, rest).Some?
    ensures var more := MatchSeq(s, pos + 2, rest).value;
            TryAlts(s, pos, Month, MonthAlts, rest) == Some((more.0, [Capture(Month, m)] + more.1))
  {
    assert s[pos] == DigitChar(m / 10) && s[pos + 1] == DigitChar(m % 10);
    assert DigitValue(s[pos]) == m / 10;
    var k := if m >= 10 then 0 else 1;
    if k >= 1 {
      assert !AtomMatches(MonthAlts[0][0], s[pos]);
    }
    TwoDigitField(s, pos, Month, MonthAlts, rest, m, k);
  }

  lemma HourField(s: string, pos: nat, rest: seq<Directive>, h: nat)
    requires h < 24 && pos + 2 <= |s| && s[pos..pos + 2] == Pad2(h)
    requires MatchSeq(s, pos + 2, rest).Some?
    ensures var more := MatchSeq(s, pos + 2, rest).value;
            TryAlts(s, pos, Hour, HourAlts, rest) == Some((more.0, [Capture(Hour, h)] + more.1))
  {
    assert s[pos] == DigitChar(h / 10) && s[pos + 1] == DigitChar(h % 10);
    assert DigitValue(s[pos]) == h / 10;
    var k := if h >= 20 then 0 else 1;
    if k >= 1 {
      assert !AtomMatches(HourAlts[0][0], s[pos]);
    }
    TwoDigitField(s, pos, Hour, HourAlts, rest, h, k);
  }

  lemma MinuteField(s: string, pos: nat, rest: seq<Directive>, mi: nat)
    requires mi < 60 && pos + 2 <= |s| && s[pos..pos + 2] == Pad2(mi)
    requires MatchSeq(s, pos + 2, rest).Some?
    ensures var more := MatchSeq(s, pos + 2, rest).value;
            TryAlts(s, pos, Minute, MinuteAlts, rest) == Some((more.0, [Capture(Minute, mi)] + more.1))
  {
    assert s[pos] == DigitChar(mi / 10) && s[pos + 1] == DigitChar(mi % 10);
    TwoDigitField(s, pos, Minute, MinuteAlts, rest, mi, 0);
  }

  lemma SecondField(s: string, pos: nat, rest: seq<Directive>, sec: nat)
    requires sec < 60 && pos + 2 <= |s| && s[pos..pos + 2] == Pad2(sec)
    requires MatchSeq(s, pos + 2, rest).Some?
    ensures var more := MatchSeq(s, pos + 2, rest).value;
            TryAlts(s, pos, Second, SecondAlts, rest) == Some((more.0, [Capture(Second, sec)] + more.1))
  {
    assert s[pos] == DigitChar(sec / 10) && s[pos + 1] == DigitChar(sec % 10);
    assert DigitValue(s[pos]) == sec / 10;
    assert !AtomMatches(SecondAlts[0][0], s[pos]);
    TwoDigitField(s, pos, Second, SecondAlts, rest, sec, 1);
  }

  lemma MonthNameField(s: string, pos: nat, m: nat)
    requires 1 <= m <= 12 && pos + 3 <= |s| && s[pos..pos + 3] == MonthNames[m - 1]
    ensures MonthAt(s, pos) == Some(m)
  {
    MonthNameKey(m);
    var r := MonthAt(s, pos);
    assert r.Some?;
    MonthKeysDistinct(r.value, m);
  }

  /** Lower-casing a month abbreviation gives its key. */
  lemma MonthNameKey(m: nat)
    requires 1 <= m <= 12
    ensures LowerStr(MonthNames[m - 1]) == MonthKey(m)
  {
    var name := MonthNames[m - 1];
    assert LowerStr(name) == [Lower(name[0]), Lower(name[1]), Lower(name[2])];
  }

  /** No two months share a key. */
  lemma MonthKeysDistinct(j: nat, k: nat)
    requires 1 <= j <= 12 && 1 <= k <= 12
    ensures MonthKey(j) == MonthKey(k) ==> j == k
  {
  }

  lemma YearField(s: string, pos: nat, rest: seq<Directive>, y: nat)
    requires y < 10000 && pos + 4 <= |s| && s[pos..pos + 4] == Pad4(y)
    requires MatchSeq(s, pos + 4, rest).Some?
    ensures var more := MatchSeq(s, pos + 4, rest).value;
            TryAlts(s, pos, Year, YearAlts, rest) == Some((more.0, [Capture(Year, y)] + more.1))
  {
    assert AltMatchesAt(s, pos, YearAlts[0]) by {
      forall i | 0 <= i < 4 ensures AtomMatches(YearAlts[0][i], s[pos + i]) {
        assert s[pos + i] == Pad4(y)[i];
      }
    }
    TryAltsPicks(s, pos, Year, YearAlts, rest, 0);
    Pad4Number(y);
  }

  /** The six captures in the order `%d/%b/%Y:%H:%M:%S` produces them fill in every field. */
  lemma AssembleLog(dt: DateTime)
    ensures Assemble([Capture(Day, dt.day), Capture(Month, dt.month), Capture(Year, dt.year),
                      Capture(Hour, dt.hour), Capture(Minute, dt.minute), Capture(Second, dt.second)],
                     Defaults) == dt
  {
    var caps := [Capture(Day, dt.day), Capture(Month, dt.month), Capture(Year, dt.year),
                 Capture(Hour, dt.hour), Capture(Minute, dt.minute), Capture(Second, dt.second)];
    var d1 := Apply(caps[0], Defaults);
    var d2 := Apply(caps[1], d1);
    var d3 := Apply(caps[2], d2);
    var d4 := Apply(caps[3], d3);
    var d5 := Apply(caps[4], d4);
    var d6 := Apply(caps[5], d5);
    assert d6 == dt;
    assert caps[1..][1..][1..][1..][1..][1..] == [];
    assert Assemble(caps[1..][1..][1..][1..][1..][1..], d6) == dt;
    assert Assemble(caps[1..][1..][1..][1..][1..], d5) == dt;
    assert Assemble(caps[1..][1..][1..][1..], d4) == dt;
    assert Assemble(caps[1..][1..][1..], d3) == dt;
    assert Assemble(caps[1..][1..], d2) == dt;
    assert Assemble(caps[1..], d1) == dt;
  }

  lemma LitStep(s: string, pos: nat, F: seq<Directive>, k: nat)
    requires pos < |s| && k < |F| && F[k] == Lit(s[pos])
    ensures MatchSeq(s, pos, F[k..]) == MatchSeq(s, pos + 1, F[k + 1..])
  {
    assert F[k..][0] == F[k] && F[k..][1..] == F[k + 1..];
  }

  lemma NumericStep(s: string, pos: nat, F: seq<Directive>, k: nat)
    requires pos <= |s| && k < |F| && F[k].Numeric?
    ensures MatchSeq(s, pos, F[k..]) == TryAlts(s, pos, F[k].field, F[k].alts, F[k + 1..])
  {
    assert F[k..][0] == F[k] && F[k..][1..] == F[k + 1..];
  }

  lemma DayStep(s: string, pos: nat, F: seq<Directive>, k: nat, d: nat)
    requires 1 <= d <= 31 && pos + 2 <= |s| && s[pos..pos + 2] == Pad2(d)
    requires k < |F| && F[k] == Numeric(Day, DayAlts)
    requires MatchSeq(s, pos + 2, F[k + 1..]).Some?
    ensures var more := MatchSeq(s, pos + 2, F[k + 1..]).value;
            MatchSeq(s, pos, F[k..]) == Some((more.0, [Capture(Day, d)] + more.1))
  {
    NumericStep(s, pos, F, k);
    DayField(s, pos, F[k + 1..], d);
  }

  lemma MonthStep(s: string, pos: nat, F: seq<Directive>, k: nat, m: nat)
    requires 1 <= m <= 12 && pos + 3 <= |s| && s[pos..pos + 3] == MonthNames[m - 1]
    requires k < |F| && F[k] == MonthAbbrev
    requires MatchSeq(s, pos + 3, F[k + 1..]).Some?
    ensures var more := MatchSeq(s, pos + 3, F[k + 1..]).value;
            MatchSeq(s, pos, F[k..]) == Some((more.0, [Capture(Month, m)] + more.1))
  {
    MonthNameField(s, pos, m);
    assert F[k..][0] == F[k] && F[k..][1..] == F[k + 1..];
  }

  /** The character layout of a rendered log timestamp. */
  predicate LogLayoutOf(s: string, dt: DateTime)
    requires InRange(dt)
  {
    |s| == 20
    && s[0..2] == Pad2(dt.day) && s[2] == '/' && s[3..6] == MonthNames[dt.month - 1]
    && s[6] == '/' && s[7..11] == Pad4(dt.year) && s[11] == ':' && s[12..14] == Pad2(dt.hour)
    && s[14] == ':' && s[15..17] == Pad2(dt.minute) && s[17] == ':' && s[18..20] == Pad2(dt.second)
  }

  lemma LogLayout(dt: DateTime)
    requires InRange(dt)
    ensures LogLayoutOf(FormatLog(dt), dt)
  {
    var s := FormatLog(dt);
    var a := Pad2(dt.day) + "/" + MonthNames[dt.month - 1] + "/" + Pad4(dt.year) + ":";
    var b := a + Pad2(dt.hour) + ":";
    var c := b + Pad2(dt.minute) + ":";
    assert |a| == 12 && |b| == 15 && |c| == 18;
    assert s == c + Pad2(dt.second);
    assert s[0..2] == Pad2(dt.day) && s[2] == '/' && s[3..6] == MonthNames[dt.month - 1];
    assert s[6] == '/' && s[7..11] == Pad4(dt.year) && s[11] == ':' && s[12..14] == Pad2(dt.hour);
    assert s[14] == ':' && s[15..17] == Pad2(dt.minute) && s[17] == ':' && s[18..20] == Pad2(dt.second);
  }

  /** The time part `HH:MM:SS` of a rendered log timestamp matches the last five directives. */
  lemma LogTimeMatch(s: string, dt: DateTime)
    requires InRange(dt) && LogLayoutOf(s, dt)
    ensures MatchSeq(s, 11, LogFormat[5..])
            == Some((20, [Capture(Hour, dt.hour), Capture(Minute, dt.minute), Capture(Second, dt.second)]))
  {
    var F := LogFormat;
    var cS := Capture(Second, dt.second);
    var cMi := Capture(Minute, dt.minute);
    var cH := Capture(Hour, dt.hour);
    assert MatchSeq(s, 20, F[11..]) == Some((20, []));
    NumericStep(s, 18, F, 10);
    SecondField(s, 18, F[11..], dt.second);
    assert [cS] + [] == [cS];
    assert MatchSeq(s, 18, F[10..]) == Some((20, [cS]));
    LitStep(s, 17, F, 9);
    NumericStep(s, 15, F, 8);
    MinuteField(s, 15, F[9..], dt.minute);
    assert [cMi] + [cS] == [cMi, cS];
    assert MatchSeq(s, 15, F[8..]) == Some((20, [cMi, cS]));
    LitStep(s, 14, F, 7);
    NumericStep(s, 12, F, 6);
    HourField(s, 12, F[7..], dt.hour);
    assert [cH] + [cMi, cS] == [cH, cMi, cS];
    LitStep(s, 11, F, 5);
  }

  /** From the year on, a rendered log timestamp matches the rest of the format. */
  lemma LogYearMatch(s: string, dt: DateTime)
    requires InRange(dt) && LogLayoutOf(s, dt)
    ensures MatchSeq(s, 7, LogFormat[4..])
            == Some((20, [Capture(Year, dt.year), Capture(Hour, dt.hour), Capture(Minute, dt.minute),
                          Capture(Second, dt.second)]))
  {
    var F := LogFormat;
    var time := [Capture(Hour, dt.hour), Capture(Minute, dt.minute), Capture(Second, dt.second)];
    LogTimeMatch(s, dt);
    NumericStep(s, 7, F, 4);
    YearField(s, 7, F[5..], dt.year);
    assert [Capture(Year, dt.year)] + time == [Capture(Year, dt.year), Capture(Hour, dt.hour),
                                               Capture(Minute, dt.minute), Capture(Second, dt.second)];
  }

  /** From the month name on, a rendered log timestamp matches the rest of the format. */
  lemma LogMonthMatch(s: string, dt: DateTime)
    requires InRange(dt) && LogLayoutOf(s, dt)
    ensures MatchSeq(s, 3, LogFormat[2..])
            == Some((20, [Capture(Month, dt.month), Capture(Year, dt.year),
                          Capture(Hour, dt.hour), Capture(Minute, dt.minute), Capture(Second, dt.second)]))
  {
    var F := LogFormat;
    var time := [Capture(Hour, dt.hour), Capture(Minute, dt.minute), Capture(Second, dt.second)];
    var cY := Capture(Year, dt.year);
    var cMo := Capture(Month, dt.month);
    var tail := [cY, Capture(Hour, dt.hour), Capture(Minute, dt.minute), Capture(Second, dt.second)];
    LogYearMatch(s, dt);
    LitStep(s, 6, F, 3);
    assert MatchSeq(s, 6, F[3..]) == Some((20, tail));
    MonthStep(s, 3, F, 2, dt.month);
    assert [cMo] + tail == [cMo, cY, Capture(Hour, dt.hour), Capture(Minute, dt.minute), Capture(Second, dt.second)];
  }

  /** After the day, the rest of the log format reads the month through the second. */
  lemma LogRestMatch(s: string, dt: DateTime)
    requires InRange(dt) && LogLayoutOf(s, dt)
    ensures MatchSeq(s, 2, LogFormat[1..])
            == Some((20, [Capture(Month, dt.month), Capture(Year, dt.year),
                          Capture(Hour, dt.hour), Capture(Minute, dt.minute), Capture(Second, dt.second)]))
  {
    LogMonthMatch(s, dt);
    LitStep(s, 2, LogFormat, 1);
  }

  /** The whole rendered log timestamp matches `%d/%b/%Y:%H:%M:%S` up to its end, capturing every field. */
  lemma LogMatch(s: string, dt: DateTime)
    requires InRange(dt) && LogLayoutOf(s, dt)
    ensures MatchSeq(s, 0, LogFormat)
            == Some((20, [Capture(Day, dt.day), Capture(Month, dt.month), Capture(Year, dt.year),
                          Capture(Hour, dt.hour), Capture(Minute, dt.minute), Capture(Second, dt.second)]))
  {
    var rest := [Capture(Month, dt.month), Capture(Year, dt.year),
                 Capture(Hour, dt.hour), Capture(Minute, dt.minute), Capture(Second, dt.second)];
    LogRestMatch(s, dt);
    DayStep(s, 0, LogFormat, 0, dt.day);
    assert LogFormat[0..] == LogFormat;
    assert [Capture(Day, dt.day)] + rest
           == [Capture(Day, dt.day), Capture(Month, dt.month), Capture(Year, dt.year),
               Capture(Hour, dt.hour), Capture(Minute, dt.minute), Capture(Second, dt.second)];
  }

  /**
   What the access-log middleware writes is what the aggregator reads back:
   `strptime(strftime(dt))` is `dt` for every real date and time, and for a
   day the calendar does not have (30 February, year 0) it raises.
   */
  lemma LogFormatRoundTrip(dt: DateTime)
    requires InRange(dt)
    ensures Parse(FormatLog(dt), LogFormat) == if ValidDateTime(dt) then Some(dt) else None
  {
    LogLayout(dt);
    LogMatch(FormatLog(dt), dt);
    AssembleLog(dt);
  }

  /** `strptime(date, '%Y%m%d')` reads an eight-digit date back, and raises exactly for calendar-impossible ones. */
  lemma YmdRoundTrip(dt: DateTime)
    requires InRange(dt) && dt.hour == 0 && dt.minute == 0 && dt.second == 0
    ensures Parse(FormatYmd(dt), YmdFormat) == if ValidDateTime(dt) then Some(dt) else None
  {
    YmdMatch(dt);
    AssembleYmd(dt);
  }

  /** The three fields of an eight-digit date each match their directive. */
  lemma YmdMatch(dt: DateTime)
    requires InRange(dt)
    ensures MatchSeq(FormatYmd(dt), 0, YmdFormat)
            == Some((8, [Capture(Year, dt.year), Capture(Month, dt.month), Capture(Day, dt.day)]))
  {
    var s := FormatYmd(dt);
    assert s[0..4] == Pad4(dt.year) && s[4..6] == Pad2(dt.month) && s[6..8] == Pad2(dt.day);
    var F := YmdFormat;
    assert MatchSeq(s, 8, F[3..]) == Some((8, []));
    NumericStep(s, 6, F, 2);
    DayField(s, 6, F[3..], dt.day);
    assert [Capture(Day, dt.day)] + [] == [Capture(Day, dt.day)];
    assert MatchSeq(s, 6, F[2..]) == Some((8, [Capture(Day, dt.day)]));
    NumericStep(s, 4, F, 1);
    MonthField(s, 4, F[2..], dt.month);
    assert [Capture(Month, dt.month)] + [Capture(Day, dt.day)] == [Capture(Month, dt.month), Capture(Day, dt.day)];
    assert MatchSeq(s, 4, F[1..]) == Some((8, [Capture(Month, dt.month), Capture(Day, dt.day)]));
    NumericStep(s, 0, F, 0);
    YearField(s, 0, F[1..], dt.year);
    var caps := [Capture(Year, dt.year), Capture(Month, dt.month), Capture(Day, dt.day)];
    assert [caps[0]] + [Capture(Month, dt.month), Capture(Day, dt.day)] == caps;
    assert F[0..] == F;
  }

  /** The captures of an eight-digit date fill in the date; the time stays at midnight. */
  lemma AssembleYmd(dt: DateTime)
    requires dt.hour == 0 && dt.minute == 0 && dt.second == 0
    ensures Assemble([Capture(Year, dt.year), Capture(Month, dt.month), Capture(Day, dt.day)], Defaults) == dt
  {
    var caps := [Capture(Year, dt.year), Capture(Month, dt.month), Capture(Day, dt.day)];
    var d1 := Apply(caps[0], Defaults);
    var d2 := Apply(caps[1], d1);
    var d3 := Apply(caps[2], d2);
    assert d3 == dt;
    assert caps[1..][1..][1..] == [];
    assert Assemble(caps[1..][1..], d2) == dt;
    assert Assemble(caps[1..], d1) == dt;
  }

}
