/**
 Summing the autonomous system numbers delegated to Russia per year from a
 regional registry's statistics file, whose records are `|`-separated lines
 `registry|cc|type|start|value|date|status` in the RIR Statistics Exchange
 Format, with `#` comment lines, and header and summary lines of other
 widths.
 */
module Rir {
  import opened Wrappers
  import opened Text
  import opened Strptime
  import opened Tallies

  // ------------------------------------------------------------ int()

  /** Digits with single underscores between them, as `int()` accepts in base 10. */
  predicate Numeral(b: string) {
    && |b| > 0 && IsDigit(b[0]) && IsDigit(b[|b| - 1])
    && (forall i :: 0 <= i < |b| ==> IsDigit(b[i]) || b[i] == '_')
    && NoDoubleUnderscore(b)
  }

  /** No two underscores stand next to each other. */
  predicate NoDoubleUnderscore(b: string) {
    |b| < 2 || (!(b[0] == '_' && b[1] == '_') && NoDoubleUnderscore(b[1..]))
  }

  /** The string without its underscores. */
  function Digits(b: string): (r: string)
    requires forall i :: 0 <= i < |b| ==> IsDigit(b[i]) || b[i] == '_'
    ensures AllDigits(r) && |r| <= |b|
  {
    if |b| == 0 then []
    else (if b[0] == '_' then [] else [b[0]]) + Digits(b[1..])
  }

  /** An optional sign, then a numeral. */
  predicate Signed(t: string) {
    Numeral(t) || (|t| > 0 && (t[0] == '-' || t[0] == '+') && Numeral(t[1..]))
  }

  /** The text after an optional leading sign. */
  function Unsigned(t: string): string {
    if |t| > 0 && (t[0] == '-' || t[0] == '+') then t[1..] else t
  }

  /** The number of ASCII digits in the text; underscores and other characters are not counted. */
  function DigitCount(b: string): nat {
    if |b| == 0 then 0 else (if IsDigit(b[0]) then 1 else 0) + DigitCount(b[1..])
  }

  /**
   `sys.int_info.default_max_str_digits`: since CPython 3.11, and the 3.7.14,
   3.8.14, 3.9.14 and 3.10.7 security releases, `int()` refuses a decimal
   string with more digits than this, leading zeros included.
   */
  const MaxStrDigits: nat := 4300

  /**
   `int()` on text already stripped of surrounding whitespace: `None` where
   it raises `ValueError`, that is, for anything but an optionally signed
   numeral, and for a numeral of more than `MaxStrDigits` digits.
   */
  function ParseInt(t: string): (r: Option<int>)
    ensures r.Some? <==> Signed(t) && DigitCount(Unsigned(t)) <= MaxStrDigits
  {
    if |t| == 0 then None
    else
      match ParseDigits(Unsigned(t))
      case None => None
      case Some(v) => Some(if t[0] == '-' then -(v as int) else v)
  }

  /** `int()` on the text after the sign: the numeral's value, if it is one within the digit limit. */
  function ParseDigits(b: string): (r: Option<nat>)
    ensures r.Some? <==> Numeral(b) && DigitCount(b) <= MaxStrDigits
  {
    if Numeral(b) && DigitCount(b) <= MaxStrDigits then Some(NatOfDigits(Digits(b))) else None
  }

  /** Python's `int(s)` on a string (ASCII digits): the text is stripped first. */
  function IntOf(s: string): (r: Option<int>)
    ensures r.Some? <==> Signed(Strip(s)) && DigitCount(Unsigned(Strip(s))) <= MaxStrDigits
  {
    ParseInt(Strip(s))
  }

  /**
   The value `int()` gives: whitespace around, then an optional sign, then a
   numeral within the digit limit, denote the numeral's digits read without
   their underscores, negated under `-`.
   */
  lemma {:induction false} IntOfPadded(pre: string, sign: string, b: string, post: string)
    requires AllSpace(pre) && AllSpace(post)
    requires sign == "" || sign == "+" || sign == "-"
    requires Numeral(b) && DigitCount(b) <= MaxStrDigits
    ensures var v := NatOfDigits(Digits(b));
      IntOf(pre + sign + b + post) == Some(if sign == "-" then -(v as int) else v)
  {
    var x := sign + b;
    assert x[0] == (if sign == "" then b[0] else sign[0]);
    assert x[|x| - 1] == b[|b| - 1];
    assert pre + sign + b + post == pre + x + post;
    StripPadded(pre, x, post);
    ParseSigned(sign, b);
  }

  /** A sign followed by a numeral within the digit limit parses to the numeral's value, negated under `-`. */
  lemma {:induction false} ParseSigned(sign: string, b: string)
    requires sign == "" || sign == "+" || sign == "-"
    requires Numeral(b) && DigitCount(b) <= MaxStrDigits
    ensures var v := NatOfDigits(Digits(b));
      ParseInt(sign + b) == Some(if sign == "-" then -(v as int) else v)
  {
    if sign == "-" {
      ParseMinus(b);
    } else if sign == "+" {
      ParsePlus(b);
    } else {
      ParsePlain(b);
      assert sign + b == b;
    }
  }

  /** An unsigned numeral reads as its value. */
  lemma {:induction false} ParsePlain(b: string)
    requires Numeral(b) && DigitCount(b) <= MaxStrDigits
    ensures ParseInt(b) == Some(NatOfDigits(Digits(b)))
  {
    NumeralUnsigned(b);
    assert b[0] != '-' by {
      assert IsDigit(b[0]);
    }
  }

  /** A plus sign changes nothing. */
  lemma {:induction false} ParsePlus(b: string)
    requires Numeral(b) && DigitCount(b) <= MaxStrDigits
    ensures ParseInt("+" + b) == Some(NatOfDigits(Digits(b)))
  {
    var m := "+" + b;
    assert m[0] == '+';
    assert Unsigned(m) == b by {
      assert m[1..] == b;
    }
  }

  /** A minus sign negates. */
  lemma {:induction false} ParseMinus(b: string)
    requires Numeral(b) && DigitCount(b) <= MaxStrDigits
    ensures ParseInt("-" + b) == Some(-(NatOfDigits(Digits(b)) as int))
  {
    var m := "-" + b;
    assert m[0] == '-';
    assert Unsigned(m) == b by {
      assert m[1..] == b;
    }
  }

  /** Stripping whitespace from around text with no whitespace at its ends gives the text. */
  lemma {:induction false} StripPadded(pre: string, x: string, post: string)
    requires AllSpace(pre) && AllSpace(post)
    requires |x| > 0 && !IsSpace(x[0]) && !IsSpace(x[|x| - 1])
    ensures Strip(pre + x + post) == x
  {
    var s := pre + x + post;
    var a, e := |pre|, |pre| + |x|;
    assert s[a] == x[0] && s[e - 1] == x[|x| - 1];
    forall k | 0 <= k < a ensures IsSpace(s[k]) {
      assert s[k] == pre[k];
    }
    forall k | e <= k < |s| ensures IsSpace(s[k]) {
      assert s[k] == post[k - e];
    }
    StripAt(s, a, e);
    assert s[a..e] == x;
  }

  /**
   Underscores between digits do not change the value, nor count toward the
   digit limit: the numeral reads as its digits alone.
   */
  lemma {:induction false} IntOfUnderscores(b: string)
    requires Numeral(b)
    ensures IntOf(b) == IntOf(Digits(b))
  {
    var d := Digits(b);
    ParseUnderscores(b);
    StripTrimmed(b);
    StripTrimmed(d);
  }

  /** `ParseInt` reads a numeral as its digits alone. */
  lemma {:induction false} ParseUnderscores(b: string)
    requires Numeral(b)
    ensures var d := Digits(b);
      && ParseInt(b) == ParseInt(d) && |d| > 0
      && !IsSpace(b[0]) && !IsSpace(b[|b| - 1]) && !IsSpace(d[0]) && !IsSpace(d[|d| - 1])
  {
    UnderscoreFacts(b);
    if DigitCount(b) <= MaxStrDigits {
      UnderscoresWithinLimit(b);
    } else {
      NumeralUnsigned(b);
    }
  }

  /** Within the limit, a numeral and its digits parse to the same value. */
  lemma {:induction false} UnderscoresWithinLimit(b: string)
    requires Numeral(b) && DigitCount(b) <= MaxStrDigits
    ensures ParseInt(b) == ParseInt(Digits(b))
  {
    var d := Digits(b);
    UnderscoreFacts(b);
    assert ParseInt(b) == Some(NatOfDigits(d)) by {
      ParseSigned("", b);
      assert "" + b == b;
    }
    assert ParseInt(d) == Some(NatOfDigits(d)) by {
      ParseSigned("", d);
      assert "" + d == d;
    }
  }

  /** The digits of a numeral form a numeral of as many digits, read the same way. */
  lemma {:induction false} UnderscoreFacts(b: string)
    requires Numeral(b)
    ensures var d := Digits(b);
      && |d| > 0 && Numeral(d) && Digits(d) == d && DigitCount(d) == DigitCount(b)
      && Unsigned(d) == d
      && !IsSpace(b[0]) && !IsSpace(b[|b| - 1]) && !IsSpace(d[0]) && !IsSpace(d[|d| - 1])
  {
    var d := Digits(b);
    DigitsCount(b);
    DigitsKeepsFirst(b);
    PlainNumeral(d);
    DigitCountOfDigits(d);
    NumeralUnsigned(d);
  }

  /** A numeral carries no sign. */
  lemma {:induction false} NumeralUnsigned(b: string)
    requires Numeral(b)
    ensures Unsigned(b) == b
  {
    assert IsDigit(b[0]);
  }

  /** `Digits` keeps exactly the digits. */
  lemma {:induction false} DigitsCount(b: string)
    requires forall i :: 0 <= i < |b| ==> IsDigit(b[i]) || b[i] == '_'
    ensures |Digits(b)| == DigitCount(b)
  {
    if |b| > 0 {
      DigitsCount(b[1..]);
    }
  }

  /** A text starting with a digit keeps that digit first. */
  lemma {:induction false} DigitsKeepsFirst(b: string)
    requires forall i :: 0 <= i < |b| ==> IsDigit(b[i]) || b[i] == '_'
    requires |b| > 0 && IsDigit(b[0])
    ensures |Digits(b)| > 0 && Digits(b)[0] == b[0]
  {
  }

  /** In a digit string every character counts. */
  lemma {:induction false} DigitCountOfDigits(d: string)
    requires AllDigits(d)
    ensures DigitCount(d) == |d|
  {
    if |d| > 0 {
      DigitCountOfDigits(d[1..]);
    }
  }

  /**
   A leading zero does not change the value, but it does count toward the
   digit limit: `int('0' + b)` is `int(b)` unless `b` already has the most
   digits allowed, and then it raises.
   */
  lemma {:induction false} IntOfLeadingZero(b: string)
    requires Numeral(b)
    ensures IntOf("0" + b) == if DigitCount(b) < MaxStrDigits then IntOf(b) else None
  {
    ZeroNumeral(b);
    ParseLeadingZero(b);
    StripTrimmed("0" + b);
    StripTrimmed(b);
  }

  /** `ParseInt` on a numeral behind a leading zero. */
  lemma {:induction false} ParseLeadingZero(b: string)
    requires Numeral(b)
    ensures ParseInt("0" + b) == if DigitCount(b) < MaxStrDigits then ParseInt(b) else None
  {
    if DigitCount(b) < MaxStrDigits {
      ZeroWithinLimit(b);
    } else {
      ZeroOverLimit(b);
    }
  }

  /** Below the limit, a leading zero leaves the parsed value alone. */
  lemma {:induction false} ZeroWithinLimit(b: string)
    requires Numeral(b) && DigitCount(b) < MaxStrDigits
    ensures ParseInt("0" + b) == ParseInt(b)
  {
    var z := "0" + b;
    var v := NatOfDigits(Digits(b));
    assert ParseInt(b) == Some(v) by {
      ParseSigned("", b);
      assert "" + b == b;
    }
    assert ParseInt(z) == Some(v) by {
      ZeroNumeral(b);
      ParseSigned("", z);
      assert "" + z == z;
      LeadingZeroValue(Digits(b));
    }
  }

  /** At the limit, a leading zero is one digit too many. */
  lemma {:induction false} ZeroOverLimit(b: string)
    requires Numeral(b) && DigitCount(b) >= MaxStrDigits
    ensures ParseInt("0" + b) == None
  {
    var z := "0" + b;
    ZeroNumeral(b);
    NumeralUnsigned(z);
  }

  /** A numeral with a zero in front is a numeral with one more digit. */
  lemma {:induction false} ZeroNumeral(b: string)
    requires Numeral(b)
    ensures var z := "0" + b;
      && Numeral(z) && Digits(z) == "0" + Digits(b) && DigitCount(z) == 1 + DigitCount(b)
      && !IsSpace(z[0]) && !IsSpace(z[|z| - 1]) && !IsSpace(b[0]) && !IsSpace(b[|b| - 1])
  {
    var z := "0" + b;
    assert z[1..] == b && z[|z| - 1] == b[|b| - 1];
    assert !IsSpace(b[|b| - 1]);
  }

  /** A leading zero adds nothing to the number a digit string denotes. */
  lemma {:induction false} LeadingZeroValue(d: string)
    requires AllDigits(d)
    ensures NatOfDigits("0" + d) == NatOfDigits(d)
  {
    if |d| > 0 {
      assert ("0" + d)[..|"0" + d| - 1] == "0" + d[..|d| - 1];
      LeadingZeroValue(d[..|d| - 1]);
    } else {
      assert ("0" + d)[..0] == [];
    }
  }

  /** A string with no whitespace at either end is its own `strip()`. */
  lemma {:induction false} StripTrimmed(s: string)
    requires |s| == 0 || (!IsSpace(s[0]) && !IsSpace(s[|s| - 1]))
    ensures Strip(s) == s
  {
    if |s| > 0 {
      assert SkipSpace(s, 0) == 0;
      assert TrimEnd(s, 0, |s|) == |s|;
    }
  }

  /** A run of digits keeps every character under `Digits`. */
  lemma {:induction false} DigitsOfDigits(b: string)
    requires AllDigits(b)
    ensures Digits(b) == b
  {
    if |b| > 0 {
      DigitsOfDigits(b[1..]);
      assert b == [b[0]] + b[1..];
    }
  }

  /** `int(str(n))` gives the number back, for numbers within the digit limit. */
  lemma {:induction false} IntOfDecimal(n: nat)
    ensures IntOf(Decimal(n)) == if |Decimal(n)| <= MaxStrDigits then Some(n) else None
  {
    IntOfDigitRun(Decimal(n), n);
  }

  /** `int()` on a run of digits denoting `n`. */
  lemma {:induction false} IntOfDigitRun(d: string, n: nat)
    requires |d| > 0 && AllDigits(d) && NatOfDigits(d) == n
    ensures IntOf(d) == if |d| <= MaxStrDigits then Some(n) else None
  {
    PlainNumeral(d);
    StripTrimmed(d);
    ParseDigitRun(d);
  }

  /** `ParseInt` on a run of digits: its number, within the limit. */
  lemma {:induction false} ParseDigitRun(d: string)
    requires |d| > 0 && AllDigits(d)
    ensures ParseInt(d) == if |d| <= MaxStrDigits then Some(NatOfDigits(d)) else None
  {
    DigitsNumeral(d);
    NumeralUnsigned(d);
    if |d| <= MaxStrDigits {
      ParsePlainDigits(d);
    }
  }

  /** A numeral that is its own digits, read as is. */
  lemma {:induction false} ParsePlainDigits(d: string)
    requires AllDigits(d) && Numeral(d) && DigitCount(d) <= MaxStrDigits && Digits(d) == d
    ensures ParseInt(d) == Some(NatOfDigits(d))
  {
    NumeralUnsigned(d);
    assert d[0] != '-' by {
      assert IsDigit(d[0]);
    }
    assert ParseDigits(d) == Some(NatOfDigits(d));
  }

  /** `int('-' + str(n))` gives the negated number, for numbers within the digit limit. */
  lemma {:induction false} IntOfNegative(n: nat)
    ensures IntOf("-" + Decimal(n)) == if |Decimal(n)| <= MaxStrDigits then Some(-(n as int)) else None
  {
    IntOfMinusRun(Decimal(n), n);
  }

  /** `int()` on a minus sign before a run of digits denoting `n`. */
  lemma {:induction false} IntOfMinusRun(d: string, n: nat)
    requires |d| > 0 && AllDigits(d) && NatOfDigits(d) == n
    ensures IntOf("-" + d) == if |d| <= MaxStrDigits then Some(-(n as int)) else None
  {
    MinusTrimmed(d);
    ParseNegative(d);
  }

  /** A minus sign before a run of digits has no whitespace to strip. */
  lemma {:induction false} MinusTrimmed(d: string)
    requires |d| > 0 && AllDigits(d)
    ensures Strip("-" + d) == "-" + d
  {
    var m := "-" + d;
    assert !IsSpace(m[|m| - 1]) by {
      assert m[|m| - 1] == d[|d| - 1];
      assert IsDigit(d[|d| - 1]);
    }
    StripTrimmed(m);
  }

  /** A minus sign before a run of digits parses to the negated number, within the limit. */
  lemma {:induction false} ParseNegative(d: string)
    requires |d| > 0 && AllDigits(d)
    ensures ParseInt("-" + d) == if |d| <= MaxStrDigits then Some(-(NatOfDigits(d) as int)) else None
  {
    if |d| <= MaxStrDigits {
      NegativeWithinLimit(d);
    } else {
      NegativeOverLimit(d);
    }
  }

  /** Within the limit, the negated number. */
  lemma {:induction false} NegativeWithinLimit(d: string)
    requires |d| > 0 && AllDigits(d) && |d| <= MaxStrDigits
    ensures ParseInt("-" + d) == Some(-(NatOfDigits(d) as int))
  {
    DigitsNumeral(d);
    ParseMinusDigits(d);
  }

  /** A minus sign before a numeral that is its own digits. */
  lemma {:induction false} ParseMinusDigits(d: string)
    requires AllDigits(d) && Numeral(d) && DigitCount(d) <= MaxStrDigits && Digits(d) == d
    ensures ParseInt("-" + d) == Some(-(NatOfDigits(d) as int))
  {
    var m := "-" + d;
    assert m[0] == '-';
    assert Unsigned(m) == d by {
      assert m[1..] == d;
    }
    assert ParseDigits(d) == Some(NatOfDigits(d));
  }

  /** Over the limit, `ValueError`. */
  lemma {:induction false} NegativeOverLimit(d: string)
    requires |d| > 0 && AllDigits(d) && |d| > MaxStrDigits
    ensures ParseInt("-" + d) == None
  {
    var m := "-" + d;
    DigitCountOfDigits(d);
    assert Unsigned(m) == d by {
      assert m[1..] == d;
    }
  }

  /** A non-empty run of digits is a numeral, every character of which is a digit it keeps. */
  lemma {:induction false} DigitsNumeral(d: string)
    requires |d| > 0 && AllDigits(d)
    ensures Numeral(d) && Digits(d) == d && DigitCount(d) == |d|
  {
    DigitsOfDigits(d);
    DigitCountOfDigits(d);
    NoUnderscores(d);
  }

  /** A run of digits has no underscores at all. */
  lemma {:induction false} NoUnderscores(d: string)
    requires AllDigits(d)
    ensures NoDoubleUnderscore(d)
  {
    if |d| >= 2 {
      NoUnderscores(d[1..]);
    }
  }

  /** A non-empty run of digits is a numeral with nothing to drop, framed by non-space non-signs. */
  lemma {:induction false} PlainNumeral(d: string)
    requires |d| > 0 && AllDigits(d)
    ensures Numeral(d) && Digits(d) == d
    ensures !IsSpace(d[0]) && !IsSpace(d[|d| - 1]) && d[0] != '-' && d[0] != '+'
  {
    DigitsNumeral(d);
    WordDigits(d);
  }

  /** Digits are neither whitespace nor signs. */
  lemma {:induction false} WordDigits(d: string)
    requires AllDigits(d)
    ensures forall i :: 0 <= i < |d| ==> !IsSpace(d[i]) && d[i] != '-' && d[i] != '+'
  {
  }

  // ------------------------------------------------------------ records

  datatype Record = Record(registry: string, cc: string, kind: string, start: string,
                           count: string, date: string, status: string)

  /** How the loop treats a line before looking at the fields' values. */
  datatype Line = Comment | Short | TooLong | Fields(record: Record)

  /**
   `#` at the very start makes a comment; otherwise the stripped line is
   split at `|`: fewer than seven parts are skipped, more than seven make the
   seven-name unpacking raise.
   */
  function Classify(line: string): (r: Line)
    ensures r.Comment? <==> |line| > 0 && line[0] == '#'
    ensures !r.Comment? ==> var n := |Split(Strip(line), '|')|;
                            (r.Short? <==> n < 7) && (r.TooLong? <==> n > 7)
    ensures r.Fields? ==> Join([r.record.registry, r.record.cc, r.record.kind, r.record.start,
                                r.record.count, r.record.date, r.record.status], '|') == Strip(line)
  {
    if |line| > 0 && line[0] == '#' then Comment
    else
      var parts := Split(Strip(line), '|');
      if |parts| < 7 then Short
      else if |parts| > 7 then TooLong
      else
        JoinSplit(Strip(line), '|');
        JoinSeven(parts);
        Fields(Record(parts[0], parts[1], parts[2], parts[3], parts[4], parts[5], parts[6]))
  }

  lemma JoinSeven(p: seq<string>)
    requires |p| == 7
    ensures Join(p, '|') == Join([p[0], p[1], p[2], p[3], p[4], p[5], p[6]], '|')
  {
    assert p == [p[0], p[1], p[2], p[3], p[4], p[5], p[6]];
  }

  /** Autonomous system numbers of Russia, allocated or assigned. */
  predicate Selected(r: Record) {
    r.kind == "asn" && r.cc == "RU" && (r.status == "allocated" || r.status == "assigned")
  }

  /** What one line does to the totals. */
  datatype Effect = Stop | Skip | Adds(year: nat, amount: int)

  /**
   A line with too many fields stops the script; a selected record with a
   readable `%Y%m%d` date adds its count under its year, where a count that
   `int()` refuses adds 0 (the year's key has already been created when
   `int()` raises); every other line is skipped.
   */
  function EffectOf(line: string): (r: Effect)
    ensures r.Stop? <==> Classify(line).TooLong?
    ensures r.Adds? ==> Classify(line).Fields? && Selected(Classify(line).record)
    ensures r.Adds? ==> var d := Parse(Classify(line).record.date, YmdFormat);
                        d.Some? && d.value.year == r.year
    ensures r.Adds? && IntOf(Classify(line).record.count).Some? ==> r.amount == IntOf(Classify(line).record.count).value
    ensures r.Adds? && IntOf(Classify(line).record.count).None? ==> r.amount == 0
    ensures (Classify(line).Fields? && Selected(Classify(line).record)
             && Parse(Classify(line).record.date, YmdFormat).Some?) ==> r.Adds?
  {
    match Classify(line)
    case TooLong => Stop
    case Fields(rec) =>
      if !Selected(rec) then Skip
      else (
        match Parse(rec.date, YmdFormat)
        case None => Skip
        case Some(dt) =>
          match IntOf(rec.count)
          case None => Adds(dt.year, 0)
          case Some(n) => Adds(dt.year, n)
      )
    case _ => Skip
  }

  function Effects(lines: seq<string>): (r: seq<Effect>)
    ensures |r| == |lines| && forall i :: 0 <= i < |lines| ==> r[i] == EffectOf(lines[i])
  {
    seq(|lines|, i requires 0 <= i < |lines| => EffectOf(lines[i]))
  }

  // ------------------------------------------------------------ the loop

  /** `yearly_asns` and `total_ru_asns`. */
  datatype Totals = Totals(yearly: Tally<nat>, total: int)

  /** One pass of the loop body. */
  function Step(acc: Totals, e: Effect): (r: Result<Totals>)
    requires Valid(acc.yearly)
    ensures r.Err? <==> e.Stop?
    ensures r.Ok? ==> Valid(r.value.yearly) && r.value.total - acc.total == Total(r.value.yearly) - Total(acc.yearly)
    ensures e.Skip? ==> r == Ok(acc)
    ensures e.Adds? ==> r.Ok? && r.value.total == acc.total + e.amount
                        && Get(r.value.yearly, e.year) == Get(acc.yearly, e.year) + e.amount
                        && (forall y :: y != e.year ==> Get(r.value.yearly, y) == Get(acc.yearly, y))
                        && (forall y :: y in r.value.yearly.counts <==> y in acc.yearly.counts || y == e.year)
  {
    match e
    case Stop => Err("too many values to unpack (expected 7)")
    case Skip => Ok(acc)
    case Adds(y, n) =>
      TotalAdd(acc.yearly, y, n);
      Ok(Totals(Add(acc.yearly, y, n), acc.total + n))
  }

  /** The loop over the lines' effects from empty totals, or the error that stopped it. */
  function Fold(es: seq<Effect>): (r: Result<Totals>)
    ensures r.Ok? ==> Valid(r.value.yearly) && r.value.total == Total(r.value.yearly)
  {
    if |es| == 0 then Ok(Totals(Empty(), 0))
    else
      match Fold(es[..|es| - 1])
      case Err(e) => Err(e)
      case Ok(acc) => Step(acc, es[|es| - 1])
  }

  /** The script's loop over the lines of the statistics file. */
  function Run(lines: seq<string>): (r: Result<Totals>)
    ensures r.Ok? ==> Valid(r.value.yearly) && r.value.total == Total(r.value.yearly)
  {
    Fold(Effects(lines))
  }

  // ------------------------------------------------------------ what the loop computes

  /** The (year, amount) pairs the effects add, in order. */
  function Contributions(es: seq<Effect>): seq<(nat, int)> {
    if |es| == 0 then []
    else
      var init := Contributions(es[..|es| - 1]);
      match es[|es| - 1]
      case Adds(y, n) => init + [(y, n)]
      case _ => init
  }

  /** The amounts contributed under year `y`. */
  function SumYear(cs: seq<(nat, int)>, y: nat): int {
    if |cs| == 0 then 0 else SumYear(cs[..|cs| - 1], y) + (if cs[|cs| - 1].0 == y then cs[|cs| - 1].1 else 0)
  }

  function SumAll(cs: seq<(nat, int)>): int {
    if |cs| == 0 then 0 else SumAll(cs[..|cs| - 1]) + cs[|cs| - 1].1
  }

  /** The loop stops exactly when some effect is a stop. */
  lemma {:induction false} FoldStops(es: seq<Effect>)
    ensures Fold(es).Err? <==> exists i :: 0 <= i < |es| && es[i].Stop?
  {
    if |es| > 0 {
      var init := es[..|es| - 1];
      FoldStops(init);
      assert forall i :: 0 <= i < |init| ==> init[i] == es[i];
    }
  }

  /** When the loop runs to the end, each year's bucket is the sum of what was contributed to it. */
  lemma {:induction false} FoldBuckets(es: seq<Effect>)
    requires Fold(es).Ok?
    ensures forall y :: Get(Fold(es).value.yearly, y) == SumYear(Contributions(es), y)
  {
    if |es| > 0 {
      var init := es[..|es| - 1];
      FoldBuckets(init);
      var acc := Fold(init).value;
      var t := Fold(es).value;
      var ci := Contributions(init);
      var cs := Contributions(es);
      assert Step(acc, es[|es| - 1]) == Ok(t);
      if es[|es| - 1].Adds? {
        var c := (es[|es| - 1].year, es[|es| - 1].amount);
        assert cs == ci + [c] && cs[..|cs| - 1] == ci;
        forall y ensures Get(t.yearly, y) == SumYear(cs, y) {
          assert SumYear(cs, y) == SumYear(ci, y) + (if c.0 == y then c.1 else 0);
        }
      } else {
        assert cs == ci && t == acc;
      }
    }
  }

  /** ... the buckets are exactly the years contributed to ... */
  lemma {:induction false} FoldKeys(es: seq<Effect>)
    requires Fold(es).Ok?
    ensures YearsOf(Fold(es).value.yearly.counts, Contributions(es))
  {
    if |es| > 0 {
      var init := es[..|es| - 1];
      FoldKeys(init);
      var acc := Fold(init).value;
      var t := Fold(es).value;
      var ci := Contributions(init);
      assert Step(acc, es[|es| - 1]) == Ok(t);
      if es[|es| - 1].Adds? {
        var c := (es[|es| - 1].year, es[|es| - 1].amount);
        assert Contributions(es) == ci + [c];
        KeysSnoc(ci, c, acc.yearly.counts, t.yearly.counts);
      } else {
        assert Contributions(es) == ci && t == acc;
      }
    }
  }

  /** The keys are exactly the years of the contributions. */
  ghost predicate YearsOf(keys: map<nat, int>, cs: seq<(nat, int)>) {
    forall y :: y in keys <==> exists k :: 0 <= k < |cs| && cs[k].0 == y
  }

  /** ... and the total is the sum of everything contributed. */
  lemma {:induction false} FoldTotal(es: seq<Effect>)
    requires Fold(es).Ok?
    ensures Fold(es).value.total == SumAll(Contributions(es))
  {
    if |es| > 0 {
      var init := es[..|es| - 1];
      FoldTotal(init);
      var cs := Contributions(es);
      if es[|es| - 1].Adds? {
        assert cs[..|cs| - 1] == Contributions(init);
      }
    }
  }

  /** The script stops exactly when some line has more than seven fields. */
  lemma RunStops(lines: seq<string>)
    ensures Run(lines).Err? <==> exists i :: 0 <= i < |lines| && Classify(lines[i]).TooLong?
  {
    FoldStops(Effects(lines));
  }

  /** Comment lines, short lines, unselected records and unreadable dates change nothing. */
  lemma IgnoredLine(lines: seq<string>, line: string)
    requires EffectOf(line).Skip?
    ensures Run(lines + [line]) == Run(lines)
  {
    var es := Effects(lines + [line]);
    assert es[..|lines|] == Effects(lines);
  }

  /** Reading one more line: an earlier stop stays, otherwise the line's effect is applied. */
  lemma RunSnoc(lines: seq<string>, line: string)
    ensures Run(lines).Err? ==> Run(lines + [line]) == Run(lines)
    ensures Run(lines).Ok? ==> Run(lines + [line]) == Step(Run(lines).value, EffectOf(line))
  {
    var es := Effects(lines + [line]);
    assert es[..|lines|] == Effects(lines);
  }

  /** A `#` line contributes nothing, whatever follows the `#`. */
  lemma CommentIgnored(lines: seq<string>, line: string)
    requires |line| > 0 && line[0] == '#'
    ensures Run(lines + [line]) == Run(lines)
  {
    IgnoredLine(lines, line);
  }

  /** A line with fewer than seven fields contributes nothing. */
  lemma ShortIgnored(lines: seq<string>, line: string)
    requires !(|line| > 0 && line[0] == '#') && |Split(Strip(line), '|')| < 7
    ensures Run(lines + [line]) == Run(lines)
  {
    IgnoredLine(lines, line);
  }

  /** A record that is not a Russian ASN allocation or assignment contributes nothing. */
  lemma UnselectedIgnored(lines: seq<string>, line: string)
    requires Classify(line).Fields? && !Selected(Classify(line).record)
    ensures Run(lines + [line]) == Run(lines)
  {
    IgnoredLine(lines, line);
  }

  /**
   After a run to the end of the file: each year's bucket sums the amounts
   contributed to it, the buckets are exactly the contributed years, and the
   total sums every amount.
   */
  lemma RunSums(lines: seq<string>)
    requires Run(lines).Ok?
    ensures var cs := Contributions(Effects(lines));
            && (forall y :: Get(Run(lines).value.yearly, y) == SumYear(cs, y))
            && YearsOf(Run(lines).value.yearly.counts, cs)
            && Run(lines).value.total == SumAll(cs)
  {
    FoldBuckets(Effects(lines));
    FoldKeys(Effects(lines));
    FoldTotal(Effects(lines));
  }

  /** The keys of a map that gains the year of one more contribution. */
  lemma KeysSnoc(ci: seq<(nat, int)>, c: (nat, int), a: map<nat, int>, b: map<nat, int>)
    requires YearsOf(a, ci)
    requires forall y :: y in b <==> y in a || y == c.0
    ensures YearsOf(b, ci + [c])
  {
    var cs := ci + [c];
    forall y ensures y in b <==> exists k :: 0 <= k < |cs| && cs[k].0 == y {
      if y in a {
        var k :| 0 <= k < |ci| && ci[k].0 == y;
        assert cs[k] == ci[k];
      } else if y == c.0 {
        assert cs[|ci|] == c;
      } else {
        assert forall k :: 0 <= k < |ci| ==> cs[k] == ci[k];
      }
    }
  }
}
