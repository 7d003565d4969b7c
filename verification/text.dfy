/**
 Character classes and small string operations of Python's `str` and `re`
 that the rest of the model is written in.
 */
module Text {
  import opened Wrappers

  /** Python's `str.isspace()`, which is also what `\s`, `str.split()` and
      `str.strip()` treat as whitespace. */
  predicate IsSpace(c: char) {
    var n := c as int;
    (9 <= n <= 13) || (28 <= n <= 32) || n == 0x85 || n == 0xA0 || n == 0x1680
    || (0x2000 <= n <= 0x200A) || n == 0x2028 || n == 0x2029 || n == 0x202F
    || n == 0x205F || n == 0x3000
  }

  /** `\d`, restricted to the ASCII digits. */
  predicate IsDigit(c: char) {
    '0' <= c <= '9'
  }

  /** `\w`, restricted to ASCII letters, digits and the underscore. */
  predicate IsWordChar(c: char) {
    ('a' <= c <= 'z') || ('A' <= c <= 'Z') || IsDigit(c) || c == '_'
  }

  lemma WordCharIsNotSpace(c: char)
    ensures IsWordChar(c) ==> !IsSpace(c)
  {
  }

  predicate NoSpace(s: string) {
    forall i :: 0 <= i < |s| ==> !IsSpace(s[i])
  }

  predicate AllSpace(s: string) {
    forall i :: 0 <= i < |s| ==> IsSpace(s[i])
  }

  predicate AllDigits(s: string) {
    forall i :: 0 <= i < |s| ==> IsDigit(s[i])
  }

  predicate Excludes(s: string, c: char) {
    forall i :: 0 <= i < |s| ==> s[i] != c
  }

  /** ASCII case folding, the part of `re.IGNORECASE` the model keeps. */
  function Lower(c: char): char {
    if 'A' <= c <= 'Z' then (c as int + 32) as char else c
  }

  function LowerStr(s: string): (r: string)
    ensures |r| == |s|
    ensures forall i :: 0 <= i < |s| ==> r[i] == Lower(s[i])
  {
    seq(|s|, i requires 0 <= i < |s| => Lower(s[i]))
  }

  /** Index one past the maximal run of whitespace starting at `i`. */
  function SkipSpace(s: string, i: nat): (r: nat)
    requires i <= |s|
    ensures i <= r <= |s|
    ensures AllSpace(s[i..r])
    ensures r == |s| || !IsSpace(s[r])
    decreases |s| - i
  {
    if i == |s| || !IsSpace(s[i]) then i else SkipSpace(s, i + 1)
  }

  /** Index one past the maximal run of non-whitespace starting at `i`. */
  function SkipNonSpace(s: string, i: nat): (r: nat)
    requires i <= |s|
    ensures i <= r <= |s|
    ensures NoSpace(s[i..r])
    ensures r == |s| || IsSpace(s[r])
    decreases |s| - i
  {
    if i == |s| || IsSpace(s[i]) then i else SkipNonSpace(s, i + 1)
  }

  /** Index one past the maximal run of ASCII digits starting at `i`. */
  function SkipDigits(s: string, i: nat): (r: nat)
    requires i <= |s|
    ensures i <= r <= |s|
    ensures AllDigits(s[i..r])
    ensures r == |s| || !IsDigit(s[r])
    decreases |s| - i
  {
    if i == |s| || !IsDigit(s[i]) then i else SkipDigits(s, i + 1)
  }

  /** A run of digits from `i` reaches at least as far as `e` when `s[i..e]` is all digits. */
  lemma SkipDigitsPast(s: string, i: nat, e: nat)
    requires i <= e <= |s| && AllDigits(s[i..e])
    ensures SkipDigits(s, i) >= e
  {
    var r := SkipDigits(s, i);
    forall k | i <= k < e ensures IsDigit(s[k]) {
      assert s[k] == s[i..e][k - i];
    }
  }

  /** The run of digits from `i` ends at `e` when `s[i..e]` is all digits and `s[e]` is not one. */
  lemma SkipDigitsAt(s: string, i: nat, e: nat)
    requires i <= e <= |s| && AllDigits(s[i..e]) && (e == |s| || !IsDigit(s[e]))
    ensures SkipDigits(s, i) == e
  {
    var r := SkipDigits(s, i);
    SkipDigitsPast(s, i, e);
    forall k | i <= k < r ensures IsDigit(s[k]) {
      assert s[k] == s[i..r][k - i];
    }
  }

  /** Index of the first `c` at or after `i`, or `|s|` when there is none. */
  function IndexFrom(s: string, i: nat, c: char): (r: nat)
    requires i <= |s|
    ensures i <= r <= |s|
    ensures Excludes(s[i..r], c)
    ensures r == |s| || s[r] == c
    decreases |s| - i
  {
    if i == |s| || s[i] == c then i else IndexFrom(s, i + 1, c)
  }

  /** A character absent from a stretch is absent from any part of it that starts with it. */
  lemma ExcludesPrefix(s: string, i: nat, k: nat, j: nat, c: char)
    requires i <= k <= j <= |s| && Excludes(s[i..j], c)
    ensures Excludes(s[i..k], c)
  {
    forall x | 0 <= x < k - i ensures s[i..k][x] != c {
      assert s[i..k][x] == s[i..j][x];
    }
  }

  /** Two characters at `i`, read as a slice or one by one. */
  lemma CharsAt2(s: string, i: nat, a: char, b: char)
    requires i + 2 <= |s|
    ensures s[i..i + 2] == [a, b] <==> s[i] == a && s[i + 1] == b
  {
    assert s[i..i + 2][0] == s[i] && s[i..i + 2][1] == s[i + 1];
  }

  /** Three characters at `i`, read as a slice or one by one. */
  lemma CharsAt3(s: string, i: nat, a: char, b: char, c: char)
    requires i + 3 <= |s|
    ensures s[i..i + 3] == [a, b, c] <==> s[i] == a && s[i + 1] == b && s[i + 2] == c
  {
    assert s[i..i + 3][0] == s[i] && s[i..i + 3][1] == s[i + 1] && s[i..i + 3][2] == s[i + 2];
  }

  /** Python's `str.strip()` with no argument. */
  function Strip(s: string): (r: string)
    ensures r == [] || (!IsSpace(r[0]) && !IsSpace(r[|r| - 1]))
    ensures exists i, j :: 0 <= i <= j <= |s| && r == s[i..j]
                           && AllSpace(s[..i]) && AllSpace(s[j..])
  {
    var i := SkipSpace(s, 0);
    var j := TrimEnd(s, i, |s|);
    assert AllSpace(s[..i]) by { assert s[..i] == s[0..i]; }
    s[i..j]
  }

  /** Text whose non-whitespace starts at `a` and ends before `e` strips to `s[a..e]`. */
  lemma StripAt(s: string, a: nat, e: nat)
    requires a < e <= |s| && !IsSpace(s[a]) && !IsSpace(s[e - 1])
    requires forall k :: 0 <= k < a ==> IsSpace(s[k])
    requires forall k :: e <= k < |s| ==> IsSpace(s[k])
    ensures Strip(s) == s[a..e]
  {
    var i := SkipSpace(s, 0);
    assert forall k :: 0 <= k < i ==> IsSpace(s[k]) by {
      forall k | 0 <= k < i ensures IsSpace(s[k]) {
        assert s[0..i][k] == s[k];
      }
    }
    assert i == a;
    var j := TrimEnd(s, a, |s|);
    assert forall k :: j <= k < |s| ==> IsSpace(s[k]) by {
      forall k | j <= k < |s| ensures IsSpace(s[k]) {
        assert s[j..|s|][k - j] == s[k];
      }
    }
    assert j == e;
  }

  /** Largest `j` in `[i, hi]` such that `s[j..hi]` is all whitespace. */
  function TrimEnd(s: string, i: nat, hi: nat): (j: nat)
    requires i <= hi <= |s|
    requires i == hi || !IsSpace(s[i])
    ensures i <= j <= hi
    ensures AllSpace(s[j..hi])
    ensures j == i || !IsSpace(s[j - 1])
    decreases hi
  {
    if hi == i || !IsSpace(s[hi - 1]) then hi
    else
      var j := TrimEnd(s, i, hi - 1);
      assert s[j..hi] == s[j..hi - 1] + [s[hi - 1]];
      j
  }

  /** Python's `str.split()` with no argument, cut down to its first element:
      `None` where the list is empty (indexing it raises `IndexError`). */
  function FirstToken(s: string): (r: Option<string>)
    ensures r.Some? ==> |r.value| > 0 && NoSpace(r.value)
    ensures r.None? <==> AllSpace(s)
  {
    var i := SkipSpace(s, 0);
    if i == |s| then
      assert s == s[0..i];
      None
    else Some(s[i..SkipNonSpace(s, i)])
  }

  /** Python's `s.split(sep)` for a one-character separator. */
  function Split(s: string, sep: char): (parts: seq<string>)
    ensures |parts| >= 1
    ensures forall k :: 0 <= k < |parts| ==> Excludes(parts[k], sep)
    decreases |s|
  {
    var i := IndexFrom(s, 0, sep);
    if i == |s| then
      assert s == s[0..i];
      [s]
    else [s[..i]] + Split(s[i + 1..], sep)
  }

  /** Python's `sep.join(parts)`. */
  function Join(parts: seq<string>, sep: char): string
    requires |parts| >= 1
  {
    if |parts| == 1 then parts[0] else parts[0] + [sep] + Join(parts[1..], sep)
  }

  lemma {:induction false} JoinSplit(s: string, sep: char)
    ensures Join(Split(s, sep), sep) == s
    decreases |s|
  {
    var i := IndexFrom(s, 0, sep);
    if i == |s| {
      assert s == s[0..i];
    } else {
      var rest := Split(s[i + 1..], sep);
      var parts := Split(s, sep);
      assert parts == [s[..i]] + rest;
      assert parts[1..] == rest;
      JoinSplit(s[i + 1..], sep);
      assert Join(parts, sep) == s[..i] + [sep] + Join(rest, sep);
      assert s == s[..i] + [sep] + s[i + 1..];
    }
  }

  // ---------------------------------------------------------------- digits

  function DigitChar(d: nat): (c: char)
    requires d < 10
    ensures IsDigit(c) && c as int - '0' as int == d
  {
    ('0' as int + d) as char
  }

  function DigitValue(c: char): (d: nat)
    requires IsDigit(c)
    ensures d < 10 && DigitChar(d) == c
  {
    c as int - '0' as int
  }

  /** The number an ASCII digit string denotes (empty gives 0). */
  function NatOfDigits(s: string): nat
    requires AllDigits(s)
  {
    if |s| == 0 then 0 else 10 * NatOfDigits(s[..|s| - 1]) + DigitValue(s[|s| - 1])
  }

  /** `'%02d' % n`: two digits, zero-padded. */
  function Pad2(n: nat): (r: string)
    requires n < 100
    ensures |r| == 2 && AllDigits(r)
  {
    [DigitChar(n / 10), DigitChar(n % 10)]
  }

  /** `'%04d' % n`: four digits, zero-padded. */
  function Pad4(n: nat): (r: string)
    requires n < 10000
    ensures |r| == 4 && AllDigits(r)
  {
    [DigitChar(n / 1000), DigitChar(n / 100 % 10), DigitChar(n / 10 % 10), DigitChar(n % 10)]
  }

  lemma Pad2Value(n: nat)
    requires n < 100
    ensures NatOfDigits(Pad2(n)) == n
  {
    var s := Pad2(n);
    assert s[..1] == [DigitChar(n / 10)];
    assert s[..1][..0] == [];
    assert NatOfDigits(s[..1]) == n / 10;
    assert s[..|s| - 1] == s[..1];
  }

  lemma Pad4Value(n: nat)
    requires n < 10000
    ensures NatOfDigits(Pad4(n)) == n
  {
    var s := Pad4(n);
    assert s[..3][..2][..1][..0] == [];
    assert NatOfDigits(s[..1]) == n / 1000;
    assert s[..2][..1] == s[..1];
    assert NatOfDigits(s[..2]) == n / 100;
    assert s[..3][..2] == s[..2];
    assert NatOfDigits(s[..3]) == n / 10;
    assert s[..|s| - 1] == s[..3];
  }

  /** `str(n)` for a non-negative integer: decimal, no leading zeros. */
  function Decimal(n: nat): (r: string)
    ensures |r| > 0 && AllDigits(r)
    ensures NatOfDigits(r) == n
    ensures |r| > 1 ==> r[0] != '0'
  {
    if n < 10 then [DigitChar(n)]
    else
      var r := Decimal(n / 10) + [DigitChar(n % 10)];
      assert r[..|r| - 1] == Decimal(n / 10);
      r
  }

  // ------------------------------------------------- Python string ordering

  /** `a < b` on Python strings: lexicographic by code point. */
  predicate Less(a: string, b: string)
    decreases |a|
  {
    if |a| == 0 then |b| > 0
    else if |b| == 0 then false
    else if a[0] < b[0] then true
    else if a[0] == b[0] then Less(a[1..], b[1..])
    else false
  }

  lemma {:induction false} LessIrreflexive(a: string)
    ensures !Less(a, a)
    decreases |a|
  {
    if |a| > 0 {
      LessIrreflexive(a[1..]);
    }
  }

  lemma {:induction false} LessTransitive(a: string, b: string, c: string)
    requires Less(a, b) && Less(b, c)
    ensures Less(a, c)
    decreases |a|
  {
    if |a| > 0 && a[0] == b[0] && b[0] == c[0] {
      LessTransitive(a[1..], b[1..], c[1..]);
    }
  }

  lemma {:induction false} LessTotal(a: string, b: string)
    ensures a == b || Less(a, b) || Less(b, a)
    decreases |a|
  {
    if |a| > 0 && |b| > 0 && a[0] == b[0] {
      LessTotal(a[1..], b[1..]);
      if a[1..] == b[1..] {
        assert a == [a[0]] + a[1..] && b == [b[0]] + b[1..];
      }
    }
  }

  lemma {:induction false} LessAsymmetric(a: string, b: string)
    requires Less(a, b)
    ensures !Less(b, a)
    decreases |a|
  {
    if |a| > 0 && a[0] == b[0] {
      LessAsymmetric(a[1..], b[1..]);
    }
  }
}

/** Linear search for the first index satisfying a condition: the shape of
    every leftmost or laziest regex choice in the model. */
module Scan {
  import opened Wrappers

  function FirstIndex(f: nat -> bool, lo: nat, hi: nat): (r: Option<nat>)
    ensures r.Some? ==> lo <= r.value < hi && f(r.value)
    ensures r.Some? ==> forall j :: lo <= j < r.value ==> !f(j)
    ensures r.None? ==> forall j :: lo <= j < hi ==> !f(j)
    decreases hi - lo
  {
    if lo >= hi then None
    else if f(lo) then Some(lo)
    else FirstIndex(f, lo + 1, hi)
  }
}
