/**
 One access-log line: the regular expression
 `(\S+) - - \[(.*?)\] "(.*?)" (\d+) (\d+)` applied with `re.match`, the
 timestamp read from the bracketed group, and the line the request-logging
 middleware writes.
 */
module AccessLog {
  import opened Wrappers
  import opened Text
  import opened Strptime

  /** The five groups: client address, bracketed date, quoted request, status, size. */
  datatype LogMatch = LogMatch(ip: string, date: string, request: string, status: string, size: string)

  /** The text from the start of the line that a match with these groups spans. */
  function Spanned(m: LogMatch): string {
    m.ip + " - - [" + m.date + "] \"" + m.request + "\" " + m.status + " " + m.size
  }

  /**
   One way the pattern can match at the start of `line`: every group within
   its class (`\S`, `.` which is anything but a newline, `\d`), each `+`
   group non-empty. `re.match` anchors at the start only, so anything may
   follow.
   */
  predicate IsPath(line: string, m: LogMatch) {
    && InClasses(m)
    && |Spanned(m)| <= |line| && line[..|Spanned(m)|] == Spanned(m)
  }

  /** Each group within its class: `\S+`, `.*?` (anything but a newline), `\d+`. */
  predicate InClasses(m: LogMatch) {
    && |m.ip| > 0 && NoSpace(m.ip)
    && Excludes(m.date, '\n') && Excludes(m.request, '\n')
    && |m.status| > 0 && AllDigits(m.status)
    && |m.size| > 0 && AllDigits(m.size)
  }

  /**
   The backtracking engine's preference between two ways of matching: the
   lazy `(.*?)` groups as short as possible, date first, and then the greedy
   last `(\d+)` as long as possible.
   */
  predicate Preferred(m: LogMatch, other: LogMatch) {
    || |m.date| < |other.date|
    || (|m.date| == |other.date| && |m.request| < |other.request|)
    || (|m.date| == |other.date| && |m.request| == |other.request| && |m.size| >= |other.size|)
  }

  // Positions of the pieces of a match with these group lengths.
  function DateStart(m: LogMatch): nat { |m.ip| + 6 }
  function DateEnd(m: LogMatch): nat { DateStart(m) + |m.date| }
  function RequestEnd(m: LogMatch): nat { DateEnd(m) + 3 + |m.request| }
  function StatusEnd(m: LogMatch): nat { RequestEnd(m) + 2 + |m.status| }
  function SizeEnd(m: LogMatch): nat { StatusEnd(m) + 1 + |m.size| }

  /** `IsPath` spelled out position by position. */
  predicate Layout(line: string, m: LogMatch) {
    && SizeEnd(m) <= |line|
    && line[..|m.ip|] == m.ip
    && line[|m.ip|..DateStart(m)] == " - - ["
    && line[DateStart(m)..DateEnd(m)] == m.date
    && line[DateEnd(m)..DateEnd(m) + 3] == "] \""
    && line[DateEnd(m) + 3..RequestEnd(m)] == m.request
    && line[RequestEnd(m)..RequestEnd(m) + 2] == "\" "
    && line[RequestEnd(m) + 2..StatusEnd(m)] == m.status
    && line[StatusEnd(m)] == ' '
    && line[StatusEnd(m) + 1..SizeEnd(m)] == m.size
  }

  lemma SpannedLength(m: LogMatch)
    ensures |Spanned(m)| == SizeEnd(m)
  {
  }

  /** A prefix of `line` that is `x + y` holds `x` and then `y`. */
  lemma PrefixSplit(line: string, x: string, y: string)
    requires |x| + |y| <= |line| && line[..|x| + |y|] == x + y
    ensures line[..|x|] == x && line[|x|..|x| + |y|] == y
  {
    assert line[..|x|] == (x + y)[..|x|];
    assert line[|x|..|x| + |y|] == (x + y)[|x|..];
  }

  /** `x` followed by `y` at the start of `line` is the prefix `x + y`. */
  lemma PrefixJoin(line: string, x: string, y: string)
    requires |x| + |y| <= |line| && line[..|x|] == x && line[|x|..|x| + |y|] == y
    ensures line[..|x| + |y|] == x + y
  {
    assert line[..|x| + |y|] == line[..|x|] + line[|x|..|x| + |y|];
  }

  /** A spanned prefix, read piece by piece, is a `Layout`. */
  lemma LayoutOfPrefix(line: string, m: LogMatch)
    requires SizeEnd(m) <= |line| && line[..SizeEnd(m)] == Spanned(m)
    ensures Layout(line, m)
  {
    var p1 := m.ip + " - - [";
    var p2 := p1 + m.date;
    var p3 := p2 + "] \"";
    var p4 := p3 + m.request;
    var p5 := p4 + "\" ";
    var p6 := p5 + m.status;
    var p7 := p6 + " ";
    assert Spanned(m) == p7 + m.size;
    assert |p1| == DateStart(m) && |p2| == DateEnd(m) && |p3| == DateEnd(m) + 3;
    assert |p4| == RequestEnd(m) && |p5| == RequestEnd(m) + 2 && |p6| == StatusEnd(m);
    assert |p7| == StatusEnd(m) + 1 && |p7| + |m.size| == SizeEnd(m);
    PrefixSplit(line, p7, m.size);
    PrefixSplit(line, p6, " ");
    PrefixSplit(line, p5, m.status);
    PrefixSplit(line, p4, "\" ");
    PrefixSplit(line, p3, m.request);
    PrefixSplit(line, p2, "] \"");
    PrefixSplit(line, p1, m.date);
    PrefixSplit(line, m.ip, " - - [");
    assert line[|p6|..|p6| + 1] == [line[StatusEnd(m)]];
  }

  /** A `Layout`, read as one slice, is the spanned prefix. */
  lemma PrefixOfLayout(line: string, m: LogMatch)
    requires Layout(line, m)
    ensures line[..SizeEnd(m)] == Spanned(m)
  {
    OpeningOfLayout(line, m);
    var p3 := m.ip + " - - [" + m.date + "] \"";
    var p4 := p3 + m.request;
    var p5 := p4 + "\" ";
    var p6 := p5 + m.status;
    var p7 := p6 + " ";
    assert Spanned(m) == p7 + m.size;
    assert |p4| == RequestEnd(m) && |p5| == RequestEnd(m) + 2 && |p6| == StatusEnd(m);
    assert |p7| == StatusEnd(m) + 1 && |p7| + |m.size| == SizeEnd(m);
    PrefixJoin(line, p3, m.request);
    PrefixJoin(line, p4, "\" ");
    PrefixJoin(line, p5, m.status);
    assert line[|p6|..|p6| + 1] == [line[StatusEnd(m)]];
    PrefixJoin(line, p6, " ");
    PrefixJoin(line, p7, m.size);
  }

  /** The first half of `PrefixOfLayout`: the line up to the request group. */
  lemma OpeningOfLayout(line: string, m: LogMatch)
    requires Layout(line, m)
    ensures DateEnd(m) + 3 <= |line|
    ensures line[..DateEnd(m) + 3] == m.ip + " - - [" + m.date + "] \""
  {
    var p1 := m.ip + " - - [";
    var p2 := p1 + m.date;
    var p3 := p2 + "] \"";
    assert |p1| == DateStart(m) && |p2| == DateEnd(m) && |p3| == DateEnd(m) + 3;
    PrefixJoin(line, m.ip, " - - [");
    PrefixJoin(line, p1, m.date);
    PrefixJoin(line, p2, "] \"");
  }

  lemma PathLayout(line: string, m: LogMatch)
    requires IsPath(line, m)
    ensures Layout(line, m)
  {
    SpannedLength(m);
    LayoutOfPrefix(line, m);
  }

  // ------------------------------------------------------------ the matcher

  /** ` (\d+) (\d+)` read at `t` with these two groups. */
  predicate CountsAt(line: string, t: nat, status: string, size: string) {
    && |status| > 0 && AllDigits(status) && |size| > 0 && AllDigits(size)
    && t + 2 + |status| + |size| <= |line|
    && line[t] == ' ' && line[t + 1..t + 1 + |status|] == status
    && line[t + 1 + |status|] == ' '
    && line[t + 2 + |status|..t + 2 + |status| + |size|] == size
  }

  /** ` (\d+) (\d+)` at `t`: status and size, each as many digits as there are. */
  function Counts(line: string, t: nat): (r: Option<(string, string)>)
    ensures r.Some? ==> CountsAt(line, t, r.value.0, r.value.1)
    ensures r.Some? ==> var e := t + 2 + |r.value.0| + |r.value.1|; e == |line| || !IsDigit(line[e])
  {
    if t >= |line| || line[t] != ' ' then None
    else
      var a := SkipDigits(line, t + 1);
      if a == t + 1 || a >= |line| || line[a] != ' ' then None
      else
        var b := SkipDigits(line, a + 1);
        if b == a + 1 then None else Some((line[t + 1..a], line[a + 1..b]))
  }

  /** Whatever digits stand at `t`, `Counts` reads the same status and a size at least as long. */
  lemma CountsComplete(line: string, t: nat, status: string, size: string)
    requires CountsAt(line, t, status, size)
    ensures Counts(line, t).Some?
    ensures Counts(line, t).value.0 == status && |Counts(line, t).value.1| >= |size|
  {
    var a1 := t + 1 + |status|;
    assert forall i :: t + 1 <= i < a1 ==> IsDigit(line[i]) by {
      forall i | t + 1 <= i < a1 ensures IsDigit(line[i]) {
        assert line[i] == status[i - t - 1];
      }
    }
    assert SkipDigits(line, t + 1) == a1;
    var b1 := a1 + 1 + |size|;
    assert forall i :: a1 + 1 <= i < b1 ==> IsDigit(line[i]) by {
      forall i | a1 + 1 <= i < b1 ensures IsDigit(line[i]) {
        assert line[i] == size[i - a1 - 1];
      }
    }
    assert SkipDigits(line, a1 + 1) >= b1;
  }

  /** ` "(.*?)" (\d+) (\d+)` read at `q` with these three groups. */
  predicate TailAt(line: string, q: nat, request: string, status: string, size: string) {
    && q + 3 + |request| <= |line|
    && line[q] == ' ' && line[q + 1] == '"'
    && line[q + 2..q + 2 + |request|] == request && Excludes(request, '\n')
    && line[q + 2 + |request|] == '"'
    && CountsAt(line, q + 3 + |request|, status, size)
  }

  predicate RequestEndsAt(line: string, j: nat) {
    j < |line| && line[j] == '"' && Counts(line, j + 1).Some?
  }

  /** The first `j` in `[lo, hi)` where the request can end, if any. */
  function RequestClose(line: string, lo: nat, hi: nat): (r: Option<nat>)
    ensures r.Some? ==> lo <= r.value < hi && RequestEndsAt(line, r.value)
    ensures r.Some? ==> forall j :: lo <= j < r.value ==> !RequestEndsAt(line, j)
    ensures r.None? ==> forall j :: lo <= j < hi ==> !RequestEndsAt(line, j)
    decreases hi - lo
  {
    if lo >= hi then None
    else if RequestEndsAt(line, lo) then Some(lo)
    else RequestClose(line, lo + 1, hi)
  }

  /** The search finds a place where the request can end, no later than any such place. */
  lemma {:induction false} RequestCloseAtMost(line: string, lo: nat, hi: nat, x: nat)
    requires lo <= x < hi && RequestEndsAt(line, x)
    ensures RequestClose(line, lo, hi).Some? && RequestClose(line, lo, hi).value <= x
    decreases hi - lo
  {
    if !RequestEndsAt(line, lo) {
      RequestCloseAtMost(line, lo + 1, hi, x);
    }
  }

  /** Where the lazy request group of ` "(.*?)" (\d+) (\d+)` at `q` stops: the first closing quote the counts can follow. */
  function TailEnd(line: string, q: nat): (r: Option<nat>)
    ensures r.Some? ==> q + 2 <= r.value && RequestEndsAt(line, r.value)
    ensures r.Some? ==> line[q] == ' ' && line[q + 1] == '"' && Excludes(line[q + 2..r.value], '\n')
  {
    if q + 2 > |line| || line[q] != ' ' || line[q + 1] != '"' then None
    else
      var e := IndexFrom(line, q + 2, '\n');
      var r := RequestClose(line, q + 2, e);
      if r.Some? then
        ExcludesPrefix(line, q + 2, r.value, e, '\n');
        r
      else r
  }

  /** ` "(.*?)" (\d+) (\d+)` at `q`: the shortest request that lets the counts follow. */
  function Tail(line: string, q: nat): (r: Option<(string, string, string)>)
  {
    match TailEnd(line, q)
    case None => None
    case Some(j) =>
      var c := Counts(line, j + 1).value;
      Some((line[q + 2..j], c.0, c.1))
  }

  /** What `Tail` reads is one way of matching the tail. */
  lemma TailSound(line: string, q: nat)
    requires Tail(line, q).Some?
    ensures var r := Tail(line, q).value; TailAt(line, q, r.0, r.1, r.2)
  {
  }

  /** A newline-free stretch from `i` ends before the first newline after `i`. */
  lemma IndexBeyond(line: string, i: nat, j: nat)
    requires i <= j < |line|
    requires Excludes(line[i..j], '\n') && line[j] != '\n'
    ensures j < IndexFrom(line, i, '\n')
  {
  }

  /** The lazy request group stops at the first closing quote the counts can follow. */
  lemma TailEndPicks(line: string, q: nat, j1: nat)
    requires RequestEndsAt(line, j1) && q + 2 <= j1
    requires line[q] == ' ' && line[q + 1] == '"' && Excludes(line[q + 2..j1], '\n')
    ensures TailEnd(line, q).Some? && TailEnd(line, q).value <= j1
  {
    IndexBeyond(line, q + 2, j1);
    RequestCloseAtMost(line, q + 2, IndexFrom(line, q + 2, '\n'), j1);
  }

  /** `Tail` settles on the first closing quote that the counts can follow. */
  lemma TailPicks(line: string, q: nat, j1: nat)
    requires RequestEndsAt(line, j1) && q + 2 <= j1
    requires line[q] == ' ' && line[q + 1] == '"' && Excludes(line[q + 2..j1], '\n')
    ensures Tail(line, q).Some?
    ensures |Tail(line, q).value.0| <= j1 - q - 2
    ensures |Tail(line, q).value.0| == j1 - q - 2 ==>
              Tail(line, q).value == (line[q + 2..j1], Counts(line, j1 + 1).value.0, Counts(line, j1 + 1).value.1)
  {
    TailEndPicks(line, q, j1);
    var j := TailEnd(line, q).value;
    assert |line[q + 2..j]| == j - q - 2;
  }

  /** Any other way of reading the tail has a request no shorter, or the same request and counts. */
  lemma TailComplete(line: string, q: nat, request: string, status: string, size: string)
    requires TailAt(line, q, request, status, size)
    ensures Tail(line, q).Some?
    ensures var r := Tail(line, q).value;
      || |r.0| < |request|
      || (r.0 == request && r.1 == status && |r.2| >= |size|)
  {
    var j1 := q + 2 + |request|;
    CountsComplete(line, j1 + 1, status, size);
    TailPicks(line, q, j1);
  }

  predicate DateEndsAt(line: string, k: nat) {
    k < |line| && line[k] == ']' && Tail(line, k + 1).Some?
  }

  /** A way of matching, read from the closing bracket on. */
  lemma LayoutTail(line: string, m: LogMatch)
    requires InClasses(m) && Layout(line, m)
    ensures line[DateEnd(m)] == ']'
    ensures TailAt(line, DateEnd(m) + 1, m.request, m.status, m.size)
  {
    var k := DateEnd(m);
    var j := RequestEnd(m);
    var st := StatusEnd(m);
    assert k + 3 + |m.request| == j && j + 2 + |m.status| == st && st + 1 + |m.size| == SizeEnd(m);
    CharsAt3(line, k, ']', ' ', '"');
    CharsAt2(line, j, '"', ' ');
    assert line[j + 2..j + 2 + |m.status|] == m.status;
    assert line[j + 2 + |m.status|] == ' ';
    assert line[j + 3 + |m.status|..j + 3 + |m.status| + |m.size|] == m.size;
    assert CountsAt(line, j + 1, m.status, m.size);
  }

  /** The converse of `LayoutTail`. */
  lemma TailLayout(line: string, m: LogMatch)
    requires DateEnd(m) < |line|
    requires line[..|m.ip|] == m.ip && line[|m.ip|..DateStart(m)] == " - - ["
    requires line[DateStart(m)..DateEnd(m)] == m.date && line[DateEnd(m)] == ']'
    requires TailAt(line, DateEnd(m) + 1, m.request, m.status, m.size)
    ensures Layout(line, m)
  {
    var k := DateEnd(m);
    var j := RequestEnd(m);
    var st := StatusEnd(m);
    assert k + 3 + |m.request| == j && j + 2 + |m.status| == st && st + 1 + |m.size| == SizeEnd(m);
    CharsAt3(line, k, ']', ' ', '"');
    assert line[k + 3..j] == m.request;
    CharsAt2(line, j, '"', ' ');
    assert line[j + 2..st] == m.status;
    assert line[st] == ' ';
    assert line[st + 1..SizeEnd(m)] == m.size;
  }

  /** The line starts with a non-empty run of non-space characters and ` - - [`. */
  predicate Opening(line: string) {
    var n := SkipNonSpace(line, 0);
    n > 0 && n + 6 <= |line| && line[n..n + 6] == " - - ["
  }

  /** Where the date group starts: after the first token and ` - - [`. */
  function DateFrom(line: string): nat {
    SkipNonSpace(line, 0) + 6
  }

  /** The date group may run from its start to `k`: `.` does not cross a line break. */
  predicate DateRun(line: string, k: nat) {
    DateFrom(line) <= k <= |line| && Excludes(line[DateFrom(line)..k], '\n')
  }

  /** Where the lazy date group stops: the first `]` after which the rest of the pattern matches. */
  function DateClose(line: string): (r: Option<nat>)
    ensures r.Some? ==> DateEndsAt(line, r.value)
    ensures r.Some? ==> DateRun(line, r.value)
  {
    var p := DateFrom(line);
    if p > |line| then None
    else
      var e := IndexFrom(line, p, '\n');
      var k := FirstDateEnd(line, p, e);
      if k.Some? then
        ExcludesPrefix(line, p, k.value, e, '\n');
        k
      else k
  }

  /** The first `k` in `[lo, hi)` where the date can end, if any. */
  function FirstDateEnd(line: string, lo: nat, hi: nat): (r: Option<nat>)
    ensures r.Some? ==> lo <= r.value < hi && DateEndsAt(line, r.value)
    ensures r.Some? ==> forall k :: lo <= k < r.value ==> !DateEndsAt(line, k)
    ensures r.None? ==> forall k :: lo <= k < hi ==> !DateEndsAt(line, k)
    decreases hi - lo
  {
    if lo >= hi then None
    else if DateEndsAt(line, lo) then Some(lo)
    else FirstDateEnd(line, lo + 1, hi)
  }

  /** `re.match(pattern, line)`: the groups of the match the engine settles on, if any. */
  function MatchLine(line: string): Option<LogMatch> {
    if !Opening(line) then None
    else
      match DateClose(line)
      case None => None
      case Some(k) =>
        var n := SkipNonSpace(line, 0);
        var t := Tail(line, k + 1).value;
        Some(LogMatch(line[..n], line[n + 6..k], t.0, t.1, t.2))
  }

  /** No `]` before the one `DateClose` finds lets the rest of the pattern match. */
  lemma DatePicks(line: string, k1: nat)
    requires Opening(line)
    requires DateRun(line, k1) && DateEndsAt(line, k1)
    ensures DateClose(line).Some? && DateClose(line).value <= k1
  {
    var p := DateFrom(line);
    IndexBeyond(line, p, k1);
    var k := FirstDateEnd(line, p, IndexFrom(line, p, '\n'));
    assert k.Some? && k.value <= k1;
  }

  /** Soundness: the groups `MatchLine` reports are one way the pattern matches the line. */
  lemma MatchLineSound(line: string)
    requires MatchLine(line).Some?
    ensures IsPath(line, MatchLine(line).value)
  {
    MatchLineHead(line);
    MatchLineTail(line);
    PathOfPieces(line, MatchLine(line).value);
  }

  /** The reported groups up to the date, read off the line. */
  lemma MatchLineHead(line: string)
    requires MatchLine(line).Some?
    ensures var m := MatchLine(line).value;
            && |m.ip| > 0 && NoSpace(m.ip) && Excludes(m.date, '\n') && DateEnd(m) < |line|
            && line[..|m.ip|] == m.ip && line[|m.ip|..DateStart(m)] == " - - ["
            && line[DateStart(m)..DateEnd(m)] == m.date
  {
    var n := SkipNonSpace(line, 0);
    var k := DateClose(line).value;
    var m := MatchLine(line).value;
    assert m.ip == line[..n] && m.date == line[n + 6..k];
    assert |m.ip| == n && DateEnd(m) == k;
    assert NoSpace(m.ip) by { assert line[..n] == line[0..n]; }
  }

  /** The reported groups from the closing bracket on, read off the line. */
  lemma MatchLineTail(line: string)
    requires MatchLine(line).Some?
    ensures var m := MatchLine(line).value;
            && DateEnd(m) < |line| && line[DateEnd(m)] == ']'
            && TailAt(line, DateEnd(m) + 1, m.request, m.status, m.size)
  {
    MatchLineGroups(line);
    var k := DateClose(line).value;
    var m := MatchLine(line).value;
    assert DateEnd(m) == k;
    TailSound(line, k + 1);
  }

  /** A reported match is the first token, the date up to `DateClose`, and the tail after it. */
  lemma MatchLineGroups(line: string)
    requires MatchLine(line).Some?
    ensures Opening(line) && DateClose(line).Some?
    ensures var n := SkipNonSpace(line, 0);
            var k := DateClose(line).value;
            && DateFrom(line) == n + 6 <= k && DateEndsAt(line, k)
            && var t := Tail(line, k + 1).value;
               MatchLine(line).value == LogMatch(line[..n], line[n + 6..k], t.0, t.1, t.2)
  {
  }

  /** A line that holds the groups piece by piece, up to the closing bracket and then the tail, is a way of matching. */
  lemma PathOfPieces(line: string, m: LogMatch)
    requires |m.ip| > 0 && NoSpace(m.ip) && Excludes(m.date, '\n')
    requires DateEnd(m) < |line|
    requires line[..|m.ip|] == m.ip && line[|m.ip|..DateStart(m)] == " - - ["
    requires line[DateStart(m)..DateEnd(m)] == m.date && line[DateEnd(m)] == ']'
    requires TailAt(line, DateEnd(m) + 1, m.request, m.status, m.size)
    ensures IsPath(line, m)
  {
    TailLayout(line, m);
    PrefixOfLayout(line, m);
    SpannedLength(m);
  }

  /** A way of matching fixes where the first group ends and which `]` can close the date. */
  lemma OpeningOfPath(line: string, m: LogMatch)
    requires InClasses(m) && Layout(line, m)
    ensures Opening(line) && SkipNonSpace(line, 0) == |m.ip| && line[..|m.ip|] == m.ip
    ensures line[DateStart(m)..DateEnd(m)] == m.date
  {
    LayoutTail(line, m);
    var n := |m.ip|;
    assert line[n] == line[n..DateStart(m)][0] == ' ';
    assert forall i :: 0 <= i < n ==> !IsSpace(line[i]) by {
      forall i | 0 <= i < n ensures !IsSpace(line[i]) {
        assert line[i] == m.ip[i];
      }
    }
    var r := SkipNonSpace(line, 0);
    assert r <= n by {
      assert r == |line| || IsSpace(line[r]);
      assert forall i :: 0 <= i < r ==> !IsSpace(line[0..r][i]);
    }
    assert r == n;
    assert line[n..n + 6] == " - - [";
  }

  /** The `]` that ends a way of matching's date can end the lazy group. */
  lemma DateEndOfPath(line: string, m: LogMatch)
    requires InClasses(m) && Layout(line, m)
    ensures DateEndsAt(line, DateEnd(m))
  {
    LayoutTail(line, m);
    TailComplete(line, DateEnd(m) + 1, m.request, m.status, m.size);
  }

  /**
   Completeness and preference: whenever the pattern can match, `MatchLine`
   reports a match, with the same first group, that the engine prefers to any
   other way of matching.
   */
  lemma MatchLineComplete(line: string, other: LogMatch)
    requires IsPath(line, other)
    ensures MatchLine(line).Some?
    ensures MatchLine(line).value.ip == other.ip
    ensures Preferred(MatchLine(line).value, other)
  {
    PathLayout(line, other);
    LayoutPreferred(line, other);
  }

  lemma LayoutPreferred(line: string, other: LogMatch)
    requires InClasses(other) && Layout(line, other)
    ensures MatchLine(line).Some?
    ensures MatchLine(line).value.ip == other.ip
    ensures Preferred(MatchLine(line).value, other)
  {
    OpeningOfPath(line, other);
    DateEndOfPath(line, other);
    var k1 := DateEnd(other);
    DatePicks(line, k1);
    var k := DateClose(line).value;
    var m := MatchLine(line).value;
    assert m.date == line[DateStart(other)..k];
    if k == k1 {
      LayoutTail(line, other);
      TailComplete(line, k1 + 1, other.request, other.status, other.size);
    }
  }

  /**
   When the date holds no `]`, the request no `"` and no digit follows the
   size, the line can be matched in only one way the engine would take, and
   `MatchLine` reports exactly that one.
   */
  lemma MatchLineExact(line: string, m: LogMatch)
    requires IsPath(line, m)
    requires Excludes(m.date, ']') && Excludes(m.request, '"')
    requires |Spanned(m)| == |line| || !IsDigit(line[|Spanned(m)|])
    ensures MatchLine(line) == Some(m)
  {
    SpannedLength(m);
    MatchLineComplete(line, m);
    MatchLineSound(line);
    var r := MatchLine(line).value;
    PathLayout(line, m);
    PathLayout(line, r);
    SameLayout(line, m, r);
  }

  /** Two layouts with the same first group, the preferred one closing no earlier than the other can. */
  lemma SameLayout(line: string, m: LogMatch, r: LogMatch)
    requires InClasses(m) && Layout(line, m) && InClasses(r) && Layout(line, r)
    requires r.ip == m.ip && Preferred(r, m)
    requires Excludes(m.date, ']') && Excludes(m.request, '"')
    requires SizeEnd(m) == |line| || !IsDigit(line[SizeEnd(m)])
    ensures r == m
  {
    SameGroups(line, m, r);
    SameTail(line, m, r);
  }

  /** Two layouts agreeing up to the request agree on the status digits. */
  lemma SameStatus(line: string, m: LogMatch, r: LogMatch)
    requires InClasses(m) && Layout(line, m) && InClasses(r) && Layout(line, r)
    requires r.ip == m.ip && r.date == m.date && r.request == m.request
    ensures r.status == m.status
  {
    var t := RequestEnd(m) + 2;
    assert RequestEnd(r) + 2 == t;
    assert line[t..StatusEnd(m)] == m.status && line[StatusEnd(m)] == ' ';
    assert line[t..StatusEnd(r)] == r.status && line[StatusEnd(r)] == ' ';
    SkipDigitsAt(line, t, StatusEnd(m));
    SkipDigitsAt(line, t, StatusEnd(r));
  }

  /** The second half of `SameLayout`: with the lazy groups agreeing, so do the counts. */
  lemma SameTail(line: string, m: LogMatch, r: LogMatch)
    requires InClasses(m) && Layout(line, m) && InClasses(r) && Layout(line, r)
    requires r.ip == m.ip && r.date == m.date && r.request == m.request && |r.size| >= |m.size|
    requires SizeEnd(m) == |line| || !IsDigit(line[SizeEnd(m)])
    ensures r == m
  {
    SameStatus(line, m, r);
    var u := StatusEnd(m) + 1;
    assert line[u..SizeEnd(m)] == m.size && line[u..SizeEnd(r)] == r.size;
    SkipDigitsAt(line, u, SizeEnd(m));
    SkipDigitsPast(line, u, SizeEnd(r));
  }

  /** The first half of `SameLayout`: the lazy date and request groups agree. */
  lemma SameGroups(line: string, m: LogMatch, r: LogMatch)
    requires Layout(line, m) && InClasses(r) && Layout(line, r)
    requires r.ip == m.ip && Preferred(r, m)
    requires Excludes(m.date, ']') && Excludes(m.request, '"')
    ensures r.date == m.date && r.request == m.request
  {
    SameDate(line, m, r);
    LayoutTail(line, r);
    SameUpTo(line, DateEnd(m) + 3, RequestEnd(m), RequestEnd(r), '"');
  }

  /**
   Whenever the pattern can match with a date holding no `]`, the matcher
   reports that first group and that date, whatever the rest of the line holds.
   */
  lemma MatchLineDate(line: string, other: LogMatch)
    requires IsPath(line, other) && Excludes(other.date, ']')
    ensures MatchLine(line).Some?
    ensures MatchLine(line).value.ip == other.ip && MatchLine(line).value.date == other.date
  {
    MatchLineComplete(line, other);
    MatchLineSound(line);
    var r := MatchLine(line).value;
    PathLayout(line, other);
    PathLayout(line, r);
    SameDate(line, other, r);
  }

  /**
   The lazy date group stops at the first `]`: a way of matching with the
   same first group and a date no longer than one holding no `]` has that
   same date, whatever the request holds.
   */
  lemma SameDate(line: string, m: LogMatch, r: LogMatch)
    requires Layout(line, m) && InClasses(r) && Layout(line, r)
    requires r.ip == m.ip && |r.date| <= |m.date| && Excludes(m.date, ']')
    ensures r.date == m.date
  {
    LayoutTail(line, r);
    assert DateStart(r) == DateStart(m);
    SameUpTo(line, DateStart(m), DateEnd(m), DateEnd(r), ']');
  }

  /**
   A lazy group read from `i` stops at the first `c`: a stretch from `i` to
   `j` free of `c` leaves no `c` at an earlier `j1`.
   */
  lemma SameUpTo(line: string, i: nat, j: nat, j1: nat, c: char)
    requires i <= j1 <= j <= |line| && j1 < |line| && line[j1] == c && Excludes(line[i..j], c)
    ensures j1 == j
  {
    forall k | i <= k < j ensures line[k] != c {
      assert line[k] == line[i..j][k - i];
    }
  }

  // ------------------------------------------------------------ the writer

  /**
   The line the request-logging middleware appends for one request. The
   timestamp is written with `%d/%b/%Y:%H:%M:%S %z`; `datetime.now()` is naive,
   so `%z` writes nothing and a space is left before the `]`. The size field
   is always `0`.
   */
  function RequestLine(clientIp: string, now: DateTime, verb: string, path: string, status: nat): string
    requires InRange(now)
  {
    clientIp + " - - [" + FormatLog(now) + " " + "] \"" + verb + " " + path + "\" " + Decimal(status) + " 0\n"
  }

  /**
   The middleware's entry is one newline-terminated line, with no carriage
   return, when the address, method and path hold neither.
   */
  lemma RequestLineShape(clientIp: string, now: DateTime, verb: string, path: string, status: nat)
    requires InRange(now) && NoSpace(clientIp)
    requires Excludes(verb, '\n') && Excludes(path, '\n') && Excludes(verb, '\r') && Excludes(path, '\r')
    ensures var line := RequestLine(clientIp, now, verb, path, status);
      && |line| > 0 && line[|line| - 1] == '\n'
      && Excludes(line[..|line| - 1], '\n') && Excludes(line, '\r')
  {
    var line := RequestLine(clientIp, now, verb, path, status);
    var body := clientIp + " - - [" + FormatLog(now) + " " + "] \"" + verb + " " + path + "\" " + Decimal(status) + " 0";
    assert line == body + "\n";
    assert line[..|line| - 1] == body;
    forall c | c == '\n' || c == '\r' ensures Excludes(body, c) {
      assert IsSpace(c);
      forall i | 0 <= i < |clientIp| ensures clientIp[i] != c {
        assert !IsSpace(clientIp[i]);
      }
      forall i | 0 <= i < |FormatLog(now)| ensures FormatLog(now)[i] != c {
        assert !IsSpace(FormatLog(now)[i]);
      }
      forall i | 0 <= i < |Decimal(status)| ensures Decimal(status)[i] != c {
        assert IsDigit(Decimal(status)[i]);
      }
    }
  }

  /** The groups the pattern should find in a `RequestLine`. */
  function Written(clientIp: string, now: DateTime, verb: string, path: string, status: nat): LogMatch
    requires InRange(now)
  {
    LogMatch(clientIp, FormatLog(now) + " ", verb + " " + path, Decimal(status), "0")
  }

  /**
   Round trip: the parser reads back from a middleware line exactly the
   client address, timestamp, request, and status written into it, as long as
   the address is non-empty and free of whitespace and neither method nor path
   holds a `"` or a newline.
   */
  lemma RequestLineRoundTrip(clientIp: string, now: DateTime, verb: string, path: string, status: nat)
    requires InRange(now)
    requires |clientIp| > 0 && NoSpace(clientIp)
    requires Excludes(verb, '"') && Excludes(verb, '\n') && Excludes(path, '"') && Excludes(path, '\n')
    ensures MatchLine(RequestLine(clientIp, now, verb, path, status)) == Some(Written(clientIp, now, verb, path, status))
  {
    var line := RequestLine(clientIp, now, verb, path, status);
    var m := Written(clientIp, now, verb, path, status);
    assert line == Spanned(m) + "\n";
    assert line[..|Spanned(m)|] == Spanned(m);
    MatchLineExact(line, m);
  }

  // ------------------------------------------------------------ one visit

  /** What one counted line contributes: its client address, `%Y-%m-%d` day and `%H` hour. */
  datatype Visit = Visit(ip: string, day: string, hour: string)

  /**
   The body of the per-line loop: a line the pattern does not match, whose
   date group has no first token, or whose first token `strptime` rejects is
   skipped (`None`).
   */
  function LineVisit(line: string): (r: Option<Visit>)
    ensures r.Some? ==> MatchLine(line).Some? && r.value.ip == MatchLine(line).value.ip
    ensures r.Some? ==> |r.value.day| == 10 && |r.value.hour| == 2 && AllDigits(r.value.hour)
  {
    match MatchLine(line)
    case None => None
    case Some(m) =>
      match FirstToken(m.date)
      case None => None
      case Some(token) =>
        match Parse(token, LogFormat)
        case None => None
        case Some(dt) =>
          ValidIsInRange(dt);
          Some(Visit(m.ip, DateKey(dt), HourKey(dt)))
  }

  /** A token followed by nothing or by whitespace is the first token of the text. */
  lemma FirstTokenOfPrefix(token: string, rest: string)
    requires |token| > 0 && NoSpace(token)
    requires rest == [] || IsSpace(rest[0])
    ensures FirstToken(token + rest) == Some(token)
  {
    var s := token + rest;
    assert SkipSpace(s, 0) == 0;
    assert forall i :: 0 <= i < |token| ==> !IsSpace(s[i]);
    assert SkipNonSpace(s, 0) == |token|;
    assert s[0..|token|] == token;
  }

  /**
   End to end: the line the middleware writes for a request at a valid time
   is counted as one visit from that client, on that day and in that hour.
   */
  lemma RequestLineVisit(clientIp: string, now: DateTime, verb: string, path: string, status: nat)
    requires ValidDateTime(now)
    requires |clientIp| > 0 && NoSpace(clientIp)
    requires Excludes(verb, '\n') && Excludes(path, '\n')
    ensures InRange(now)
    ensures LineVisit(RequestLine(clientIp, now, verb, path, status)) == Some(Visit(clientIp, DateKey(now), HourKey(now)))
  {
    ValidIsInRange(now);
    RequestLineHead(clientIp, now, verb, path, status);
    FirstTokenOfPrefix(FormatLog(now), " ");
    LogFormatRoundTrip(now);
  }

  /**
   Whatever quotes the method and path hold, the parser reads back from a
   middleware line the client address and the timestamp written into it: the
   date group stops at the first `]`, and the timestamp holds none.
   */
  lemma RequestLineHead(clientIp: string, now: DateTime, verb: string, path: string, status: nat)
    requires InRange(now)
    requires |clientIp| > 0 && NoSpace(clientIp)
    requires Excludes(verb, '\n') && Excludes(path, '\n')
    ensures MatchLine(RequestLine(clientIp, now, verb, path, status)).Some?
    ensures MatchLine(RequestLine(clientIp, now, verb, path, status)).value.ip == clientIp
    ensures MatchLine(RequestLine(clientIp, now, verb, path, status)).value.date == FormatLog(now) + " "
  {
    WrittenPath(clientIp, now, verb, path, status);
    MatchLineDate(RequestLine(clientIp, now, verb, path, status), Written(clientIp, now, verb, path, status));
  }

  /** The groups the middleware writes are one way the pattern matches its line. */
  lemma WrittenPath(clientIp: string, now: DateTime, verb: string, path: string, status: nat)
    requires InRange(now)
    requires |clientIp| > 0 && NoSpace(clientIp)
    requires Excludes(verb, '\n') && Excludes(path, '\n')
    ensures IsPath(RequestLine(clientIp, now, verb, path, status), Written(clientIp, now, verb, path, status))
    ensures Excludes(Written(clientIp, now, verb, path, status).date, ']')
  {
    var line := RequestLine(clientIp, now, verb, path, status);
    var w := Written(clientIp, now, verb, path, status);
    assert line == Spanned(w) + "\n";
    assert line[..|Spanned(w)|] == Spanned(w);
  }

  /**
   The round trip needs the `"`-free request: a path holding `" 1 2` (as
   `/x%22%201%202` decodes to) makes the engine close the request early and
   read `1` and `2` as status and size.
   */
  lemma QuotedPathShiftsGroups(clientIp: string, now: DateTime, status: nat)
    requires InRange(now)
    requires |clientIp| > 0 && NoSpace(clientIp)
    ensures MatchLine(RequestLine(clientIp, now, "GET", "/x\" 1 2", status))
            == Some(LogMatch(clientIp, FormatLog(now) + " ", "GET /x", "1", "2"))
    ensures MatchLine(RequestLine(clientIp, now, "GET", "/x\" 1 2", status))
            != Some(Written(clientIp, now, "GET", "/x\" 1 2", status))
  {
    var line := RequestLine(clientIp, now, "GET", "/x\" 1 2", status);
    var m := LogMatch(clientIp, FormatLog(now) + " ", "GET /x", "1", "2");
    assert line == Spanned(m) + "\" " + Decimal(status) + " 0\n";
    assert line[..|Spanned(m)|] == Spanned(m);
    assert line[|Spanned(m)|] == '"';
    MatchLineExact(line, m);
  }

  /** A line that begins with whitespace has an empty first group and never matches. */
  lemma LeadingSpaceNeverMatches(line: string)
    requires |line| > 0 && IsSpace(line[0])
    ensures MatchLine(line).None? && LineVisit(line).None?
  {
  }

  // ------------------------------------------------------------ client address

  /** The value a client address is taken from: the forwarding header if present, else the peer. */
  function AddressSource(forwardedFor: Option<string>, peerHost: string): string {
    if forwardedFor.Some? then forwardedFor.value else peerHost
  }

  /**
   The address the middleware logs: the `X-Forwarded-For` header when the
   request has one, else the peer's host; when it holds a comma, the first
   comma-separated element with surrounding whitespace stripped. A value with
   no comma is used as it is, unstripped.
   */
  function ClientIp(forwardedFor: Option<string>, peerHost: string): (r: string)
    ensures var v := AddressSource(forwardedFor, peerHost);
      && (',' !in v ==> r == v)
      && (',' in v ==> Excludes(r, ',') && (r == [] || (!IsSpace(r[0]) && !IsSpace(r[|r| - 1]))))
  {
    var v := AddressSource(forwardedFor, peerHost);
    if ',' in v then Strip(Split(v, ',')[0]) else v
  }

  /** The first comma-separated element is what stands before the first comma. */
  lemma SplitFirst(v: string)
    requires ',' in v
    ensures exists rest :: v == Split(v, ',')[0] + "," + rest
  {
    var i := IndexFrom(v, 0, ',');
    if i == |v| {
      assert false;
    }
    assert Split(v, ',')[0] == v[..i];
    assert v == v[..i] + "," + v[i + 1..];
  }

  /** Stripping leaves the text framed by whitespace on both sides. */
  lemma StripFrame(s: string)
    ensures exists lead, trail :: AllSpace(lead) && AllSpace(trail) && s == lead + Strip(s) + trail
  {
    var i, j :| 0 <= i <= j <= |s| && Strip(s) == s[i..j] && AllSpace(s[..i]) && AllSpace(s[j..]);
    assert s == s[..i] + s[i..j] + s[j..];
  }

  /**
   With a comma, the logged address is what stands before the first comma,
   less the whitespace around it: the value is `lead + r + trail + "," + rest`
   with `lead` and `trail` all whitespace.
   */
  lemma ClientIpFirstElement(forwardedFor: Option<string>, peerHost: string)
    requires ',' in AddressSource(forwardedFor, peerHost)
    ensures exists lead, trail, rest ::
      && AllSpace(lead) && AllSpace(trail)
      && AddressSource(forwardedFor, peerHost) == lead + ClientIp(forwardedFor, peerHost) + trail + "," + rest
  {
    var v := AddressSource(forwardedFor, peerHost);
    var first := Split(v, ',')[0];
    SplitFirst(v);
    var rest :| v == first + "," + rest;
    StripFrame(first);
    var lead, trail :| AllSpace(lead) && AllSpace(trail) && first == lead + Strip(first) + trail;
    assert v == lead + ClientIp(forwardedFor, peerHost) + trail + "," + rest;
  }
}
