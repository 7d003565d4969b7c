/**
 `parse_apache_log`: one pass over the lines of an access log counting
 visits per day, per hour and per client address, then the report built from
 those counters.
 */
module Stats {
  import opened Wrappers
  import opened Text
  import opened Strptime
  import opened AccessLog
  import opened Tallies
  import opened Ranking
  import opened TextFile

  /** The three `defaultdict(int)` counters and `total_visits`. */
  datatype Counters = Counters(daily: Tally<string>, hourly: Tally<string>, ips: Tally<string>, total: int)

  ghost predicate ValidCounters(c: Counters) {
    Valid(c.daily) && Valid(c.hourly) && Valid(c.ips)
  }

  function Start(): (r: Counters)
    ensures ValidCounters(r)
  {
    Counters(Empty(), Empty(), Empty(), 0)
  }

  /**
   One iteration of the loop: a counted line adds one under its day, its hour
   and its address and one to the total; a skipped line changes nothing.
   */
  function Step(c: Counters, visit: Option<Visit>): (r: Counters)
    requires ValidCounters(c)
    ensures ValidCounters(r)
    ensures visit.None? ==> r == c
    ensures visit.Some? ==>
      var v := visit.value;
      && r.total == c.total + 1
      && Get(r.daily, v.day) == Get(c.daily, v.day) + 1
      && Get(r.hourly, v.hour) == Get(c.hourly, v.hour) + 1
      && Get(r.ips, v.ip) == Get(c.ips, v.ip) + 1
      && (forall d :: d != v.day ==> Get(r.daily, d) == Get(c.daily, d))
      && (forall h :: h != v.hour ==> Get(r.hourly, h) == Get(c.hourly, h))
      && (forall a :: a != v.ip ==> Get(r.ips, a) == Get(c.ips, a))
  {
    match visit
    case None => c
    case Some(v) =>
      Counters(Add(c.daily, v.day, 1), Add(c.hourly, v.hour, 1), Add(c.ips, v.ip, 1), c.total + 1)
  }

  /** What each line gives: its visit, or `None` where it is skipped. */
  function Parsed(lines: seq<string>): (r: seq<Option<Visit>>)
    ensures |r| == |lines| && forall k :: 0 <= k < |lines| ==> r[k] == LineVisit(lines[k])
  {
    seq(|lines|, k requires 0 <= k < |lines| => LineVisit(lines[k]))
  }

  /** The loop, over what the lines give, in order. */
  function Run(parsed: seq<Option<Visit>>): (r: Counters)
    ensures ValidCounters(r)
  {
    if |parsed| == 0 then Start() else Step(Run(parsed[..|parsed| - 1]), parsed[|parsed| - 1])
  }

  /** The loop over all lines. */
  function Tally(lines: seq<string>): Counters {
    Run(Parsed(lines))
  }

  // ------------------------------------------------------------ what the loop counts

  /** The visits of the lines that are counted, in order. */
  function Counted(parsed: seq<Option<Visit>>): seq<Visit> {
    if |parsed| == 0 then []
    else
      var prev := Counted(parsed[..|parsed| - 1]);
      match parsed[|parsed| - 1]
      case None => prev
      case Some(v) => prev + [v]
  }

  function Visits(lines: seq<string>): seq<Visit> {
    Counted(Parsed(lines))
  }

  /** Lines read one after another are counted one after another. */
  lemma {:induction false} CountedAppend(p: seq<Option<Visit>>, q: seq<Option<Visit>>)
    ensures Counted(p + q) == Counted(p) + Counted(q)
    decreases |q|
  {
    if |q| == 0 {
      assert p + q == p;
    } else {
      var init := q[..|q| - 1];
      assert (p + q)[..|p + q| - 1] == p + init;
      assert (p + q)[|p + q| - 1] == q[|q| - 1];
      CountedAppend(p, init);
    }
  }

  /**
   The visits of a file's lines followed by more lines are the visits of the
   first lines followed by those of the rest.
   */
  lemma VisitsAppend(a: seq<string>, b: seq<string>)
    ensures Visits(a + b) == Visits(a) + Visits(b)
  {
    var pa, pb := Parsed(a), Parsed(b);
    assert Parsed(a + b) == pa + pb by {
      forall k | 0 <= k < |a + b| ensures Parsed(a + b)[k] == (pa + pb)[k] {
        if k < |a| {
          assert (a + b)[k] == a[k];
        } else {
          assert (a + b)[k] == b[k - |a|];
        }
      }
    }
    CountedAppend(pa, pb);
  }

  /** A single line gives its visit, or nothing when it is skipped. */
  lemma VisitsOne(line: string)
    ensures Visits([line]) == match LineVisit(line) case Some(v) => [v] case None => []
  {
    var p := Parsed([line]);
    assert |p| == 1 && p[0] == LineVisit(line);
    assert p[..0] == [];
    assert Counted(p[..0]) == [];
  }

  function Days(vs: seq<Visit>): (r: seq<string>)
    ensures |r| == |vs| && forall k :: 0 <= k < |vs| ==> r[k] == vs[k].day
  {
    seq(|vs|, k requires 0 <= k < |vs| => vs[k].day)
  }

  function Hours(vs: seq<Visit>): (r: seq<string>)
    ensures |r| == |vs| && forall k :: 0 <= k < |vs| ==> r[k] == vs[k].hour
  {
    seq(|vs|, k requires 0 <= k < |vs| => vs[k].hour)
  }

  function Addresses(vs: seq<Visit>): (r: seq<string>)
    ensures |r| == |vs| && forall k :: 0 <= k < |vs| ==> r[k] == vs[k].ip
  {
    seq(|vs|, k requires 0 <= k < |vs| => vs[k].ip)
  }

  /**
   The loop's counters are exactly the counts of the visit stream: each
   counter holds the days, hours or addresses of the counted lines, counted
   in order, and the total is the number of counted lines.
   */
  lemma {:induction false} RunIsCount(parsed: seq<Option<Visit>>)
    ensures Run(parsed) == CountsOf(Counted(parsed))
  {
    if |parsed| > 0 {
      var init := parsed[..|parsed| - 1];
      RunIsCount(init);
      match parsed[|parsed| - 1]
      case None =>
      case Some(v) =>
        CountsOfSnoc(Counted(init), v);
    }
  }

  /** Counting every visit of a stream. */
  function CountsOf(vs: seq<Visit>): (r: Counters)
    ensures ValidCounters(r)
  {
    Counters(Count(Days(vs)), Count(Hours(vs)), Count(Addresses(vs)), |vs|)
  }

  /** One more visit is one more step. */
  lemma CountsOfSnoc(vs: seq<Visit>, v: Visit)
    ensures CountsOf(vs + [v]) == Step(CountsOf(vs), Some(v))
  {
    var ws := vs + [v];
    assert Days(ws)[..|ws| - 1] == Days(vs);
    assert Hours(ws)[..|ws| - 1] == Hours(vs);
    assert Addresses(ws)[..|ws| - 1] == Addresses(vs);
  }

  /**
   The totals agree: `total_visits` is the number of counted lines and the
   sum of each counter's values.
   */
  lemma TotalsAgree(lines: seq<string>)
    ensures Tally(lines).total == |Visits(lines)|
    ensures Total(Tally(lines).daily) == |Visits(lines)|
    ensures Total(Tally(lines).hourly) == |Visits(lines)|
    ensures Total(Tally(lines).ips) == |Visits(lines)|
  {
    var vs := Visits(lines);
    RunIsCount(Parsed(lines));
    CountTotal(Days(vs));
    CountTotal(Hours(vs));
    CountTotal(Addresses(vs));
  }

  /**
   Per key: the count under an address is the number of counted lines from
   it, an address is a key exactly when some counted line comes from it, and
   `unique_ips` is the number of distinct addresses among counted lines.
   */
  lemma AddressCounts(lines: seq<string>)
    ensures var vs := Visits(lines);
      && (forall a :: Get(Tally(lines).ips, a) == Occurrences(Addresses(vs), a))
      && (forall a :: a in Tally(lines).ips.counts <==> a in Addresses(vs))
      && |Tally(lines).ips.order| == |set a | a in Addresses(vs)|
  {
    var vs := Visits(lines);
    RunIsCount(Parsed(lines));
    CountSpec(Addresses(vs));
    CountKeys(Addresses(vs));
  }

  /** Per key, for days and hours alike. */
  lemma DayHourCounts(lines: seq<string>)
    ensures var vs := Visits(lines);
      && (forall d :: Get(Tally(lines).daily, d) == Occurrences(Days(vs), d))
      && (forall h :: Get(Tally(lines).hourly, h) == Occurrences(Hours(vs), h))
  {
    var vs := Visits(lines);
    RunIsCount(Parsed(lines));
    CountSpec(Days(vs));
    CountSpec(Hours(vs));
  }

  // ------------------------------------------------------------ the report

  datatype Report = Report(
    daily: seq<(string, int)>,
    hourly: seq<(string, int)>,
    ips: seq<(string, int)>,
    totalVisits: int,
    uniqueIps: int,
    lastUpdated: string)

  /** The JSON the endpoint returns: the statistics or `{'error': str(e)}`. */
  datatype Outcome = Stats(report: Report) | Failed(error: string)

  /** Each key paired with its count. */
  function Items(t: Tally<string>, keys: seq<string>): (r: seq<(string, int)>)
    ensures |r| == |keys|
    ensures forall k :: 0 <= k < |keys| ==> r[k] == (keys[k], Get(t, keys[k]))
  {
    seq(|keys|, k requires 0 <= k < |keys| => (keys[k], Get(t, keys[k])))
  }

  /** The number of addresses the report lists. */
  const TopCount: nat := 20

  /** The keys at these positions. */
  function KeysAt(order: seq<string>, ps: seq<nat>): (r: seq<string>)
    requires forall k :: 0 <= k < |ps| ==> ps[k] < |order|
    ensures |r| == |ps| && forall k :: 0 <= k < |ps| ==> r[k] == order[ps[k]]
  {
    seq(|ps|, k requires 0 <= k < |ps| => order[ps[k]])
  }

  /**
   The addresses of the first twenty of the ranking by count: as many as there
   are keys, up to twenty; each a key, none twice; counts never increasing down
   the list, and equal counts in the order the addresses were first seen.
   */
  function TopAddresses(t: Tally<string>): (r: seq<string>)
    requires Valid(t)
    ensures |r| == if |t.order| < TopCount then |t.order| else TopCount
    ensures forall k :: 0 <= k < |r| ==> r[k] in t.counts
    ensures Distinct(r)
    ensures forall i, j :: 0 <= i < j < |r| ==> Get(t, r[i]) >= Get(t, r[j])
    ensures forall i, j :: 0 <= i < j < |r| && Get(t, r[i]) == Get(t, r[j]) ==>
              Pos(t.order, r[i]) < Pos(t.order, r[j])
  {
    TopOf(t, RankByCount(t))
  }

  /** The keys of the first twenty of a ranking. */
  function TopOf(t: Tally<string>, ranked: seq<nat>): (r: seq<string>)
    requires Valid(t) && Ranked(t, t.order, ranked) && multiset(ranked) == multiset(Range(|t.order|))
    ensures |r| == if |t.order| < TopCount then |t.order| else TopCount
    ensures forall k :: 0 <= k < |r| ==> r[k] in t.counts
    ensures Distinct(r)
    ensures forall i, j :: 0 <= i < j < |r| ==> Get(t, r[i]) >= Get(t, r[j])
    ensures forall i, j :: 0 <= i < j < |r| && Get(t, r[i]) == Get(t, r[j]) ==>
              Pos(t.order, r[i]) < Pos(t.order, r[j])
  {
    var top := Top(ranked, TopCount);
    RankedLength(t, ranked);
    RankedKeys(t, top);
    KeysAt(t.order, top)
  }

  /** Keys read off a ranking come out distinct, by count, ties in first-seen order. */
  lemma RankedKeys(t: Tally<string>, top: seq<nat>)
    requires Valid(t) && Ranked(t, t.order, top)
    ensures var r := KeysAt(t.order, top);
      && (forall k :: 0 <= k < |r| ==> r[k] in t.counts)
      && Distinct(r)
      && (forall i, j :: 0 <= i < j < |r| ==> Get(t, r[i]) >= Get(t, r[j]))
      && (forall i, j :: 0 <= i < j < |r| && Get(t, r[i]) == Get(t, r[j]) ==>
            Pos(t.order, r[i]) < Pos(t.order, r[j]))
  {
    var r := KeysAt(t.order, top);
    forall i, j | 0 <= i < j < |r|
      ensures r[i] != r[j] && Get(t, r[i]) >= Get(t, r[j])
      ensures Get(t, r[i]) == Get(t, r[j]) ==> Pos(t.order, r[i]) < Pos(t.order, r[j])
    {
      assert Before(t, t.order, top[i], top[j]);
      PosOfDistinct(t.order, top[i]);
      PosOfDistinct(t.order, top[j]);
    }
  }

  /** In a list without repeats, the first position of the element at `i` is `i`. */
  lemma PosOfDistinct(s: seq<string>, i: nat)
    requires Distinct(s) && i < |s|
    ensures Pos(s, s[i]) == i
  {
  }

  /** A ranking has one entry per key. */
  lemma RankedLength(t: Tally<string>, ranked: seq<nat>)
    requires multiset(ranked) == multiset(Range(|t.order|))
    ensures |ranked| == |t.order|
  {
    assert |multiset(ranked)| == |multiset(Range(|t.order|))|;
  }

  /**
   Any address left out of the twenty has a count no larger than any listed
   one, and a listed address with the same count was seen before it.
   */
  lemma OmittedCountNoLarger(t: Tally<string>, a: string)
    requires Valid(t) && a in t.counts && a !in TopAddresses(t)
    ensures forall k :: 0 <= k < |TopAddresses(t)| ==> Get(t, a) <= Get(t, TopAddresses(t)[k])
    ensures forall k :: 0 <= k < |TopAddresses(t)| && Get(t, a) == Get(t, TopAddresses(t)[k]) ==>
              Pos(t.order, TopAddresses(t)[k]) < Pos(t.order, a)
  {
    OmittedOf(t, RankByCount(t), a);
  }

  /** The addresses an address list names. */
  function Listed(ips: seq<(string, int)>): set<string> {
    set k | 0 <= k < |ips| :: ips[k].0
  }

  /**
   `ips` ranks the counter's keys by count: distinct keys with their counts,
   largest first, equal counts in first-seen order, and no key left out that
   was counted more often than a listed one, or as often and seen earlier.
   */
  ghost predicate RankedTop(ips: seq<(string, int)>, t: Tally<string>)
    requires Valid(t)
  {
    && (forall k :: 0 <= k < |ips| ==> ips[k].0 in t.counts && ips[k].1 == Get(t, ips[k].0))
    && (forall i, j :: 0 <= i < j < |ips| ==> ips[i].0 != ips[j].0 && ips[i].1 >= ips[j].1)
    && (forall i, j :: 0 <= i < j < |ips| && ips[i].1 == ips[j].1 ==> Pos(t.order, ips[i].0) < Pos(t.order, ips[j].0))
    && (forall a, k :: a in t.counts && a !in Listed(ips) && 0 <= k < |ips| ==>
          || Get(t, a) < ips[k].1
          || (Get(t, a) == ips[k].1 && Pos(t.order, ips[k].0) < Pos(t.order, a)))
  }

  /** The top twenty with their counts: what the report's `ips` list holds. */
  lemma TopItems(t: Tally<string>)
    requires Valid(t)
    ensures RankedTop(Items(t, TopAddresses(t)), t)
  {
    var top := TopAddresses(t);
    var r := Items(t, top);
    forall i, j | 0 <= i < j < |r| && r[i].1 == r[j].1
      ensures Pos(t.order, r[i].0) < Pos(t.order, r[j].0)
    {
      assert r[i].0 == top[i] && r[j].0 == top[j];
    }
    forall a | a in t.counts && a !in Listed(r) {
      OmittedItem(t, a);
    }
  }

  /** `OmittedCountNoLarger` for an address absent from the report's `ips` list. */
  lemma OmittedItem(t: Tally<string>, a: string)
    requires Valid(t) && a in t.counts
    requires a !in Listed(Items(t, TopAddresses(t)))
    ensures var r := Items(t, TopAddresses(t));
      forall k :: 0 <= k < |r| ==>
        || Get(t, a) < r[k].1
        || (Get(t, a) == r[k].1 && Pos(t.order, r[k].0) < Pos(t.order, a))
  {
    var top := TopAddresses(t);
    var r := Items(t, top);
    forall m | 0 <= m < |top| ensures top[m] != a {
      assert r[m].0 == top[m] && r[m].0 in Listed(r);
    }
    OmittedCountNoLarger(t, a);
  }

  /** Where an address left out of the twenty sits in the full ranking: past the cut. */
  lemma OmittedPlace(t: Tally<string>, ranked: seq<nat>, a: string) returns (p: nat)
    requires Valid(t) && Ranked(t, t.order, ranked) && multiset(ranked) == multiset(Range(|t.order|))
    requires a in t.counts && a !in TopOf(t, ranked)
    ensures |Top(ranked, TopCount)| <= p < |ranked| && ranked[p] == Pos(t.order, a)
  {
    var top := Top(ranked, TopCount);
    var idx := Pos(t.order, a);
    assert idx in multiset(Range(|t.order|)) by {
      assert Range(|t.order|)[idx] == idx;
    }
    assert idx in multiset(ranked);
    p :| 0 <= p < |ranked| && ranked[p] == idx;
    if p < |top| {
      assert false;
    }
  }

  lemma OmittedOf(t: Tally<string>, ranked: seq<nat>, a: string)
    requires Valid(t) && Ranked(t, t.order, ranked) && multiset(ranked) == multiset(Range(|t.order|))
    requires a in t.counts && a !in TopOf(t, ranked)
    ensures forall k :: 0 <= k < |TopOf(t, ranked)| ==> Get(t, a) <= Get(t, TopOf(t, ranked)[k])
    ensures forall k :: 0 <= k < |TopOf(t, ranked)| && Get(t, a) == Get(t, TopOf(t, ranked)[k]) ==>
              Pos(t.order, TopOf(t, ranked)[k]) < Pos(t.order, a)
  {
    var r := TopOf(t, ranked);
    var p := OmittedPlace(t, ranked, a);
    forall k | 0 <= k < |r|
      ensures Get(t, a) <= Get(t, r[k])
      ensures Get(t, a) == Get(t, r[k]) ==> Pos(t.order, r[k]) < Pos(t.order, a)
    {
      assert Before(t, t.order, ranked[k], ranked[p]);
      PosOfDistinct(t.order, ranked[k]);
    }
  }

  /**
   `dict(sorted(d.items()))`: every key of the counter exactly once, with its
   count, in increasing string order.
   */
  function KeyTable(t: Tally<string>): (r: seq<(string, int)>)
    requires Valid(t)
    ensures forall i, j :: 0 <= i < j < |r| ==> Less(r[i].0, r[j].0)
    ensures forall k :: 0 <= k < |r| ==> r[k].1 == Get(t, r[k].0)
    ensures forall key :: key in t.counts <==> (exists k :: 0 <= k < |r| && r[k].0 == key)
  {
    TableOf(t, SortKeys(t.order))
  }

  /** Keys in increasing order, each paired with its count. */
  function TableOf(t: Tally<string>, keys: seq<string>): (r: seq<(string, int)>)
    requires Valid(t) && Ascending(keys) && multiset(keys) == multiset(t.order)
    ensures forall i, j :: 0 <= i < j < |r| ==> Less(r[i].0, r[j].0)
    ensures forall k :: 0 <= k < |r| ==> r[k].1 == Get(t, r[k].0)
    ensures forall key :: key in t.counts <==> (exists k :: 0 <= k < |r| && r[k].0 == key)
  {
    var r := Items(t, keys);
    forall key ensures key in t.counts <==> (exists k :: 0 <= k < |r| && r[k].0 == key) {
      if key in t.counts {
        assert key in multiset(keys);
        var k :| 0 <= k < |keys| && keys[k] == key;
        assert r[k].0 == key;
      }
      if exists k :: 0 <= k < |r| && r[k].0 == key {
        var k :| 0 <= k < |r| && r[k].0 == key;
        assert keys[k] in multiset(t.order);
      }
    }
    r
  }

  /**
   The report: the day and hour tables in key order, the twenty busiest
   addresses with their counts, the totals, and the time stamp.
   */
  function Build(c: Counters, now: DateTime): (r: Report)
    requires ValidCounters(c) && ValidDateTime(now)
    ensures r.totalVisits == c.total && r.uniqueIps == |c.ips.order|
    ensures |r.ips| == if |c.ips.order| < TopCount then |c.ips.order| else TopCount
    ensures forall i, j :: 0 <= i < j < |r.daily| ==> Less(r.daily[i].0, r.daily[j].0)
    ensures forall k :: 0 <= k < |r.daily| ==> r.daily[k].1 == Get(c.daily, r.daily[k].0)
    ensures forall d :: d in c.daily.counts <==> exists k :: 0 <= k < |r.daily| && r.daily[k].0 == d
    ensures forall i, j :: 0 <= i < j < |r.hourly| ==> Less(r.hourly[i].0, r.hourly[j].0)
    ensures forall k :: 0 <= k < |r.hourly| ==> r.hourly[k].1 == Get(c.hourly, r.hourly[k].0)
    ensures forall h :: h in c.hourly.counts <==> exists k :: 0 <= k < |r.hourly| && r.hourly[k].0 == h
    ensures RankedTop(r.ips, c.ips)
  {
    ValidIsInRange(now);
    TopItems(c.ips);
    Report(
      KeyTable(c.daily),
      KeyTable(c.hourly),
      Items(c.ips, TopAddresses(c.ips)),
      c.total,
      |c.ips.order|,
      Stamp(now))
  }

  /**
   `parse_apache_log(path)`, given what opening and reading the file gives
   (its content or the error raised) and the time the report is made.
   */
  function ParseApacheLog(file: Result<string>, now: DateTime): (r: Outcome)
    requires ValidDateTime(now)
    ensures file.Err? ==> r == Failed(file.message)
    ensures file.Ok? ==> r.Stats?
  {
    match file
    case Err(e) => Failed(e)
    case Ok(content) => Stats(Build(Tally(FileLines(content)), now))
  }

  /**
   `ips` is `sorted(Counter(keys).items(), key=count, reverse=True)[:20]`,
   described without sorting: as many entries as there are distinct keys, up
   to twenty, ranked as `StreamRanked` says.
   */
  ghost predicate TopTwenty(ips: seq<(string, int)>, keys: seq<string>) {
    && |ips| == (if |set a | a in keys| < TopCount then |set a | a in keys| else TopCount)
    && StreamRanked(ips, keys)
  }

  /**
   `ips` ranks the keys of a stream by number of occurrences: distinct keys
   of the stream with their numbers of occurrences, largest first, equal
   counts in the order their first occurrences come, and no key left out
   that outranks a listed one.
   */
  ghost predicate StreamRanked(ips: seq<(string, int)>, keys: seq<string>) {
    && (forall k :: 0 <= k < |ips| ==> ips[k].0 in keys && ips[k].1 == Occurrences(keys, ips[k].0))
    && (forall i, j :: 0 <= i < j < |ips| ==> ips[i].0 != ips[j].0 && ips[i].1 >= ips[j].1)
    && (forall i, j :: 0 <= i < j < |ips| && ips[i].1 == ips[j].1 ==> Pos(keys, ips[i].0) < Pos(keys, ips[j].0))
    && NoneOmittedAbove(ips, keys)
  }

  /**
   Every key of the stream missing from `ips` occurs less often than each
   listed key, or as often and first after it.
   */
  ghost predicate NoneOmittedAbove(ips: seq<(string, int)>, keys: seq<string>)
    requires forall k :: 0 <= k < |ips| ==> ips[k].0 in keys
  {
    forall a, k :: a in keys && a !in Listed(ips) && 0 <= k < |ips| ==>
      || Occurrences(keys, a) < ips[k].1
      || (Occurrences(keys, a) == ips[k].1 && Pos(keys, ips[k].0) < Pos(keys, a))
  }

  /** The report's address list ranks the visits' addresses as `TopTwenty` describes. */
  lemma RankingOfLog(vs: seq<Visit>, now: DateTime)
    requires ValidDateTime(now)
    ensures TopTwenty(Build(CountsOf(vs), now).ips, Addresses(vs))
  {
    var keys := Addresses(vs);
    var ips := Build(CountsOf(vs), now).ips;
    CountKeys(keys);
    RankedOfStream(ips, keys);
  }

  /** `RankedTop` of a stream's counter, restated in terms of the stream itself. */
  lemma RankedOfStream(ips: seq<(string, int)>, keys: seq<string>)
    requires RankedTop(ips, Count(keys))
    ensures StreamRanked(ips, keys)
  {
    StreamCounts(ips, keys);
    StreamTies(ips, keys);
    StreamOmitted(ips, keys);
  }

  lemma StreamCounts(ips: seq<(string, int)>, keys: seq<string>)
    requires RankedTop(ips, Count(keys))
    ensures forall k :: 0 <= k < |ips| ==> ips[k].0 in keys && ips[k].1 == Occurrences(keys, ips[k].0)
  {
    CountSpec(keys);
  }

  lemma StreamTies(ips: seq<(string, int)>, keys: seq<string>)
    requires RankedTop(ips, Count(keys))
    ensures forall k :: 0 <= k < |ips| ==> ips[k].0 in keys
    ensures forall i, j :: 0 <= i < j < |ips| && ips[i].1 == ips[j].1 ==> Pos(keys, ips[i].0) < Pos(keys, ips[j].0)
  {
    var t := Count(keys);
    CountSpec(keys);
    forall i, j | 0 <= i < j < |ips| && ips[i].1 == ips[j].1
      ensures Pos(keys, ips[i].0) < Pos(keys, ips[j].0)
    {
      FirstSeenBefore(keys, ips[i].0, ips[j].0);
      assert Pos(t.order, ips[i].0) < Pos(t.order, ips[j].0);
    }
  }

  lemma StreamOmitted(ips: seq<(string, int)>, keys: seq<string>)
    requires RankedTop(ips, Count(keys))
    ensures forall k :: 0 <= k < |ips| ==> ips[k].0 in keys
    ensures NoneOmittedAbove(ips, keys)
  {
    var t := Count(keys);
    CountSpec(keys);
    forall a, k | a in keys && a !in Listed(ips) && 0 <= k < |ips|
      ensures || Occurrences(keys, a) < ips[k].1
              || (Occurrences(keys, a) == ips[k].1 && Pos(keys, ips[k].0) < Pos(keys, a))
    {
      assert a in t.counts;
      FirstSeenBefore(keys, ips[k].0, a);
    }
  }

  /** What `parse_apache_log` reports for a readable log, stated on the visits of its counted lines. */
  lemma ReportOfLog(content: string, now: DateTime)
    requires ValidDateTime(now)
    ensures var vs := Visits(FileLines(content));
      var rep := ParseApacheLog(Ok(content), now).report;
      && rep.totalVisits == |vs|
      && rep.uniqueIps == |set a | a in Addresses(vs)|
      && (forall k :: 0 <= k < |rep.daily| ==> rep.daily[k].1 == Occurrences(Days(vs), rep.daily[k].0))
      && (forall d :: d in Days(vs) <==> exists k :: 0 <= k < |rep.daily| && rep.daily[k].0 == d)
      && (forall k :: 0 <= k < |rep.hourly| ==> rep.hourly[k].1 == Occurrences(Hours(vs), rep.hourly[k].0))
      && (forall h :: h in Hours(vs) <==> exists k :: 0 <= k < |rep.hourly| && rep.hourly[k].0 == h)
      && (forall i, j :: 0 <= i < j < |rep.daily| ==> Less(rep.daily[i].0, rep.daily[j].0))
      && (forall i, j :: 0 <= i < j < |rep.hourly| ==> Less(rep.hourly[i].0, rep.hourly[j].0))
      && TopTwenty(rep.ips, Addresses(vs))
  {
    var lines := FileLines(content);
    var vs := Visits(lines);
    RunIsCount(Parsed(lines));
    assert ParseApacheLog(Ok(content), now).report == Build(CountsOf(vs), now);
    BuildOfCounts(vs, now);
    RankingOfLog(vs, now);
  }

  /** The report built from counting a stream of visits. */
  lemma BuildOfCounts(vs: seq<Visit>, now: DateTime)
    requires ValidDateTime(now)
    ensures var rep := Build(CountsOf(vs), now);
      && rep.totalVisits == |vs|
      && rep.uniqueIps == |set a | a in Addresses(vs)|
      && (forall k :: 0 <= k < |rep.daily| ==> rep.daily[k].1 == Occurrences(Days(vs), rep.daily[k].0))
      && (forall d :: d in Days(vs) <==> exists k :: 0 <= k < |rep.daily| && rep.daily[k].0 == d)
      && (forall k :: 0 <= k < |rep.hourly| ==> rep.hourly[k].1 == Occurrences(Hours(vs), rep.hourly[k].0))
      && (forall h :: h in Hours(vs) <==> exists k :: 0 <= k < |rep.hourly| && rep.hourly[k].0 == h)
      && (forall k :: 0 <= k < |rep.ips| ==> rep.ips[k].1 == Occurrences(Addresses(vs), rep.ips[k].0))
  {
    var c := CountsOf(vs);
    var rep := Build(c, now);
    var days, hours := Days(vs), Hours(vs);
    CountSpec(days);
    CountSpec(hours);
    CountSpec(Addresses(vs));
    CountKeys(Addresses(vs));
    TableFacts(c.daily, rep.daily, days);
    TableFacts(c.hourly, rep.hourly, hours);
  }

  /** A key table of a counter that counts a stream lists the stream's keys with their occurrences. */
  lemma TableFacts(t: Tally<string>, table: seq<(string, int)>, keys: seq<string>)
    requires forall key :: Get(t, key) == Occurrences(keys, key)
    requires forall key :: key in t.counts <==> key in keys
    requires forall k :: 0 <= k < |table| ==> table[k].1 == Get(t, table[k].0)
    requires forall key :: key in t.counts <==> (exists k :: 0 <= k < |table| && table[k].0 == key)
    ensures forall k :: 0 <= k < |table| ==> table[k].1 == Occurrences(keys, table[k].0)
    ensures forall key :: key in keys <==> (exists k :: 0 <= k < |table| && table[k].0 == key)
  {
  }

  /** An empty log gives an empty report. */
  lemma EmptyLog(now: DateTime)
    requires ValidDateTime(now)
    ensures var rep := ParseApacheLog(Ok(""), now).report;
      rep.totalVisits == 0 && rep.uniqueIps == 0 && rep.daily == [] && rep.hourly == [] && rep.ips == []
  {
  }
}
