/**
 The two places the WHOIS subsystem is driven from: the request-logging
 middleware, which logs every request, records the client's address and
 caches its registry data; and the `/api/get_stats` lookup, whose complete
 answer is also written to the store for that address, when the store
 knows it.
 */
module Service {
  import opened Wrappers
  import opened Text
  import opened Whois
  import opened IpStore
  import Strptime
  import AccessLog
  import TextFile
  import Stats

  /** The HTTP outcomes of the endpoint: 400, 404 or 200 with the answer. */
  datatype Reply = MissingIp | NoInfo | Answer(info: WhoisInfo)

  datatype Served = Served(reply: Reply, store: Store, asked: seq<string>)

  /**
   `whois_lookup(ip)`, with `query` standing for the WHOIS exchanges: an
   empty address is refused before anything is asked; otherwise the
   registries are walked, and a complete answer is returned and handed to
   `add_whois_info`, whose own outcome does not change the reply.
   */
  function WhoisLookup(s: Store, ip: string, query: (string, string) -> Option<string>): (r: Served)
    ensures r.reply.MissingIp? <==> ip == []
    ensures r.reply.MissingIp? ==> r.store == s && r.asked == []
    ensures !r.reply.MissingIp? ==> r.asked == GetWhoisInfo(ip, query).asked
    ensures r.reply.NoInfo? <==> ip != [] && forall i :: 0 <= i < |Servers| ==> Complete(query(ip, Servers[i])).None?
    ensures r.reply.NoInfo? ==> r.store == s
    ensures r.reply.Answer? ==> Some(r.reply.info) == GetWhoisInfo(ip, query).info
    ensures r.reply.Answer? ==> r.store.ips == s.ips
  {
    if ip == [] then Served(MissingIp, s, [])
    else
      var l := GetWhoisInfo(ip, query);
      match l.info
      case None => Served(NoInfo, s, l.asked)
      case Some(info) =>
        var saved := AddWhoisInfo(s, ip, info.asn, info.name, info.country);
        Served(Answer(info), saved.store, l.asked)
  }

  /**
   An address the store has never seen is still answered, but nothing is
   stored for it; the store stays valid whatever happens.
   */
  lemma LookupUnknownIp(s: Store, ip: string, query: (string, string) -> Option<string>)
    requires Valid(s)
    requires forall k :: 0 <= k < |s.ips| ==> s.ips[k].ip != ip
    ensures WhoisLookup(s, ip, query).store == s
  {
    var l := GetWhoisInfo(ip, query);
    if ip != [] && l.info.Some? {
      AddWhoisInfoSpec(s, ip, l.info.value.asn, l.info.value.name, l.info.value.country);
    }
  }

  /**
   For a known address with a complete answer its columns accept, the
   address ends up with exactly one info row, holding the answer as the
   columns keep it.
   */
  lemma LookupStoresAnswer(s: Store, ip: string, query: (string, string) -> Option<string>, k: nat)
    requires Valid(s) && k < |s.ips| && s.ips[k].ip == ip
    requires WhoisLookup(s, ip, query).reply.Answer?
    ensures var r := WhoisLookup(s, ip, query);
            var w := r.reply.info;
            && Valid(r.store)
            && (Accepted(w.asn, w.name, w.country)
                ==> var rows := InfosOf(r.store, s.ips[k].id);
                    |rows| == 1 && HoldsValues(rows[0], w.asn, w.name, w.country))
  {
    var r := WhoisLookup(s, ip, query);
    var w := r.reply.info;
    assert r.store == AddWhoisInfo(s, ip, w.asn, w.name, w.country).store;
    AddWhoisInfoKnown(s, ip, w.asn, w.name, w.country, k);
  }

  // ------------------------------------------------------------ the middleware

  /** What the middleware leaves behind for one request: the log line, the store, the registries asked. */
  datatype Logged = Logged(line: string, store: Store, asked: seq<string>)

  /**
   `log_requests` after the response is produced, with `now` standing for
   `datetime.now()` and `query` for the WHOIS exchanges: the client address is
   derived, one line is written for it, its address row is found or created,
   the registries are walked, and a complete answer is upserted for it.
   */
  function LogRequest(s: Store, forwardedFor: Option<string>, peerHost: string, now: Strptime.DateTime,
                      verb: string, path: string, status: nat, query: (string, string) -> Option<string>): (r: Logged)
    requires Strptime.InRange(now)
    ensures var ip := AccessLog.ClientIp(forwardedFor, peerHost);
      && r.line == AccessLog.RequestLine(ip, now, verb, path, status)
      && r.asked == GetWhoisInfo(ip, query).asked
      && r.store.ips == InsertIpAddress(s, ip).store.ips
      && (GetWhoisInfo(ip, query).info.None? ==> r.store == InsertIpAddress(s, ip).store)
  {
    var ip := AccessLog.ClientIp(forwardedFor, peerHost);
    var line := AccessLog.RequestLine(ip, now, verb, path, status);
    var stored := InsertIpAddress(s, ip);
    var l := GetWhoisInfo(ip, query);
    match l.info
    case None => Logged(line, stored.store, l.asked)
    case Some(info) =>
      var saved := AddWhoisInfo(stored.store, ip, info.asn, info.name, info.country);
      Logged(line, saved.store, l.asked)
  }

  /**
   The middleware keeps the store valid and leaves the client's address stored
   (unless it is wider than its column); when the registries give a complete
   answer its columns accept, that address has exactly one info row, holding
   the answer as the columns keep it, however many requests it made before.
   */
  lemma LogRequestStores(s: Store, forwardedFor: Option<string>, peerHost: string, now: Strptime.DateTime,
                         verb: string, path: string, status: nat, query: (string, string) -> Option<string>)
    requires Valid(s) && Strptime.InRange(now)
    requires |AccessLog.ClientIp(forwardedFor, peerHost)| <= IpWidth
    ensures var ip := AccessLog.ClientIp(forwardedFor, peerHost);
      var r := LogRequest(s, forwardedFor, peerHost, now, verb, path, status, query);
      && Valid(r.store)
      && (exists k :: 0 <= k < |r.store.ips| && r.store.ips[k].ip == ip)
      && (forall w :: GetWhoisInfo(ip, query).info == Some(w)
            && Accepted(w.asn, w.name, w.country)
            ==> exists k :: 0 <= k < |r.store.ips| && r.store.ips[k].ip == ip
                  && var rows := InfosOf(r.store, r.store.ips[k].id);
                     |rows| == 1 && HoldsValues(rows[0], w.asn, w.name, w.country))
  {
    var ip := AccessLog.ClientIp(forwardedFor, peerHost);
    var r := LogRequest(s, forwardedFor, peerHost, now, verb, path, status, query);
    InsertIpAddressSpec(s, ip);
    var t := InsertIpAddress(s, ip).store;
    var k: nat :| k < |t.ips| && t.ips[k].ip == ip by {
      if exists k :: 0 <= k < |s.ips| && s.ips[k].ip == ip {
        var j :| 0 <= j < |s.ips| && s.ips[j].ip == ip;
        assert t.ips[j].ip == ip;
      } else {
        assert t.ips[|s.ips|].ip == ip;
      }
    }
    var l := GetWhoisInfo(ip, query);
    if l.info.Some? {
      var w := l.info.value;
      AddWhoisInfoKnown(t, ip, w.asn, w.name, w.country, k);
      assert r.store.ips[k] == t.ips[k];
    }
  }

  /**
   Producer against parser: when the derived address is a non-empty run of
   non-whitespace and neither method nor path holds a newline, the line the
   middleware writes at a valid time is counted by the statistics as one
   visit from that address, on that day, in that hour.
   */
  lemma LogRequestCounted(s: Store, forwardedFor: Option<string>, peerHost: string, now: Strptime.DateTime,
                          verb: string, path: string, status: nat, query: (string, string) -> Option<string>)
    requires Strptime.ValidDateTime(now)
    requires var ip := AccessLog.ClientIp(forwardedFor, peerHost); |ip| > 0 && NoSpace(ip)
    requires Excludes(verb, '\n') && Excludes(path, '\n')
    ensures Strptime.InRange(now)
    ensures AccessLog.LineVisit(LogRequest(s, forwardedFor, peerHost, now, verb, path, status, query).line)
            == Some(AccessLog.Visit(AccessLog.ClientIp(forwardedFor, peerHost), Strptime.DateKey(now), Strptime.HourKey(now)))
  {
    Strptime.ValidIsInRange(now);
    AccessLog.RequestLineVisit(AccessLog.ClientIp(forwardedFor, peerHost), now, verb, path, status);
  }

  /**
   Producer against the statistics' reading of the whole file: appended to a
   log that ends at a line boundary, the middleware's line adds exactly one
   file line, and the statistics count exactly one more visit, from that
   address, on that day, in that hour. Besides the conditions above, neither
   method nor path may hold a carriage return, which reading the file in text
   mode turns into a line break.
   */
  lemma LogRequestAppended(prev: string, s: Store, forwardedFor: Option<string>, peerHost: string,
                           now: Strptime.DateTime, verb: string, path: string, status: nat,
                           query: (string, string) -> Option<string>)
    requires TextFile.AtBoundary(prev)
    requires Strptime.ValidDateTime(now)
    requires var ip := AccessLog.ClientIp(forwardedFor, peerHost); |ip| > 0 && NoSpace(ip)
    requires Excludes(verb, '\n') && Excludes(path, '\n') && Excludes(verb, '\r') && Excludes(path, '\r')
    ensures var line := LogRequest(s, forwardedFor, peerHost, now, verb, path, status, query).line;
      && TextFile.AtBoundary(prev + line)
      && TextFile.FileLines(prev + line) == TextFile.FileLines(prev) + [line]
      && Stats.Visits(TextFile.FileLines(prev + line))
         == Stats.Visits(TextFile.FileLines(prev))
            + [AccessLog.Visit(AccessLog.ClientIp(forwardedFor, peerHost), Strptime.DateKey(now), Strptime.HourKey(now))]
  {
    var ip := AccessLog.ClientIp(forwardedFor, peerHost);
    Strptime.ValidIsInRange(now);
    assert LogRequest(s, forwardedFor, peerHost, now, verb, path, status, query).line
           == AccessLog.RequestLine(ip, now, verb, path, status);
    RequestLineAppended(prev, ip, now, verb, path, status);
  }

  /** The same, for the line written from a given client address. */
  lemma RequestLineAppended(prev: string, ip: string, now: Strptime.DateTime, verb: string, path: string, status: nat)
    requires TextFile.AtBoundary(prev)
    requires Strptime.ValidDateTime(now)
    requires |ip| > 0 && NoSpace(ip)
    requires Excludes(verb, '\n') && Excludes(path, '\n') && Excludes(verb, '\r') && Excludes(path, '\r')
    ensures Strptime.InRange(now)
    ensures var line := AccessLog.RequestLine(ip, now, verb, path, status);
      && TextFile.AtBoundary(prev + line)
      && TextFile.FileLines(prev + line) == TextFile.FileLines(prev) + [line]
      && Stats.Visits(TextFile.FileLines(prev + line))
         == Stats.Visits(TextFile.FileLines(prev)) + [AccessLog.Visit(ip, Strptime.DateKey(now), Strptime.HourKey(now))]
  {
    Strptime.ValidIsInRange(now);
    var line := AccessLog.RequestLine(ip, now, verb, path, status);
    AccessLog.RequestLineVisit(ip, now, verb, path, status);
    AccessLog.RequestLineShape(ip, now, verb, path, status);
    TextFile.FileLinesAppend(prev, line);
    Stats.VisitsAppend(TextFile.FileLines(prev), [line]);
    Stats.VisitsOne(line);
  }

  /**
   Why the carriage-return condition is needed: a `\r` in the path (a
   decoded `%0D`) cuts the written entry into two file lines, the request's
   start and its rest, so the statistics never see the line as written.
   */
  lemma CarriageReturnInPath(ip: string, now: Strptime.DateTime, verb: string, p1: string, p2: string, status: nat)
    requires Strptime.InRange(now) && NoSpace(ip)
    requires Excludes(verb, '\n') && Excludes(verb, '\r')
    requires Excludes(p1, '\n') && Excludes(p1, '\r') && Excludes(p2, '\n') && Excludes(p2, '\r')
    ensures var line := AccessLog.RequestLine(ip, now, verb, p1 + "\r" + p2, status);
      && TextFile.FileLines(line)
         == [ip + " - - [" + Strptime.FormatLog(now) + " ] \"" + verb + " " + p1 + "\n",
             p2 + "\" " + Decimal(status) + " 0" + "\n"]
      && TextFile.FileLines(line) != [line]
  {
    var head := ip + " - - [" + Strptime.FormatLog(now) + " ] \"" + verb + " " + p1;
    var tail := p2 + "\" " + Decimal(status) + " 0";
    var line := AccessLog.RequestLine(ip, now, verb, p1 + "\r" + p2, status);
    assert line == head + "\r" + tail + "\n";
    PiecesPlain(ip, now, verb, p1, p2, status);
    TextFile.CarriageReturnSplits(head, tail);
    assert |TextFile.FileLines(line)[0]| < |line|;
  }

  /** Neither piece of the cut entry holds a line break or carriage return. */
  lemma PiecesPlain(ip: string, now: Strptime.DateTime, verb: string, p1: string, p2: string, status: nat)
    requires Strptime.InRange(now) && NoSpace(ip)
    requires Excludes(verb, '\n') && Excludes(verb, '\r')
    requires Excludes(p1, '\n') && Excludes(p1, '\r') && Excludes(p2, '\n') && Excludes(p2, '\r')
    ensures var head := ip + " - - [" + Strptime.FormatLog(now) + " ] \"" + verb + " " + p1;
      Excludes(head, '\n') && Excludes(head, '\r')
    ensures var tail := p2 + "\" " + Decimal(status) + " 0";
      |tail| > 0 && Excludes(tail, '\n') && Excludes(tail, '\r')
  {
    forall c | c == '\n' || c == '\r'
      ensures Excludes(ip, c) && Excludes(Strptime.FormatLog(now), c) && Excludes(Decimal(status), c)
    {
      assert IsSpace(c);
      forall i | 0 <= i < |ip| ensures ip[i] != c {
        assert !IsSpace(ip[i]);
      }
      forall i | 0 <= i < |Strptime.FormatLog(now)| ensures Strptime.FormatLog(now)[i] != c {
        assert !IsSpace(Strptime.FormatLog(now)[i]);
      }
      forall i | 0 <= i < |Decimal(status)| ensures Decimal(status)[i] != c {
        assert IsDigit(Decimal(status)[i]);
      }
    }
  }
}
