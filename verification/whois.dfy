/**
 Extracting the autonomous system, network name and country from a WHOIS
 response with ordered, case-insensitive label patterns, and asking a fixed
 list of registries in turn until one answer yields all three.
 */
module Whois {
  import opened Wrappers
  import opened Text
  import opened Scan

  // ------------------------------------------------------------ patterns

  /** What a capture group may hold: `[\w-]` or `[\w\s-]`. */
  datatype Class = WordOrDash | WordSpaceOrDash

  predicate InClass(c: char, cls: Class) {
    IsWordChar(c) || c == '-' || (cls == WordSpaceOrDash && IsSpace(c))
  }

  predicate AllIn(s: string, cls: Class) {
    forall i :: 0 <= i < |s| ==> InClass(s[i], cls)
  }

  /** `label\s*(class+)` compiled with `re.IGNORECASE`. */
  datatype Pattern = Pattern(prefix: string, cls: Class)

  const AsnPatterns: seq<Pattern> :=
    [Pattern("origin:", WordOrDash), Pattern("OriginAS:", WordOrDash), Pattern("aut-num:", WordOrDash)]
  const NamePatterns: seq<Pattern> :=
    [Pattern("netname:", WordOrDash), Pattern("NetName:", WordOrDash), Pattern("descr:", WordSpaceOrDash)]
  const CountryPatterns: seq<Pattern> :=
    [Pattern("country:", WordOrDash), Pattern("Country:", WordOrDash)]

  /** The label occurs at `p`, ignoring (ASCII) case. */
  predicate LabelAt(text: string, p: nat, prefix: string) {
    p + |prefix| <= |text| && LowerStr(text[p..p + |prefix|]) == LowerStr(prefix)
  }

  /**
   One way the pattern can match at `p`: the label, whitespace up to `start`,
   then a non-empty run of the class from `start` to `end` captured.
   */
  predicate Way(text: string, p: nat, pat: Pattern, start: nat, end: nat) {
    && LabelAt(text, p, pat.prefix)
    && p + |pat.prefix| <= start < end <= |text|
    && AllSpace(text[p + |pat.prefix|..start])
    && AllIn(text[start..end], pat.cls)
  }

  /** Index one past the maximal run of the class starting at `i`. */
  function SkipClass(s: string, i: nat, cls: Class): (r: nat)
    requires i <= |s|
    ensures i <= r <= |s|
    ensures AllIn(s[i..r], cls)
    ensures r == |s| || !InClass(s[r], cls)
    decreases |s| - i
  {
    if i == |s| || !InClass(s[i], cls) then i else SkipClass(s, i + 1, cls)
  }

  /**
   The capture the backtracking matcher settles on at `p`: `\s*` first takes
   all the whitespace, and gives one character back only when the class
   itself can take it (`[\w\s-]`); the group then takes the longest run.
   */
  function SpanAt(text: string, p: nat, pat: Pattern): (r: Option<(nat, nat)>)
    ensures r.Some? ==> Way(text, p, pat, r.value.0, r.value.1)
  {
    if !LabelAt(text, p, pat.prefix) then None
    else
      var q := p + |pat.prefix|;
      var w := SkipSpace(text, q);
      if w < |text| && InClass(text[w], pat.cls) then
        Some((w, SkipClass(text, w, pat.cls)))
      else if pat.cls == WordSpaceOrDash && w > q then
        assert AllSpace(text[q..w - 1]) by {
          forall k | q <= k < w - 1 ensures IsSpace(text[k]) {
            assert text[k] == text[q..w][k - q];
          }
        }
        assert AllIn(text[w - 1..w], pat.cls) by {
          assert text[w - 1..w][0] == text[q..w][w - 1 - q];
        }
        Some((w - 1, w))
      else None
  }

  /**
   The greedy choice: every way to match at `p` is found, and the one chosen
   has the longest whitespace run and then the longest capture.
   */
  lemma SpanAtGreedy(text: string, p: nat, pat: Pattern, start: nat, end: nat)
    requires Way(text, p, pat, start, end)
    ensures SpanAt(text, p, pat).Some?
    ensures var (s, e) := SpanAt(text, p, pat).value;
            start < s || (start == s && end <= e)
  {
    var q := p + |pat.prefix|;
    var w := SkipSpace(text, q);
    assert InClass(text[start], pat.cls) by {
      assert text[start] == text[start..end][0];
    }
    if w < |text| && InClass(text[w], pat.cls) {
      if start == w {
        var e := SkipClass(text, w, pat.cls);
      }
    } else {
      assert start < w;
      assert IsSpace(text[start]) by {
        assert text[start] == text[q..w][start - q];
      }
      WordCharIsNotSpace(text[start]);
    }
  }

  /** Where `pattern.search(text)` matched and which span its group 1 covers. */
  datatype Found = Found(at: nat, start: nat, end: nat)

  /** `pattern.search(text)`: the first position where the pattern matches. */
  function Search(text: string, pat: Pattern): (r: Option<Found>)
    ensures r.Some? ==> Way(text, r.value.at, pat, r.value.start, r.value.end)
  {
    var hit := FirstIndex((p: nat) => SpanAt(text, p, pat).Some?, 0, |text| + 1);
    match hit
    case None => None
    case Some(p) =>
      var (s, e) := SpanAt(text, p, pat).value;
      Some(Found(p, s, e))
  }

  /**
   Leftmost, then greedy: any way the pattern can match is found by the
   search, no later than its position, and at the same position with no
   longer whitespace run and no longer capture.
   */
  lemma SearchLeftmostGreedy(text: string, pat: Pattern, p: nat, s: nat, e: nat)
    requires Way(text, p, pat, s, e)
    ensures Search(text, pat).Some?
    ensures Search(text, pat).value.at <= p
    ensures var m := Search(text, pat).value;
            m.at == p ==> s < m.start || (s == m.start && e <= m.end)
  {
    var f := (p: nat) => SpanAt(text, p, pat).Some?;
    SpanAtGreedy(text, p, pat, s, e);
    assert f(p);
    var hit := FirstIndex(f, 0, |text| + 1);
    assert hit.Some? && hit.value <= p;
  }

  /** `match.group(1)` of `pattern.search(text)`, if it matched. */
  function Group(text: string, pat: Pattern): (r: Option<string>)
    ensures r.Some? ==> |r.value| > 0 && AllIn(r.value, pat.cls)
  {
    match Search(text, pat)
    case None => None
    case Some(m) => Some(text[m.start..m.end])
  }

  /** The group is present exactly when the pattern can match somewhere. */
  lemma GroupPresent(text: string, pat: Pattern)
    ensures Group(text, pat).Some? <==> exists p, s, e :: Way(text, p, pat, s, e)
  {
    if m :| Search(text, pat) == Some(m) {
      assert Way(text, m.at, pat, m.start, m.end);
    }
    if p, s, e :| Way(text, p, pat, s, e) {
      SearchLeftmostGreedy(text, pat, p, s, e);
    }
  }

  /** Two patterns whose labels agree ignoring case find the same match. */
  lemma SameFoldSameSearch(text: string, a: Pattern, b: Pattern)
    requires LowerStr(a.prefix) == LowerStr(b.prefix) && a.cls == b.cls
    ensures Search(text, a) == Search(text, b)
  {
    if Search(text, a).Some? {
      var m := Search(text, a).value;
      SameWay(text, a, b, m.at, m.start, m.end);
      SearchLeftmostGreedy(text, b, m.at, m.start, m.end);
      var n := Search(text, b).value;
      SameWay(text, a, b, n.at, n.start, n.end);
      SearchLeftmostGreedy(text, a, n.at, n.start, n.end);
    } else if Search(text, b).Some? {
      var n := Search(text, b).value;
      SameWay(text, a, b, n.at, n.start, n.end);
      SearchLeftmostGreedy(text, a, n.at, n.start, n.end);
    }
  }

  /** Labels that agree ignoring case allow the same ways to match. */
  lemma SameWay(text: string, a: Pattern, b: Pattern, p: nat, s: nat, e: nat)
    requires LowerStr(a.prefix) == LowerStr(b.prefix) && a.cls == b.cls
    ensures Way(text, p, a, s, e) <==> Way(text, p, b, s, e)
  {
    assert |a.prefix| == |b.prefix|;
  }

  // ------------------------------------------------------------ fields

  /** The first pattern of the list that matches anywhere gives the field. */
  function FirstGroup(text: string, pats: seq<Pattern>): (r: Option<string>)
    ensures r.Some? ==> |r.value| > 0 && AllIn(r.value, WordSpaceOrDash)
    ensures r.Some? && (forall i :: 0 <= i < |pats| ==> pats[i].cls == WordOrDash)
            ==> AllIn(r.value, WordOrDash)
  {
    if |pats| == 0 then None
    else
      var g := Group(text, pats[0]);
      if g.Some? then g
      else
        assert forall j :: 0 < j < |pats| ==> pats[j] == pats[1..][j - 1];
        FirstGroup(text, pats[1..])
  }

  /**
   The field comes from the first pattern in the list that has a group, and
   is absent exactly when none has.
   */
  lemma {:induction false} FirstGroupFirst(text: string, pats: seq<Pattern>)
    ensures var r := FirstGroup(text, pats);
            r.Some? ==> exists i :: 0 <= i < |pats| && Group(text, pats[i]) == r
                                    && forall j :: 0 <= j < i ==> Group(text, pats[j]).None?
    ensures FirstGroup(text, pats).None? <==> forall i :: 0 <= i < |pats| ==> Group(text, pats[i]).None?
  {
    if |pats| > 0 && Group(text, pats[0]).None? {
      FirstGroupFirst(text, pats[1..]);
      assert forall j :: 0 < j < |pats| ==> pats[j] == pats[1..][j - 1];
      var r := FirstGroup(text, pats);
      if r.Some? {
        var i :| 0 <= i < |pats| - 1 && Group(text, pats[1..][i]) == r
                 && forall j :: 0 <= j < i ==> Group(text, pats[1..][j]).None?;
        assert Group(text, pats[i + 1]) == r;
      }
    }
  }

  /** A field is absent exactly when no pattern of its list can match anywhere in the text. */
  lemma FieldAbsentIffNoMatch(text: string, pats: seq<Pattern>)
    ensures FirstGroup(text, pats).None?
            <==> forall i :: 0 <= i < |pats| ==> !exists p, s, e :: Way(text, p, pats[i], s, e)
  {
    FirstGroupFirst(text, pats);
    forall i | 0 <= i < |pats| ensures Group(text, pats[i]).None? <==> !exists p, s, e :: Way(text, p, pats[i], s, e) {
      GroupPresent(text, pats[i]);
    }
  }

  /** The fields of `parse_whois_response`; `None` where no pattern matched. */
  datatype WhoisData = WhoisData(asn: Option<string>, name: Option<string>, country: Option<string>)

  function ParseWhoisResponse(response: string): (r: WhoisData)
    ensures r.asn.Some? ==> |r.asn.value| > 0 && AllIn(r.asn.value, WordOrDash)
    ensures r.name.Some? ==> |r.name.value| > 0 && AllIn(r.name.value, WordSpaceOrDash)
    ensures r.country.Some? ==> |r.country.value| > 0 && AllIn(r.country.value, WordOrDash)
  {
    var asn := FirstGroup(response, AsnPatterns);
    var name := FirstGroup(response, NamePatterns);
    var country := FirstGroup(response, CountryPatterns);
    WhoisData(asn, name, country)
  }

  /** A pattern right after one with the same label up to case never decides the field. */
  lemma DropEquivalent(text: string, a: Pattern, b: Pattern, rest: seq<Pattern>)
    requires LowerStr(a.prefix) == LowerStr(b.prefix) && a.cls == b.cls
    ensures FirstGroup(text, [a, b] + rest) == FirstGroup(text, [a] + rest)
  {
    SameFoldSameSearch(text, a, b);
    assert ([a, b] + rest)[1..] == [b] + rest;
    assert ([b] + rest)[1..] == rest;
    assert ([a] + rest)[1..] == rest;
  }

  /**
   The second name pattern and the second country pattern repeat the first
   one's label up to case, so under `re.IGNORECASE` they never decide a field.
   */
  lemma RedundantPatterns(response: string)
    ensures ParseWhoisResponse(response).name
            == FirstGroup(response, [NamePatterns[0], NamePatterns[2]])
    ensures ParseWhoisResponse(response).country
            == FirstGroup(response, [CountryPatterns[0]])
  {
    assert NamePatterns == [NamePatterns[0], NamePatterns[1]] + [NamePatterns[2]];
    DropEquivalent(response, NamePatterns[0], NamePatterns[1], [NamePatterns[2]]);
    assert CountryPatterns == [CountryPatterns[0], CountryPatterns[1]] + [];
    DropEquivalent(response, CountryPatterns[0], CountryPatterns[1], []);
  }

  /**
   A response that starts with the label: the group is everything after the
   whitespace up to the first character outside the class.
   */
  lemma GroupAtStart(pat: Pattern, ws: string, body: string, tail: string)
    requires AllSpace(ws) && |body| > 0 && !IsSpace(body[0]) && AllIn(body, pat.cls)
    requires tail == [] || !InClass(tail[0], pat.cls)
    ensures Group(pat.prefix + ws + body + tail, pat) == Some(body)
  {
    var text := pat.prefix + ws + body + tail;
    var q := |pat.prefix|;
    var s := q + |ws|;
    var e := s + |body|;
    assert text[..q] == pat.prefix && text[q..s] == ws && text[s..e] == body;
    assert LabelAt(text, 0, pat.prefix);
    assert Way(text, 0, pat, s, e);
    SearchLeftmostGreedy(text, pat, 0, s, e);
    var m := Search(text, pat).value;
    assert text[s] == body[0];
    assert e < |text| ==> text[e] == tail[0];
    PinSpan(text, pat, s, e, m.start, m.end);
  }

  /**
   A match at the start whose whitespace run cannot reach past `s` and whose
   capture cannot reach past `e`, and which is no shorter than the way from
   `s` to `e`, is that way.
   */
  lemma PinSpan(text: string, pat: Pattern, s: nat, e: nat, ms: nat, me: nat)
    requires Way(text, 0, pat, ms, me) && (s < ms || (s == ms && e <= me))
    requires |pat.prefix| <= s < e <= |text| && !IsSpace(text[s])
    requires e == |text| || !InClass(text[e], pat.cls)
    ensures ms == s && me == e
  {
    var q := |pat.prefix|;
    forall i | q <= i < ms ensures IsSpace(text[i]) {
      assert text[i] == text[q..ms][i - q];
    }
    forall i | ms <= i < me ensures InClass(text[i], pat.cls) {
      assert text[i] == text[ms..me][i - ms];
    }
  }

  /**
   When no word character follows the whitespace, `[\w\s-]+` still matches by
   taking back the last whitespace character from `\s*`.
   */
  lemma GroupGivesBack(pat: Pattern, ws: string, tail: string)
    requires pat.cls == WordSpaceOrDash && |ws| > 0 && AllSpace(ws)
    requires tail == [] || (!IsSpace(tail[0]) && !InClass(tail[0], pat.cls))
    ensures Group(pat.prefix + ws + tail, pat) == Some([ws[|ws| - 1]])
  {
    var text := pat.prefix + ws + tail;
    var q := |pat.prefix|;
    var w := q + |ws|;
    assert text[..q] == pat.prefix && text[q..w] == ws;
    assert LabelAt(text, 0, pat.prefix);
    assert text[q..w - 1] == ws[..|ws| - 1];
    assert text[w - 1..w] == [ws[|ws| - 1]];
    assert Way(text, 0, pat, w - 1, w);
    SearchLeftmostGreedy(text, pat, 0, w - 1, w);
  }

  /**
   The `descr:` group takes whitespace too, so it runs on past the end of the
   line into the next label.
   */
  lemma DescrRunsOn()
    ensures Group("descr: Acme Net\ncountry: DE", NamePatterns[2]) == Some("Acme Net\ncountry")
  {
    var body := "Acme Net\ncountry";
    assert AllIn(body, WordSpaceOrDash);
    assert NamePatterns[2].prefix + " " + body + ": DE" == "descr: Acme Net\ncountry: DE";
    GroupAtStart(NamePatterns[2], " ", body, ": DE");
  }

  // ------------------------------------------------------------ registries

  const Servers: seq<string> :=
    ["whois.ripe.net", "whois.arin.net", "whois.apnic.net", "whois.radb.net", "whois.iana.org"]

  /** A complete answer: all three fields present and non-empty. */
  datatype WhoisInfo = WhoisInfo(asn: string, name: string, country: string)

  /**
   What one registry's reply contributes: nothing when there was no reply or
   an empty one, or when a field is missing or empty.
   */
  function Complete(response: Option<string>): (r: Option<WhoisInfo>)
    ensures r.Some? <==> response.Some? && response.value != []
                         && var d := ParseWhoisResponse(response.value);
                            d.asn.Some? && d.name.Some? && d.country.Some?
    ensures r.Some? ==> var d := ParseWhoisResponse(response.value);
                        r.value == WhoisInfo(d.asn.value, d.name.value, d.country.value)
  {
    if response.None? || response.value == [] then None
    else
      var d := ParseWhoisResponse(response.value);
      if d.asn.Some? && d.asn.value != [] && d.name.Some? && d.name.value != []
         && d.country.Some? && d.country.value != []
      then Some(WhoisInfo(d.asn.value, d.name.value, d.country.value))
      else None
  }

  /** The outcome of the fallback loop: the answer, and the registries asked in order. */
  datatype Lookup = Lookup(info: Option<WhoisInfo>, asked: seq<string>)

  /**
   The fallback loop of `get_whois_info` over the registries `servers`, with
   `answer(server)` standing for what asking that registry contributes.
   */
  function Resolve(servers: seq<string>, answer: string -> Option<WhoisInfo>): (r: Lookup)
    ensures |r.asked| <= |servers| && r.asked == servers[..|r.asked|]
    ensures forall j :: 0 <= j < |r.asked| - 1 ==> answer(servers[j]).None?
    ensures r.info.Some? ==> |r.asked| > 0 && r.info == answer(r.asked[|r.asked| - 1])
    ensures r.info.None? ==> r.asked == servers && forall j :: 0 <= j < |servers| ==> answer(servers[j]).None?
  {
    if |servers| == 0 then Lookup(None, [])
    else
      var c := answer(servers[0]);
      if c.Some? then Lookup(c, [servers[0]])
      else
        var rest := Resolve(servers[1..], answer);
        assert forall j :: 0 < j < |servers| ==> servers[j] == servers[1..][j - 1];
        Lookup(rest.info, [servers[0]] + rest.asked)
  }

  /**
   `get_whois_info(ip)`, with `query(ip, server)` standing for one WHOIS
   exchange (`None` for a connection or decoding failure).
   */
  function GetWhoisInfo(ip: string, query: (string, string) -> Option<string>): (r: Lookup)
    ensures r.info.Some? <==> exists i :: 0 <= i < |Servers| && Complete(query(ip, Servers[i])).Some?
    ensures r.info.Some? ==> 0 < |r.asked| && r.info == Complete(query(ip, r.asked[|r.asked| - 1]))
  {
    var answer := (server: string) => Complete(query(ip, server));
    var r := Resolve(Servers, answer);
    if r.info.Some? then
      var i := |r.asked| - 1;
      assert r.asked[i] == Servers[i] && answer(Servers[i]).Some?;
      r
    else
      r
  }

  /**
   Registries after the first complete answer are never consulted: two
   oracles that agree up to it give the same lookup.
   */
  lemma {:induction false} ResolveStopsAtFirst(servers: seq<string>, a1: string -> Option<WhoisInfo>,
                                               a2: string -> Option<WhoisInfo>, k: nat)
    requires k < |servers| && a1(servers[k]).Some?
    requires forall j :: 0 <= j <= k ==> a1(servers[j]) == a2(servers[j])
    ensures Resolve(servers, a1) == Resolve(servers, a2)
    ensures |Resolve(servers, a1).asked| <= k + 1
  {
    if a1(servers[0]).None? {
      assert k > 0;
      forall j | 0 <= j <= k - 1 ensures a1(servers[1..][j]) == a2(servers[1..][j]) {
        assert servers[1..][j] == servers[j + 1];
      }
      assert servers[1..][k - 1] == servers[k];
      ResolveStopsAtFirst(servers[1..], a1, a2, k - 1);
    }
  }
}
