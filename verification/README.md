# Access-log statistics and WHOIS enrichment, modelled in Dafny

This project models the logic of a small web service written in Python. The
service counts visits in an Apache-style access log. It also enriches client
addresses with registry (WHOIS) data: the autonomous system, the network name
and the country. The model covers these parts:

- **Access-log aggregation** (`parse_apache_log`). Each line is matched with
  `re.match` against `(\S+) - - \[(.*?)\] "(.*?)" (\d+) (\d+)`, which anchors
  at the start of the line only. The first whitespace-separated token of the
  bracketed date goes through `datetime.strptime(…, '%d/%b/%Y:%H:%M:%S')`.
  Four counters are folded over the lines: per day, per hour of day, per
  client address, and a total. The report lists the day and hour tables in key
  order and the twenty busiest addresses.
- **The line producer**. The request-logging middleware derives the client
  address from `X-Forwarded-For` and writes one log line per request. The
  model proves that the parser reads back the line this producer writes. It
  also proves that appending that line to a log read in text mode adds exactly
  one counted visit, when neither method nor path holds a line break or a
  carriage return.
- **WHOIS extraction and registry fallback** (`parse_whois_response`,
  `get_whois_info`). Each field takes capture group 1 of the first of its
  case-insensitive label patterns that matches anywhere in the text. Five
  registries are asked in a fixed order until one reply yields all three
  fields. The socket exchange is an oracle `query(ip, server)`.
- **The address / WHOIS store** (`SyncOrm.insert_ip_address`,
  `SyncOrm.add_whois_info`). Find-or-create of an address row, and upsert of
  the registry row linked to it. Each call is one transaction that rolls back
  on error. The column widths follow PostgreSQL's `varchar(n)` rule.
- **RIR delegated-statistics fold** (`ripencc-analysis.py`). This sums the
  `value` field per allocation year for Russian ASN records of a statistics
  file in the RIR Statistics Exchange Format.

Modules, leaf first:

- `Wrappers`: `Option` and `Result`.
- `Text`: character classes, `strip`, `split`, digits and string order.
- `Scan`: first index satisfying a condition. It has no file of its own and is
  declared at the end of `text.dfy`.
- `Strptime`: `strptime` with CPython's backtracking alternations for each
  directive, the calendar check, and the `strftime` renderings.
- `AccessLog`: the log-line matcher, the middleware's line, and the client address.
- `Tallies`: `defaultdict(int)` with insertion order.
- `Ranking`: key sort and stable count sort.
- `TextFile`: line iteration with universal newlines.
- `Stats`: `parse_apache_log`.
- `Whois`: extraction and fallback.
- `IpStore`: the two tables.
- `Service`: the middleware and the lookup endpoint.
- `Rir`: the statistics fold.

Behaviours of the code that a reader might not expect, and that the model keeps:

- WHOIS captures are not trimmed: surrounding whitespace inside the capture class stays in the value.
- The `descr:` capture `[\w\s-]+` runs across newlines. For
  `descr: Acme Net\ncountry: DE` the name is `"Acme Net\ncountry"`,
  not `"Acme Net"` (`Whois.DescrRunsOn`).
- Neither `ip_addresses.ip` nor `whois_info.ip_address_id` is unique in the
  schema. "One row per address" and "one info row per address" are therefore
  invariants that the sequential operations maintain (`IpStore.Valid`), not
  constraints.
- The hourly key is the hour alone, collapsed across days.
- The middleware writes the request path unescaped. A path holding `"`
  (`/x%22%201%202` decodes to `/x" 1 2`) is still counted as a visit, but
  the matcher splits that line's request, status and size differently from
  what was written (`AccessLog.QuotedPathShiftsGroups`).
- The path the middleware logs is `request.url.path`, which Starlette takes
  from `urllib.parse.urlsplit`. Since CPython 3.9.5 `urlsplit` deletes every
  tab, carriage return and line feed from the URL before splitting it, so on
  those versions the logged path never holds `\r` or `\n`, even for a request
  that sent `%0D` or `%0A`. The model's `\r`/`\n`-free requirements on the
  path are therefore met by every request the framework delivers there. On
  older Pythons, or for another writer of the log, a `\r` in an entry is
  read back in text mode as a line break, so the entry comes back as two file
  lines, neither of them the line written (`Service.CarriageReturnInPath`).
  A `"` (`%22`) is not removed, which is why the quoting case above applies.
- `int()` refuses a numeral of more than 4300 digits, leading zeros
  included and underscores not (`sys.int_info.default_max_str_digits`, since
  CPython 3.11 and the 3.7.14, 3.8.14, 3.9.14 and 3.10.7 releases). A record
  whose `value` is that long still creates its year's bucket, which stays at 0
  (`Rir.IntOf`, `Rir.EffectOf`).
- A registry value longer than its `whois_info` column is refused, unless
  everything past the column width is spaces. In that case PostgreSQL stores the
  value cut to the width, and the refreshed row returned holds the cut value
  (`IpStore.AddWhoisInfo`).

## Model

| member | source | states |
|---|---|---|
| AccessLog.MatchLineSound | backend/app/main.py:67-78 | the groups the matcher reports are one way the pattern matches a prefix of the line: address non-empty with no whitespace, date and request without newline, status and size non-empty digit runs |
| AccessLog.MatchLineComplete | backend/app/main.py:67-78 | whenever the pattern can match the line at all, the matcher reports a match with the same address group, preferred by the backtracking engine (shortest date, then shortest request, then longest size) |
| AccessLog.MatchLineExact | backend/app/main.py:67-78 | when the date holds no `]`, the request no `"`, and no digit follows the size, the matcher reports exactly that decomposition |
| AccessLog.LeadingSpaceNeverMatches | backend/app/main.py:67-77 | a line starting with whitespace has no `\S+` first group and is never counted |
| AccessLog.LineVisit | backend/app/main.py:76-84 | a counted line was matched, carries the matched address, a ten-character date key and a two-digit hour key; every other line is skipped |
| AccessLog.RequestLineRoundTrip | backend/app/main.py:43 | when the address is non-empty with no whitespace and neither method nor path holds `"` or a newline, the line the middleware writes is matched with that address as group 1, the timestamp plus the empty `%z` as group 2, `METHOD PATH` as group 3, the status as group 4, and size `0` |
| AccessLog.MatchLineDate | backend/app/main.py:67-78 | when the pattern can match a line with a date group free of `]`, the matcher's address and date groups are that match's, whatever the request holds |
| AccessLog.RequestLineHead | backend/app/main.py:43 | for an address non-empty with no whitespace and a method and path without newline, even with `"` in them, the middleware's line is matched with that address and the timestamp plus the empty `%z` as its first two groups |
| AccessLog.RequestLineVisit | backend/app/main.py:43 | for an address non-empty with no whitespace and a method and path without newline, the middleware's line at a valid time is counted as one visit from that address, with the date key and hour key of that time |
| AccessLog.QuotedPathShiftsGroups | backend/app/main.py:43 | for the path `/x" 1 2` the matcher reports request `GET /x`, status `1` and size `2`, not what was written |
| AccessLog.ClientIp | backend/app/main.py:39-41 | without a comma the header value (or the peer host when there is no header) is used unchanged; with a comma the result holds no comma and has no whitespace at either end |
| AccessLog.ClientIpFirstElement | backend/app/main.py:39-41 | with a comma, the value is whitespace + result + whitespace + `,` + rest, so the result is the first comma-separated segment, stripped |
| Text.FirstToken | backend/app/main.py:80 | `date.split()[0]` is the first maximal non-whitespace run, absent (IndexError, line skipped) exactly when the date is all whitespace |
| Text.JoinSplit | ripencc-analysis/ripencc-analysis.py:25 | joining the parts of `split('|')` with `|` gives the text back |
| Strptime.Parse | backend/app/main.py:80 | a parsed timestamp is a real calendar date and time (year 1..9999, day within the month, leap years, hour < 24, minute and second < 60) |
| Strptime.LogFormatRoundTrip | backend/app/main.py:80 | `strptime` of the rendering `%d/%b/%Y:%H:%M:%S` gives the time back when the calendar has it, and fails otherwise (30 February, year 0) |
| Strptime.DateKey | backend/app/main.py:81 | the daily key is `YYYY-MM-DD`, and its digit groups denote the year, month and day |
| Strptime.HourKey | backend/app/main.py:82 | the hourly key is two digits denoting the hour, independent of the date |
| Strptime.YmdRoundTrip | ripencc-analysis/ripencc-analysis.py:34 | `strptime(…, '%Y%m%d')` reads an eight-digit date back, and fails exactly for dates the calendar lacks |
| Tallies.Add | backend/app/main.py:86-89 | `d[k] += n` adds n under k, leaves every other key's value alone, and appends a new key to the insertion order |
| Tallies.TotalAdd | backend/app/main.py:86-89 | `d[k] += n` adds n to the sum of the values |
| Tallies.CountSpec | backend/app/main.py:68-89 | counting a stream gives each key its number of occurrences, has exactly the keys that occur, and orders them by first appearance |
| Tallies.CountTotal | backend/app/main.py:86-89 | counting a stream sums to its length |
| Tallies.CountKeys | backend/app/main.py:98 | the number of keys counted is the number of distinct elements |
| Stats.Step | backend/app/main.py:76-89 | a counted line adds exactly 1 under its day, its hour, its address and to the total, and nothing elsewhere; a skipped line changes nothing |
| Stats.RunIsCount | backend/app/main.py:75-89 | the loop's counters are the counts of the visit stream of the counted lines, and the total is its length |
| Stats.TotalsAgree | backend/app/main.py:86-98 | `total_visits` equals the number of counted lines, the sum of daily counts, the sum of hourly counts, and the sum of per-address counts |
| Stats.AddressCounts | backend/app/main.py:88-98 | each address's count is its number of counted lines, the keys are exactly those addresses, and `unique_ips` is the number of distinct addresses |
| Stats.DayHourCounts | backend/app/main.py:86-87 | each day's and each hour's count is the number of counted lines carrying it |
| Stats.TopAddresses | backend/app/main.py:91-96 | at most twenty addresses, each a key, none twice, counts non-increasing, equal counts in first-seen order |
| Stats.OmittedCountNoLarger | backend/app/main.py:91-96 | an address left out of the twenty has a count no larger than any listed one, and a listed address with an equal count was seen before it |
| Stats.TopItems | backend/app/main.py:91-96 | the `ips` list holds distinct counted addresses with their counts, non-increasing, equal counts in first-seen order, and no address left out outranks a listed one |
| Stats.KeyTable | backend/app/main.py:94-95 | `dict(sorted(d.items()))` lists every key exactly once, in strictly increasing string order, with its count |
| Stats.Build | backend/app/main.py:91-100 | the report's total and unique count come from the counters; the daily and hourly tables list every key once, in strictly increasing order, with its count; the `ips` list is the counter's twenty largest, ranked as `Stats.TopItems` states |
| Stats.ParseApacheLog | backend/app/main.py:66-102 | an unreadable file gives `{'error': message}` and no partial report; a readable one gives a report |
| Stats.ReportOfLog | backend/app/main.py:66-100 | for a readable log: total = counted lines; unique = distinct addresses; every day and hour carries its number of counted lines; days and hours listed are exactly those seen, in strictly increasing order; the address list is `Stats.TopTwenty` of the counted lines' addresses (distinct, with their numbers of occurrences, largest first, ties by first occurrence, nothing omitted that outranks a listed address) |
| Stats.RankingOfLog | backend/app/main.py:88-96 | the report's address list ranks the counted lines' addresses as `Stats.TopTwenty` describes, stated on the visit stream rather than the counter |
| Ranking.FirstSeenPos | backend/app/main.py:88-96 | the counter's key order ranks two addresses as their first occurrences in the stream do |
| Stats.EmptyLog | backend/app/main.py:66-100 | an empty log gives total 0, unique 0, and empty daily, hourly and address tables |
| TextFile.LinesConcat | backend/app/main.py:74-75 | iterating a file's lines loses and adds nothing |
| TextFile.ConcatLines | backend/app/main.py:45-46 | newline-terminated lines appended one after another are split back into the same lines (line splitting alone, before newline translation) |
| TextFile.FileLinesOfConcat | backend/app/main.py:45-46 | newline-terminated lines without carriage returns, appended one after another, are what reading the file in text mode gives back |
| TextFile.FileLinesAppend | backend/app/main.py:45-46 | appending one such line to a file that ends at a line boundary adds exactly that line to what reading the file gives, and the file still ends at a boundary |
| TextFile.TranslateAppend | backend/app/main.py:74-75 | universal newline translation of two pieces is the translation of each, when the first does not end in `\r` |
| TextFile.LinesAppend | backend/app/main.py:75 | text split at a line boundary yields the lines of the first part followed by those of the second |
| TextFile.CarriageReturnSplits | backend/app/main.py:74-75 | a lone `\r` inside a newline-terminated line makes reading in text mode yield two lines, cut at the `\r` |
| Stats.VisitsAppend | backend/app/main.py:75-89 | the visits counted from lines followed by more lines are those of the first lines followed by those of the rest |
| Stats.VisitsOne | backend/app/main.py:76-84 | a single line yields its visit, or nothing when it is skipped |
| AccessLog.RequestLineShape | backend/app/main.py:43 | for an address with no whitespace and a method and path without `\n` or `\r`, the middleware's entry is one newline-terminated line holding no other line break and no carriage return |
| Whois.Search | backend/app/main.py:164 | `pattern.search` reports a position where the label matches case-insensitively, followed by whitespace and a non-empty run of the capture class |
| Whois.SearchLeftmostGreedy | backend/app/main.py:149-172 | any way the pattern can match is found, no later than its position, and with the greedy `\s*` and capture at least as long at the same position |
| Whois.GroupPresent | backend/app/main.py:163-179 | a pattern yields a group exactly when it can match somewhere in the text |
| Whois.FirstGroupFirst | backend/app/main.py:163-179 | a field is the group of the earliest pattern of its list that matches, and is None exactly when none matches |
| Whois.FieldAbsentIffNoMatch | backend/app/main.py:163-179 | a field is None exactly when no pattern of its list can match anywhere |
| Whois.ParseWhoisResponse | backend/app/main.py:141-181 | captures are non-empty and within their class: `[\w-]` for ASN and country, `[\w\s-]` for the name |
| Whois.RedundantPatterns | backend/app/main.py:153-161 | under IGNORECASE the second name pattern and the second country pattern never change the result |
| Whois.GroupGivesBack | backend/app/main.py:156 | after `descr:` followed only by whitespace, `[\w\s-]+` still matches by taking back the last whitespace character |
| Whois.DescrRunsOn | backend/app/main.py:156 | the `descr:` capture crosses a newline into the next label and stops at `:` |
| Whois.Complete | backend/app/main.py:193-197 | a reply counts exactly when it is present and non-empty and all three extracted fields are present and non-empty |
| Whois.Resolve | backend/app/main.py:183-201 | with each registry's contribution as a function `answer(server)`, registries are asked in list order, at most one query each; none after the first complete reply, which is returned; the result is None exactly when every registry's reply is incomplete or missing |
| Whois.GetWhoisInfo | backend/app/main.py:183-201 | there is an answer exactly when some one of the five registries gives a complete reply, and it is the complete reply of the last registry asked |
| Whois.ResolveStopsAtFirst | backend/app/main.py:192-197 | what registries after the first complete reply would answer cannot change the outcome, and at most k+1 are asked |
| IpStore.OneOrNone | backend/app/src/queries/orm.py:27-29 | `scalar_one_or_none` gives no row, the single row, or an error for several |
| IpStore.InsertIpAddress | backend/app/src/queries/orm.py:17-48 | a returned row carries the address; on error nothing changes; the info table is untouched; at most one row is appended |
| IpStore.InsertIpAddressSpec | backend/app/src/queries/orm.py:27-40 | a stored address is returned with nothing created; otherwise exactly one row with that address is created (rolled back if too wide for its column); the store stays valid |
| IpStore.InsertIpAddressIdempotent | backend/app/src/queries/orm.py:27-40 | a second call returns the first call's row and changes nothing |
| IpStore.Cut | backend/app/src/models.py:18-20 | what a `varchar(n)` column keeps of a value is a prefix of it at most `n` long, and is the whole value exactly when that fits |
| IpStore.CutDropsSpaces | backend/app/src/models.py:18-20 | a column accepts a value exactly when all it drops of it is spaces |
| IpStore.AddWhoisInfo | backend/app/src/queries/orm.py:51-108 | a returned row is the refreshed stored row: its values are accepted by their columns and it holds what the columns keep of them; it is linked to the address's id; on error or an unknown address nothing changes; the address table is never modified |
| IpStore.AddWhoisInfoSpec | backend/app/src/queries/orm.py:69-100 | an unknown address gives None and no change; a row is saved exactly for a known address with values its columns accept (each fits, or is longer only by spaces); that address then has exactly one info row; one is added only if none existed; the store stays valid |
| IpStore.AddWhoisInfoKnown | backend/app/src/queries/orm.py:78-97 | for a stored address and accepted values, the address ends with exactly one info row holding what the columns keep of them |
| IpStore.AddWhoisInfoLocal | backend/app/src/queries/orm.py:78-95 | the address table and every other address's info rows are left unchanged |
| IpStore.AddWhoisInfoTwice | backend/app/src/queries/orm.py:78-98 | upserting twice leaves the same store as upserting the second values once: the last write wins, with no duplicate row |
| Service.WhoisLookup | backend/app/main.py:203-218 | an empty address is refused with nothing asked; no complete reply gives not-found and no change; an answer is returned and upserted, with the address table untouched |
| Service.LookupUnknownIp | backend/app/main.py:208-215 | an address the store never saw is answered but nothing is stored |
| Service.LookupStoresAnswer | backend/app/main.py:208-216 | for a known address, an answer its columns accept ends up, as the columns keep it, as its only info row |
| Service.LogRequest | backend/app/main.py:39-58 | the middleware writes the line for the derived address, asks the registries for that address, and stores nothing beyond the address row when there is no answer |
| Service.LogRequestStores | backend/app/main.py:49-58 | after the middleware the store is valid, the client's address is stored, and a complete answer its columns accept is, as they keep it, that address's only info row |
| Service.LogRequestCounted | backend/app/main.py:39-43 | when the derived address is non-empty with no whitespace and neither method nor path holds a newline, the line the middleware writes, taken as one line, is counted by the statistics as one visit from that address at that time |
| Service.LogRequestAppended | backend/app/main.py:39-46 | when moreover neither method nor path holds a carriage return, appending the middleware's line to a log ending at a line boundary adds exactly that line to what reading the file gives, and exactly one visit, from that address at that time, to what the statistics count |
| Service.RequestLineAppended | backend/app/main.py:43-46 | the same for the line written from a given address: one more file line and one more counted visit |
| Service.CarriageReturnInPath | backend/app/main.py:43-46 | a `\r` in the path makes reading the log yield two lines, the entry cut at the `\r`, instead of the line written |
| Rir.Classify | ripencc-analysis/ripencc-analysis.py:22-29 | `#` lines are comments; fewer than seven `|` fields are short; more than seven fail to unpack; seven fields, joined back, give the stripped line |
| Rir.EffectOf | ripencc-analysis/ripencc-analysis.py:22-39 | a line adds only for a selected record (asn, RU, allocated or assigned) with a readable `%Y%m%d` date, under that date's year; a count `int()` refuses (not a numeral, or more than 4300 digits) adds 0; too many fields stop the run |
| Rir.IntOf | ripencc-analysis/ripencc-analysis.py:34-35 | `int()` succeeds exactly on text that, once stripped, is an optionally signed numeral (digits with single underscores between them) of at most 4300 digits |
| Rir.IntOfPadded | ripencc-analysis/ripencc-analysis.py:34-35 | whitespace around, an optional sign, and a numeral within the digit limit give the numeral's digits read as a decimal number, negated under `-` |
| Rir.IntOfUnderscores | ripencc-analysis/ripencc-analysis.py:34-35 | a numeral and its digits without the underscores give the same result, value and digit limit alike |
| Rir.IntOfLeadingZero | ripencc-analysis/ripencc-analysis.py:34-35 | a leading zero leaves the value unchanged, except that it counts toward the limit: at 4300 digits already, `int()` refuses |
| Rir.IntOfDecimal | ripencc-analysis/ripencc-analysis.py:34-35 | `int(str(n))` gives n back when `str(n)` has at most 4300 digits, and refuses it otherwise |
| Rir.IntOfNegative | ripencc-analysis/ripencc-analysis.py:34-35 | `int('-' + str(n))` gives -n when `str(n)` has at most 4300 digits, and refuses it otherwise |
| Rir.Step | ripencc-analysis/ripencc-analysis.py:35-36 | a counted record adds its amount to its year's bucket and to the total, and nothing elsewhere; total and bucket sum move together |
| Rir.Run | ripencc-analysis/ripencc-analysis.py:21-39 | after the loop, `total_ru_asns` equals the sum of `yearly_asns` values |
| Rir.RunStops | ripencc-analysis/ripencc-analysis.py:26-29 | the run aborts exactly when some line has more than seven fields |
| Rir.CommentIgnored | ripencc-analysis/ripencc-analysis.py:22-23 | a `#` line contributes nothing |
| Rir.ShortIgnored | ripencc-analysis/ripencc-analysis.py:25-27 | a line with fewer than seven fields contributes nothing |
| Rir.UnselectedIgnored | ripencc-analysis/ripencc-analysis.py:32 | a record that is not an allocated or assigned RU ASN contributes nothing |
| Rir.RunSnoc | ripencc-analysis/ripencc-analysis.py:21-39 | one more line: an earlier abort stays, otherwise that line's effect is applied to the totals |
| Rir.RunSums | ripencc-analysis/ripencc-analysis.py:21-39 | each year's bucket sums what was contributed to it; the buckets are exactly the contributed years; the total sums every contribution |

## Left out

- The socket exchange `whois_query` (backend/app/main.py:125-139), that is, the WHOIS protocol of RFC 3912, section 2. It becomes the oracle `query(ip, server)`. A connection, timeout or UTF-8 decoding failure is the oracle's `None`.
- The FastAPI application, CORS, the upload endpoint, templates and the server entry point. These are framework plumbing.
- Appending the line to the log file, the `print` diagnostics, and the middleware's `try`/`except`. The model gives the appended line as a value. The called operations already catch their own errors, so the handler never changes the outcome.
- `datetime.now()`. It is the `now` parameter of `Service.LogRequest` and `Stats.ParseApacheLog`.
- The response timing and the missing-`request.client` case in the middleware.
- SQLAlchemy engine, sessions, `create_tables` and the schema. The store is two row sequences with id counters. The database's behaviour is assumed to be PostgreSQL's. By section 8.3 of the PostgreSQL manual (Character Types), a value longer than its `String(n)` column raises and rolls back, unless its excess characters are all spaces; the column then keeps the value cut to `n` characters. `scalar_one_or_none` raises on several rows. Sequence tables stand in for the two maps so that row order, ids and duplicates stay visible.
- IpStore.InsertIpAddress: an address longer than 45 characters always rolls back in the model. PostgreSQL would store an address whose excess is all spaces cut to 45 characters. The lookup compares the uncut address, so each later call would then add another row, breaking "one row per address". The model does not follow this case. The middleware's address can only end in spaces when an `X-Forwarded-For` value without a comma arrives unstripped.
- Concurrent requests racing on the store. Without unique columns, two racing find-or-creates could insert duplicates; the model is sequential.
- `frontend/progress.js`. It is browser code.
- The download and plotting in ripencc-analysis/ripencc-analysis.py:7-15 and 41-60. These are network and plotting calls.
- Unicode detail. `\w` and `\d` are ASCII only. `\s`, `split()` and `strip()` use the whitespace of `str.isspace()`. `re.IGNORECASE` folds ASCII letters only; Python also folds a few non-ASCII letters, such as the Kelvin sign and long s. `int()` takes ASCII digits only. `%b` uses the C locale's month names.
- Rir.IntOf: it follows the Pythons that limit `int()` to 4300 digits. On an older Python, or with the limit changed by `sys.set_int_max_str_digits` or `PYTHONINTMAXSTRDIGITS`, a longer numeral is read as its value, which the model does not give.
- Reading a log file as a whole. `Stats.ParseApacheLog` takes the file's content or the error message from opening or decoding it. A decoding error part-way through the file is folded into that error.
- AccessLog.RequestLineVisit, AccessLog.RequestLineHead and Service.LogRequestCounted: they do not cover a method or path holding a newline. HTTP methods are tokens and cannot hold one, and since CPython 3.9.5 `urlsplit` removes `\n` from the path (see above). So the excluded case arises only on older Pythons or for lines not written by the middleware. There the entry spans two file lines, and what those lines count as is not stated.
- Service.LogRequestCounted: it is about the written string taken as one line. What reading the file gives is `Service.LogRequestAppended`, which also needs a method and path without a carriage return. Since CPython 3.9.5 `urlsplit` removes `\r` from the path, so every request the framework delivers meets that need. On older Pythons a `%0D` decodes to a carriage return, and reading in text mode then cuts the entry in two (`Service.CarriageReturnInPath`). What the two pieces count as is not stated.
- AccessLog.RequestLineRoundTrip: it needs a method and path without `"`. With one, the groups shift (`AccessLog.QuotedPathShiftsGroups`), and only the address, date and visit are promised (`AccessLog.RequestLineVisit`).
- Service.LogRequestCounted: an empty or whitespace-holding derived address (an empty or odd `X-Forwarded-For` value) is not covered. An empty address gives a line starting with a space, which is never counted (`AccessLog.LeadingSpaceNeverMatches`); other such addresses are not stated.
- Strptime.DateKey: the year is always written with four digits. `strftime('%Y')` follows the platform's C library, and on some platforms CPython writes a year below 1000 without leading zeros. The model follows the padded form.
- Stats.Build: the report's `last_updated` string is rendered (`Strptime.Stamp`), but no contract states its layout. It depends only on the clock parameter.

