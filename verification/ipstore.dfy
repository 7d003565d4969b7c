/**
 The two tables behind the WHOIS cache, `ip_addresses` and `whois_info`, and
 the two operations on them: find-or-create of an address, and upsert of the
 registry data linked to an address. Every operation is one transaction: on
 any error it rolls back, leaves the tables as they were and yields `None`.
 */
module IpStore {
  import opened Wrappers

  /** Column widths of the schema: `String(45)`, `String(50)`, `String(255)`, `String(2)`. */
  const IpWidth: nat := 45
  const AsnWidth: nat := 50
  const NameWidth: nat := 255
  const CountryWidth: nat := 2

  /** A row of `ip_addresses`. */
  datatype IpRow = IpRow(id: nat, ip: string)

  /** A row of `whois_info`; `ipId` refers to an `ip_addresses` row. */
  datatype InfoRow = InfoRow(id: nat, ipId: nat, asn: string, name: string, country: string)

  /**
   Both tables in row order, and the next value of each table's id sequence.
   Neither `ip` nor `ip_address_id` carries a uniqueness constraint.
   */
  datatype Store = Store(ips: seq<IpRow>, infos: seq<InfoRow>, nextIp: nat, nextInfo: nat)

  /** An operation's new state and what it returned. */
  datatype Saved<T> = Saved(store: Store, row: Option<T>)

  const EmptyStore := Store([], [], 1, 1)

  // ------------------------------------------------------------ queries

  /** `select(IPAddress).where(IPAddress.ip == ip)` */
  function WithIp(ips: seq<IpRow>, ip: string): (r: seq<IpRow>)
    ensures forall k :: 0 <= k < |r| ==> r[k] in ips && r[k].ip == ip
    ensures forall row :: row in ips && row.ip == ip ==> row in r
  {
    if |ips| == 0 then []
    else
      var rest := WithIp(ips[1..], ip);
      assert forall row :: row in ips ==> row == ips[0] || row in ips[1..];
      if ips[0].ip == ip then [ips[0]] + rest else rest
  }

  /** `select(WhoisInfo).where(WhoisInfo.ip_address_id == id)` */
  function WithIpId(infos: seq<InfoRow>, id: nat): (r: seq<InfoRow>)
    ensures forall k :: 0 <= k < |r| ==> r[k] in infos && r[k].ipId == id
    ensures forall row :: row in infos && row.ipId == id ==> row in r
  {
    if |infos| == 0 then []
    else
      var rest := WithIpId(infos[1..], id);
      assert forall row :: row in infos ==> row == infos[0] || row in infos[1..];
      if infos[0].ipId == id then [infos[0]] + rest else rest
  }

  /** `scalar_one_or_none()`: no row, the one row, or an error for several. */
  function OneOrNone<T>(rows: seq<T>): (r: Result<Option<T>>)
    ensures r.Ok? <==> |rows| <= 1
    ensures r.Ok? && r.value.Some? <==> |rows| == 1
    ensures r.Ok? && r.value.Some? ==> r.value.value == rows[0]
  {
    if |rows| == 0 then Ok(None)
    else if |rows| == 1 then Ok(Some(rows[0]))
    else Err("Multiple rows were found when one or none was required")
  }

  // ------------------------------------------------------------ invariant

  /**
   What the operations maintain when applied one after another: ids are
   unique and below the sequence's next value, every address is stored at
   most once, every info row refers to a stored address, each address has
   at most one info row, and every value fits its column.
   */
  predicate Valid(s: Store) {
    IpsValid(s.ips, s.nextIp) && InfosValid(s.infos, s.nextInfo) && Linked(s.ips, s.infos)
  }

  predicate IpsValid(ips: seq<IpRow>, next: nat) {
    && (forall i, j :: 0 <= i < j < |ips| ==> ips[i].id != ips[j].id && ips[i].ip != ips[j].ip)
    && (forall i :: 0 <= i < |ips| ==> ips[i].id < next && |ips[i].ip| <= IpWidth)
  }

  predicate InfosValid(infos: seq<InfoRow>, next: nat) {
    && (forall i, j :: 0 <= i < j < |infos| ==> infos[i].id != infos[j].id && infos[i].ipId != infos[j].ipId)
    && (forall i :: 0 <= i < |infos| ==> infos[i].id < next && Fits(infos[i]))
  }

  /** Some address row has id `id`. */
  predicate HasId(ips: seq<IpRow>, id: nat) {
    exists j :: 0 <= j < |ips| && ips[j].id == id
  }

  predicate Linked(ips: seq<IpRow>, infos: seq<InfoRow>) {
    forall i :: 0 <= i < |infos| ==> HasId(ips, infos[i].ipId)
  }

  /** The registry values fit `String(50)`, `String(255)` and `String(2)`. */
  predicate Fits(w: InfoRow) {
    |w.asn| <= AsnWidth && |w.name| <= NameWidth && |w.country| <= CountryWidth
  }

  // ------------------------------------------------------------ varchar(n)

  /**
   Section 8.3 of the PostgreSQL manual (Character Types): a string longer
   than `n` is refused by a `varchar(n)` column unless every character past
   the `n`th is a space.
   */
  predicate Assignable(v: string, n: nat) {
    |v| <= n || forall i :: n <= i < |v| ==> v[i] == ' '
  }

  /** What a `varchar(n)` column keeps of a value it accepts: at most its first `n` characters. */
  function Cut(v: string, n: nat): (r: string)
    ensures |r| <= n && |r| <= |v| && r == v[..|r|]
    ensures r == v <==> |v| <= n
  {
    if |v| <= n then v else v[..n]
  }

  /** A value is accepted exactly when all that the column drops of it is spaces. */
  lemma CutDropsSpaces(v: string, n: nat)
    ensures Assignable(v, n) <==> forall i :: |Cut(v, n)| <= i < |v| ==> v[i] == ' '
    ensures |v| > n ==> |Cut(v, n)| == n
  {
  }

  /** The registry values are accepted by `String(50)`, `String(255)` and `String(2)`. */
  predicate Accepted(asn: string, name: string, country: string) {
    Assignable(asn, AsnWidth) && Assignable(name, NameWidth) && Assignable(country, CountryWidth)
  }

  /** The info row holds what the columns keep of the given values. */
  predicate HoldsValues(w: InfoRow, asn: string, name: string, country: string) {
    w.asn == Cut(asn, AsnWidth) && w.name == Cut(name, NameWidth) && w.country == Cut(country, CountryWidth)
  }

  /** The row the upsert writes from an existing or new row `w`. */
  function WithValues(w: InfoRow, asn: string, name: string, country: string): (r: InfoRow)
    ensures r.id == w.id && r.ipId == w.ipId && Fits(r) && HoldsValues(r, asn, name, country)
  {
    w.(asn := Cut(asn, AsnWidth), name := Cut(name, NameWidth), country := Cut(country, CountryWidth))
  }

  lemma EmptyValid()
    ensures Valid(EmptyStore) && |EmptyStore.ips| == 0 && |EmptyStore.infos| == 0
  {
  }

  /** With every address stored once, the address query has at most one row. */
  lemma {:induction false} UniqueIp(ips: seq<IpRow>, ip: string)
    requires forall i, j :: 0 <= i < j < |ips| ==> ips[i].ip != ips[j].ip
    ensures |WithIp(ips, ip)| <= 1
    ensures |WithIp(ips, ip)| == 1 <==> exists k :: 0 <= k < |ips| && ips[k].ip == ip
  {
    if |ips| > 0 {
      UniqueIp(ips[1..], ip);
      if ips[0].ip == ip {
        assert forall k :: 0 <= k < |ips[1..]| ==> ips[1..][k] == ips[k + 1];
        assert |WithIp(ips[1..], ip)| == 0;
      } else {
        assert forall k :: 0 < k < |ips| ==> ips[k] == ips[1..][k - 1];
      }
    }
  }

  /** With one info row per address, the info query has at most one row. */
  lemma {:induction false} UniqueIpId(infos: seq<InfoRow>, id: nat)
    requires forall i, j :: 0 <= i < j < |infos| ==> infos[i].ipId != infos[j].ipId
    ensures |WithIpId(infos, id)| <= 1
    ensures |WithIpId(infos, id)| == 1 <==> exists k :: 0 <= k < |infos| && infos[k].ipId == id
  {
    if |infos| > 0 {
      UniqueIpId(infos[1..], id);
      if infos[0].ipId == id {
        assert forall k :: 0 <= k < |infos[1..]| ==> infos[1..][k] == infos[k + 1];
        assert |WithIpId(infos[1..], id)| == 0;
      } else {
        assert forall k :: 0 < k < |infos| ==> infos[k] == infos[1..][k - 1];
      }
    }
  }

  // ------------------------------------------------------------ insert_ip_address

  /**
   `insert_ip_address(ip)`: the stored row when there is one, otherwise a new
   row appended; an address wider than the column, or a query that finds
   several rows, rolls back and yields `None`.
   */
  function InsertIpAddress(s: Store, ip: string): (r: Saved<IpRow>)
    ensures r.row.Some? ==> r.row.value.ip == ip && r.row.value in r.store.ips
    ensures r.row.None? ==> r.store == s
    ensures r.store.infos == s.infos && r.store.nextInfo == s.nextInfo
    ensures r.store.ips == s.ips || (r.store.ips == s.ips + [IpRow(s.nextIp, ip)] && |ip| <= IpWidth)
  {
    match OneOrNone(WithIp(s.ips, ip))
    case Err(_) => Saved(s, None)
    case Ok(Some(existing)) => Saved(s, Some(existing))
    case Ok(None) =>
      if |ip| > IpWidth then Saved(s, None)
      else
        var row := IpRow(s.nextIp, ip);
        Saved(s.(ips := s.ips + [row], nextIp := s.nextIp + 1), Some(row))
  }

  /**
   On a valid store: a stored address is returned as it is and nothing is
   created; otherwise exactly one row with that address is created, unless
   the address is too wide; and the store stays valid.
   */
  lemma InsertIpAddressSpec(s: Store, ip: string)
    requires Valid(s)
    ensures var r := InsertIpAddress(s, ip);
            && Valid(r.store)
            && ((exists k :: 0 <= k < |s.ips| && s.ips[k].ip == ip)
                ==> r.store == s && r.row.Some? && r.row.value in s.ips)
            && ((forall k :: 0 <= k < |s.ips| ==> s.ips[k].ip != ip)
                ==> if |ip| <= IpWidth
                    then r.row == Some(IpRow(s.nextIp, ip)) && r.store.ips == s.ips + [IpRow(s.nextIp, ip)]
                    else r.row.None? && r.store == s)
  {
    UniqueIp(s.ips, ip);
    var r := InsertIpAddress(s, ip);
    if r.store != s {
      var t := r.store;
      assert t.ips == s.ips + [IpRow(s.nextIp, ip)];
      assert forall k :: 0 <= k < |s.ips| ==> s.ips[k].ip != ip;
      forall i | 0 <= i < |t.infos| ensures HasId(t.ips, t.infos[i].ipId) {
        var j :| 0 <= j < |s.ips| && s.ips[j].id == s.infos[i].ipId;
        assert t.ips[j] == s.ips[j];
      }
    }
  }

  /** Asking twice is asking once: the second call finds the first call's row and changes nothing. */
  lemma InsertIpAddressIdempotent(s: Store, ip: string)
    requires Valid(s)
    ensures var once := InsertIpAddress(s, ip);
            InsertIpAddress(once.store, ip) == once
  {
    InsertIpAddressSpec(s, ip);
    var once := InsertIpAddress(s, ip);
    UniqueIp(once.store.ips, ip);
    if once.row.Some? {
      var k :| 0 <= k < |once.store.ips| && once.store.ips[k] == once.row.value;
      assert WithIp(once.store.ips, ip) == [once.row.value];
    } else {
      assert |ip| > IpWidth;
      assert forall k :: 0 <= k < |s.ips| ==> s.ips[k].ip != ip;
    }
  }

  // ------------------------------------------------------------ add_whois_info

  /** `s.infos` with the row at index `k` replaced. */
  function Replace(infos: seq<InfoRow>, k: nat, w: InfoRow): (r: seq<InfoRow>)
    requires k < |infos|
    ensures |r| == |infos| && r[k] == w
    ensures forall i :: 0 <= i < |infos| && i != k ==> r[i] == infos[i]
  {
    infos[k := w]
  }

  /** Index of the first info row for the address id. */
  function IndexOfIpId(infos: seq<InfoRow>, id: nat): (k: nat)
    requires exists i :: 0 <= i < |infos| && infos[i].ipId == id
    ensures k < |infos| && infos[k].ipId == id
    ensures forall i :: 0 <= i < k ==> infos[i].ipId != id
  {
    if infos[0].ipId == id then 0
    else
      assert exists i :: 0 <= i < |infos[1..]| && infos[1..][i].ipId == id by {
        var i :| 0 <= i < |infos| && infos[i].ipId == id;
        assert infos[1..][i - 1] == infos[i];
      }
      1 + IndexOfIpId(infos[1..], id)
  }

  /**
   `add_whois_info(ip, asn, name, country)`: nothing for an unknown address;
   otherwise the address's info row is overwritten, or a new one linked to
   the address is appended, holding what the columns keep of the values, and
   the refreshed row is returned. A value its column refuses, or a query that
   finds several rows, rolls back and yields `None`.
   */
  function AddWhoisInfo(s: Store, ip: string, asn: string, name: string, country: string): (r: Saved<InfoRow>)
    ensures r.row.None? ==> r.store == s
    ensures r.row.Some? ==> r.row.value in r.store.infos && Fits(r.row.value)
    ensures r.row.Some? ==> Accepted(asn, name, country) && HoldsValues(r.row.value, asn, name, country)
    ensures r.row.Some? ==> exists k :: 0 <= k < |s.ips| && s.ips[k].ip == ip && s.ips[k].id == r.row.value.ipId
    ensures r.store.ips == s.ips && r.store.nextIp == s.nextIp
  {
    match OneOrNone(WithIp(s.ips, ip))
    case Err(_) => Saved(s, None)
    case Ok(None) => Saved(s, None)
    case Ok(Some(address)) =>
      assert address in WithIp(s.ips, ip);
      match OneOrNone(WithIpId(s.infos, address.id))
      case Err(_) => Saved(s, None)
      case Ok(Some(existing)) =>
        if !Accepted(asn, name, country) then Saved(s, None)
        else
          var w := WithValues(existing, asn, name, country);
          assert existing in WithIpId(s.infos, address.id);
          var k := IndexOfIpId(s.infos, address.id);
          Saved(s.(infos := Replace(s.infos, k, w)), Some(w))
      case Ok(None) =>
        if !Accepted(asn, name, country) then Saved(s, None)
        else
          var w := WithValues(InfoRow(s.nextInfo, address.id, "", "", ""), asn, name, country);
          Saved(s.(infos := s.infos + [w], nextInfo := s.nextInfo + 1), Some(w))
  }

  /** The info rows of the address with id `id`. */
  function InfosOf(s: Store, id: nat): seq<InfoRow> {
    WithIpId(s.infos, id)
  }

  /**
   On a valid store: an unknown address changes nothing; a known one ends up
   with exactly one info row holding the new values, cut to their columns,
   when the columns accept them (the existing row overwritten in place, or
   one new row), and no change when they do not; the store stays valid.
   */
  lemma AddWhoisInfoSpec(s: Store, ip: string, asn: string, name: string, country: string)
    requires Valid(s)
    ensures var r := AddWhoisInfo(s, ip, asn, name, country);
            && Valid(r.store)
            && ((forall k :: 0 <= k < |s.ips| ==> s.ips[k].ip != ip) ==> r.row.None? && r.store == s)
            && (r.row.Some? <==> (exists k :: 0 <= k < |s.ips| && s.ips[k].ip == ip)
                                 && Accepted(asn, name, country))
            && (r.row.Some? ==> InfosOf(r.store, r.row.value.ipId) == [r.row.value])
            && (r.row.Some? ==> |r.store.infos| == |s.infos| + (if |InfosOf(s, r.row.value.ipId)| == 0 then 1 else 0))
  {
    UniqueIp(s.ips, ip);
    var r := AddWhoisInfo(s, ip, asn, name, country);
    if exists k :: 0 <= k < |s.ips| && s.ips[k].ip == ip {
      var a := WithIp(s.ips, ip)[0];
      UniqueIpId(s.infos, a.id);
      if r.row.Some? {
        AddValid(s, ip, asn, name, country, a);
      }
    }
  }

  /**
   For a stored address `ips[k]` and values its columns accept, the address
   ends up with exactly one info row, holding what the columns keep of them.
   */
  lemma AddWhoisInfoKnown(s: Store, ip: string, asn: string, name: string, country: string, k: nat)
    requires Valid(s) && k < |s.ips| && s.ips[k].ip == ip
    ensures var t := AddWhoisInfo(s, ip, asn, name, country).store;
            && Valid(t)
            && (Accepted(asn, name, country)
                ==> var rows := InfosOf(t, s.ips[k].id);
                    |rows| == 1 && HoldsValues(rows[0], asn, name, country))
  {
    AddWhoisInfoSpec(s, ip, asn, name, country);
    var r := AddWhoisInfo(s, ip, asn, name, country);
    if r.row.Some? {
      var j :| 0 <= j < |s.ips| && s.ips[j].ip == ip && s.ips[j].id == r.row.value.ipId;
      assert j == k;
    }
  }

  /** The cases of `AddWhoisInfoSpec` where something is written, for the address row `a`. */
  lemma AddValid(s: Store, ip: string, asn: string, name: string, country: string, a: IpRow)
    requires Valid(s) && WithIp(s.ips, ip) == [a]
    requires AddWhoisInfo(s, ip, asn, name, country).row.Some?
    ensures var r := AddWhoisInfo(s, ip, asn, name, country);
            && Valid(r.store)
            && InfosOf(r.store, a.id) == [r.row.value]
            && |r.store.infos| == |s.infos| + (if |InfosOf(s, a.id)| == 0 then 1 else 0)
  {
    UniqueIpId(s.infos, a.id);
    assert a in s.ips;
    var w := AddWhoisInfo(s, ip, asn, name, country).row.value;
    if |InfosOf(s, a.id)| == 1 {
      ReplaceValid(s, IndexOfIpId(s.infos, a.id), w);
    } else {
      var j :| 0 <= j < |s.ips| && s.ips[j] == a;
      AppendValid(s, w);
    }
  }

  /** Overwriting the values of an info row in place keeps the store valid. */
  lemma ReplaceValid(s: Store, k: nat, w: InfoRow)
    requires Valid(s) && k < |s.infos| && Fits(w)
    requires w.id == s.infos[k].id && w.ipId == s.infos[k].ipId
    ensures Valid(s.(infos := Replace(s.infos, k, w)))
    ensures InfosOf(s.(infos := Replace(s.infos, k, w)), w.ipId) == [w]
  {
    var t := s.(infos := Replace(s.infos, k, w));
    forall i | 0 <= i < |t.infos| ensures HasId(t.ips, t.infos[i].ipId) {
      assert t.infos[i].ipId == s.infos[i].ipId;
    }
    UniqueIpId(t.infos, w.ipId);
    assert t.infos[k] == w;
  }

  /** Appending the first info row of a stored address keeps the store valid. */
  lemma AppendValid(s: Store, w: InfoRow)
    requires Valid(s) && Fits(w) && w.id == s.nextInfo
    requires forall i :: 0 <= i < |s.infos| ==> s.infos[i].ipId != w.ipId
    requires HasId(s.ips, w.ipId)
    ensures Valid(s.(infos := s.infos + [w], nextInfo := s.nextInfo + 1))
    ensures InfosOf(s.(infos := s.infos + [w], nextInfo := s.nextInfo + 1), w.ipId) == [w]
  {
    var t := s.(infos := s.infos + [w], nextInfo := s.nextInfo + 1);
    var n := |s.infos|;
    assert t.infos[n] == w;
    forall i | 0 <= i < n ensures t.infos[i] == s.infos[i] && t.infos[i].id < w.id && t.infos[i].ipId != w.ipId {
    }
    assert InfosValid(t.infos, t.nextInfo);
    assert Linked(t.ips, t.infos);
    UniqueIpId(t.infos, w.ipId);
  }

  /** The address table and the info rows of every other address are left alone. */
  lemma AddWhoisInfoLocal(s: Store, ip: string, asn: string, name: string, country: string, other: nat)
    requires Valid(s)
    requires forall k :: 0 <= k < |s.ips| && s.ips[k].id == other ==> s.ips[k].ip != ip
    ensures var r := AddWhoisInfo(s, ip, asn, name, country);
            r.store.ips == s.ips && InfosOf(r.store, other) == InfosOf(s, other)
  {
    var r := AddWhoisInfo(s, ip, asn, name, country);
    if r.row.Some? {
      UniqueIp(s.ips, ip);
      var a := WithIp(s.ips, ip)[0];
      assert a.id != other;
      WithIpIdOther(s.infos, r.store.infos, a.id, other);
    }
  }

  /** Changing or adding rows of address `id` leaves the rows of `other` where they were. */
  lemma {:induction false} WithIpIdOther(before: seq<InfoRow>, after: seq<InfoRow>, id: nat, other: nat)
    requires id != other
    requires |before| <= |after| <= |before| + 1
    requires forall i :: 0 <= i < |before| && before[i] != after[i] ==> before[i].ipId == id && after[i].ipId == id
    requires |after| > |before| ==> after[|before|].ipId == id
    ensures WithIpId(after, other) == WithIpId(before, other)
  {
    if |before| == 0 {
      if |after| == 1 {
        assert WithIpId(after[1..], other) == [];
      }
    } else {
      WithIpIdOther(before[1..], after[1..], id, other);
    }
  }

  /** Upserting for an address that has an info row at index `k` overwrites it there. */
  lemma AddUpdates(s: Store, ip: string, asn: string, name: string, country: string, a: IpRow, k: nat)
    requires WithIp(s.ips, ip) == [a] && k < |s.infos| && WithIpId(s.infos, a.id) == [s.infos[k]]
    requires forall i :: 0 <= i < k ==> s.infos[i].ipId != a.id
    requires Accepted(asn, name, country)
    ensures var w := WithValues(s.infos[k], asn, name, country);
            AddWhoisInfo(s, ip, asn, name, country) == Saved(s.(infos := s.infos[k := w]), Some(w))
  {
    assert WithIpId(s.infos, a.id)[0].ipId == a.id;
    assert IndexOfIpId(s.infos, a.id) == k;
  }

  /** Upserting for an address without an info row appends one with the next id. */
  lemma AddAppends(s: Store, ip: string, asn: string, name: string, country: string, a: IpRow)
    requires WithIp(s.ips, ip) == [a] && WithIpId(s.infos, a.id) == []
    requires Accepted(asn, name, country)
    ensures var w := WithValues(InfoRow(s.nextInfo, a.id, "", "", ""), asn, name, country);
            AddWhoisInfo(s, ip, asn, name, country)
            == Saved(s.(infos := s.infos + [w], nextInfo := s.nextInfo + 1), Some(w))
  {
  }

  /** On distinct address ids, the one info row found is the one at the first index. */
  lemma OnlyRow(infos: seq<InfoRow>, id: nat)
    requires forall i, j :: 0 <= i < j < |infos| ==> infos[i].ipId != infos[j].ipId
    requires |WithIpId(infos, id)| == 1
    ensures exists i :: 0 <= i < |infos| && infos[i].ipId == id
    ensures WithIpId(infos, id) == [infos[IndexOfIpId(infos, id)]]
    ensures forall i :: 0 <= i < IndexOfIpId(infos, id) ==> infos[i].ipId != id
  {
    var r := WithIpId(infos, id);
    var j :| 0 <= j < |infos| && infos[j] == r[0];
    assert IndexOfIpId(infos, id) == j;
  }

  /** The last write wins: upserting twice leaves the store as upserting the second values once. */
  lemma AddWhoisInfoTwice(s: Store, ip: string, a1: string, n1: string, c1: string,
                          a2: string, n2: string, c2: string)
    requires Valid(s)
    requires Accepted(a2, n2, c2)
    ensures AddWhoisInfo(AddWhoisInfo(s, ip, a1, n1, c1).store, ip, a2, n2, c2).store
            == AddWhoisInfo(s, ip, a2, n2, c2).store
  {
    var first := AddWhoisInfo(s, ip, a1, n1, c1);
    if first.row.Some? {
      UniqueIp(s.ips, ip);
      var a := WithIp(s.ips, ip)[0];
      assert WithIp(s.ips, ip) == [a];
      UniqueIpId(s.infos, a.id);
      AddValid(s, ip, a1, n1, c1, a);
      if |InfosOf(s, a.id)| == 1 {
        TwiceOverwrite(s, ip, a1, n1, c1, a2, n2, c2, a);
      } else {
        TwiceAppend(s, ip, a1, n1, c1, a2, n2, c2, a);
      }
    }
  }

  /** `AddWhoisInfoTwice` for an address that already has its info row. */
  lemma TwiceOverwrite(s: Store, ip: string, a1: string, n1: string, c1: string,
                       a2: string, n2: string, c2: string, a: IpRow)
    requires Valid(s) && WithIp(s.ips, ip) == [a] && |InfosOf(s, a.id)| == 1
    requires Accepted(a1, n1, c1)
    requires Accepted(a2, n2, c2)
    ensures AddWhoisInfo(AddWhoisInfo(s, ip, a1, n1, c1).store, ip, a2, n2, c2).store
            == AddWhoisInfo(s, ip, a2, n2, c2).store
  {
    OnlyRow(s.infos, a.id);
    var j := IndexOfIpId(s.infos, a.id);
    var t := OverwriteOnce(s, ip, a1, n1, c1, a, j);
    AddUpdates(t, ip, a2, n2, c2, a, j);
    AddUpdates(s, ip, a2, n2, c2, a, j);
    assert t.infos[j := WithValues(t.infos[j], a2, n2, c2)] == s.infos[j := WithValues(s.infos[j], a2, n2, c2)];
  }

  /** The first write of `TwiceOverwrite`: the row at `j` is overwritten and is still the address's only row. */
  lemma OverwriteOnce(s: Store, ip: string, a1: string, n1: string, c1: string, a: IpRow, j: nat)
    returns (t: Store)
    requires Valid(s) && WithIp(s.ips, ip) == [a] && |InfosOf(s, a.id)| == 1
    requires Accepted(a1, n1, c1)
    requires j < |s.infos| && WithIpId(s.infos, a.id) == [s.infos[j]]
    requires forall i :: 0 <= i < j ==> s.infos[i].ipId != a.id
    ensures t == s.(infos := s.infos[j := WithValues(s.infos[j], a1, n1, c1)])
    ensures AddWhoisInfo(s, ip, a1, n1, c1).store == t
    ensures WithIp(t.ips, ip) == [a] && j < |t.infos| && WithIpId(t.infos, a.id) == [t.infos[j]]
    ensures t.infos[j].id == s.infos[j].id && t.infos[j].ipId == s.infos[j].ipId
    ensures forall i :: 0 <= i < j ==> t.infos[i].ipId != a.id
  {
    AddUpdates(s, ip, a1, n1, c1, a, j);
    t := AddWhoisInfo(s, ip, a1, n1, c1).store;
    AddValid(s, ip, a1, n1, c1, a);
    assert forall i :: 0 <= i < j ==> t.infos[i] == s.infos[i];
  }

  /** `AddWhoisInfoTwice` for an address without an info row yet. */
  lemma TwiceAppend(s: Store, ip: string, a1: string, n1: string, c1: string,
                    a2: string, n2: string, c2: string, a: IpRow)
    requires Valid(s) && WithIp(s.ips, ip) == [a] && |InfosOf(s, a.id)| == 0
    requires Accepted(a1, n1, c1)
    requires Accepted(a2, n2, c2)
    ensures AddWhoisInfo(AddWhoisInfo(s, ip, a1, n1, c1).store, ip, a2, n2, c2).store
            == AddWhoisInfo(s, ip, a2, n2, c2).store
  {
    AddAppends(s, ip, a1, n1, c1, a);
    AddAppends(s, ip, a2, n2, c2, a);
    var w1 := WithValues(InfoRow(s.nextInfo, a.id, "", "", ""), a1, n1, c1);
    var t := s.(infos := s.infos + [w1], nextInfo := s.nextInfo + 1);
    AddValid(s, ip, a1, n1, c1, a);
    assert WithIp(t.ips, ip) == [a];
    var k := |s.infos|;
    assert t.infos[k] == w1;
    assert forall i :: 0 <= i < k ==> t.infos[i].ipId != a.id by {
      assert forall i :: 0 <= i < k ==> t.infos[i] == s.infos[i];
    }
    AddUpdates(t, ip, a2, n2, c2, a, k);
    assert t.infos[k := WithValues(w1, a2, n2, c2)]
           == s.infos + [WithValues(InfoRow(s.nextInfo, a.id, "", "", ""), a2, n2, c2)];
  }
}
