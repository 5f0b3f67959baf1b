/** The replay of a Kea lease file: an append-only log in which the last row of an address is
    authoritative. */
module KeaLeases {
  import opened Options
  import Sorting
  import Strings

  const MAX_RECORDS := 4096

  /** The library calls on texts; addresses in their canonical form. */
  datatype Library = Library(
    lower: string -> string, trim: string -> string, parseMac: string -> Option<seq<int>>,
    parseIpv4: string -> Option<string>, parseInt: string -> Option<int>, hash: string -> string)

  datatype Lease = Lease(mac: seq<int>, ip: string, hostname: string, expires: int, clientHash: Option<string>)

  datatype Outcome = Leases(leases: seq<Lease>) | NoHeader | MissingColumn | LimitExceeded

  type Columns = map<string, nat>

  function Field(lib: Library, columns: Columns, record: seq<string>, name: string): string {
    if name in columns && columns[name] < |record| then lib.trim(record[columns[name]]) else ""
  }

  /** What a row says: nothing usable, that an address is free, or a lease of it. */
  datatype Entry = Ignored | Ended(key: string) | Active(key: string, lease: Lease)

  function EntryOf(lib: Library, columns: Columns, record: seq<string>, now: int): Entry {
    var mac := lib.parseMac(Field(lib, columns, record, "hwaddr"));
    var ip := lib.parseIpv4(Field(lib, columns, record, "address"));
    if mac.None? || |mac.value| != 6 || ip.None? then Ignored
    else
      var expires := lib.parseInt(Field(lib, columns, record, "expire"));
      var state := Field(lib, columns, record, "state");
      if expires.None? || expires.value <= now || (state != "" && state != "0") then Ended(ip.value)
      else
        var clientId := Field(lib, columns, record, "client_id");
        Active(ip.value, Lease(mac.value, ip.value, Field(lib, columns, record, "hostname"), expires.value,
                               if clientId != "" then Some(lib.hash(clientId)) else None))
  }

  ghost function Entries(lib: Library, columns: Columns, records: seq<seq<string>>, now: int): (r: seq<Entry>)
    ensures |r| == |records|
  {
    if records == [] then []
    else
      var n := |records| - 1;
      Entries(lib, columns, records[..n], now) + [EntryOf(lib, columns, records[n], now)]
  }

  lemma {:induction false} EntriesAt(lib: Library, columns: Columns, records: seq<seq<string>>, now: int, i: nat)
    requires i < |records|
    ensures Entries(lib, columns, records, now)[i] == EntryOf(lib, columns, records[i], now)
  {
    if i < |records| - 1 {
      EntriesAt(lib, columns, records[..|records| - 1], now, i);
    }
  }

  /** The reference: what the last row about an address says. */
  function LastWord(entries: seq<Entry>, key: string): Option<Lease> {
    if entries == [] then None
    else
      var last := entries[|entries| - 1];
      if last.Active? && last.key == key then Some(last.lease)
      else if last.Ended? && last.key == key then None
      else LastWord(entries[..|entries| - 1], key)
  }

  /** The leases after one more row, and after all of them. */
  function Apply(latest: map<string, Lease>, e: Entry): map<string, Lease> {
    match e
    case Ignored => latest
    case Ended(key) => latest - {key}
    case Active(key, lease) => latest[key := lease]
  }

  function LatestOf(entries: seq<Entry>): map<string, Lease> {
    if entries == [] then map[] else Apply(LatestOf(entries[..|entries| - 1]), entries[|entries| - 1])
  }

  /** The last row about an address decides: an older lease is never resurrected. */
  lemma {:induction false} LastRowDecides(entries: seq<Entry>, key: string)
    ensures (if key in LatestOf(entries) then Some(LatestOf(entries)[key]) else None) == LastWord(entries, key)
  {
    if entries != [] {
      LastRowDecides(entries[..|entries| - 1], key);
    }
  }

  /** At some row more addresses are leased than the limit allows. */
  ghost predicate ExceedsLimit(entries: seq<Entry>) {
    entries != [] && (ExceedsLimit(entries[..|entries| - 1]) || |LatestOf(entries)| > 4096)
  }

  lemma {:induction false} LimitStaysExceeded(entries: seq<Entry>, n: nat)
    requires n <= |entries| && ExceedsLimit(entries[..n])
    ensures ExceedsLimit(entries)
    decreases |entries|
  {
    if n < |entries| {
      var init := entries[..|entries| - 1];
      assert init[..n] == entries[..n];
      LimitStaysExceeded(init, n);
    } else {
      assert entries[..n] == entries;
    }
  }

  /** The leases of the addresses whose last word is a lease, in the order of the addresses. */
  ghost predicate IsListing(leases: seq<Lease>, entries: seq<Entry>) {
    && (forall i, j | 0 <= i < j < |leases| :: Strings.Leq(leases[i].ip, leases[j].ip) && leases[i].ip != leases[j].ip)
    && forall lease: Lease :: lease in leases <==> LastWord(entries, lease.ip) == Some(lease)
  }

  lemma {:induction false} LastWordNamesItsKey(lib: Library, columns: Columns, records: seq<seq<string>>, now: int,
      key: string)
    ensures var r := LastWord(Entries(lib, columns, records, now), key); r.Some? ==> r.value.ip == key
  {
    if records != [] {
      var n := |records| - 1;
      assert Entries(lib, columns, records, now)[..n] == Entries(lib, columns, records[..n], now);
      LastWordNamesItsKey(lib, columns, records[..n], now, key);
    }
  }

  // ----- rows by their texts

  /** The trimmed text of a column, or nothing where the row has no such column. */
  ghost predicate Says(lib: Library, columns: Columns, row: seq<string>, name: string, text: string) {
    if name in columns && columns[name] < |row| then text == lib.trim(row[columns[name]]) else text == ""
  }

  /** The row is about a client and an address that can be read. */
  ghost predicate About(lib: Library, columns: Columns, row: seq<string>, mac: seq<int>, ip: string) {
    exists m, a ::
      && Says(lib, columns, row, "hwaddr", m) && lib.parseMac(m) == Some(mac) && |mac| == 6
      && Says(lib, columns, row, "address", a) && lib.parseIpv4(a) == Some(ip)
  }

  /** The row says that the lease holds: it has a time still to come, and no state but the default. */
  ghost predicate Grants(lib: Library, columns: Columns, row: seq<string>, now: int, lease: Lease) {
    && About(lib, columns, row, lease.mac, lease.ip)
    && Says(lib, columns, row, "hostname", lease.hostname)
    && (exists e, s ::
          && Says(lib, columns, row, "expire", e) && lib.parseInt(e) == Some(lease.expires) && lease.expires > now
          && Says(lib, columns, row, "state", s) && (s == "" || s == "0"))
    && exists c :: Says(lib, columns, row, "client_id", c)
         && lease.clientHash == if c == "" then None else Some(lib.hash(c))
  }

  lemma EntryMeaning(lib: Library, columns: Columns, row: seq<string>, now: int, key: string)
    ensures var e := EntryOf(lib, columns, row, now);
      && (!e.Ignored? && e.key == key <==> exists mac :: About(lib, columns, row, mac, key))
      && (forall lease: Lease | lease.ip == key :: e == Active(key, lease) <==> Grants(lib, columns, row, now, lease))
  {
    var m, a := Field(lib, columns, row, "hwaddr"), Field(lib, columns, row, "address");
    assert Says(lib, columns, row, "hwaddr", m) && Says(lib, columns, row, "address", a);
    var e, s := Field(lib, columns, row, "expire"), Field(lib, columns, row, "state");
    assert Says(lib, columns, row, "expire", e) && Says(lib, columns, row, "state", s);
    assert Says(lib, columns, row, "client_id", Field(lib, columns, row, "client_id"));
    if lib.parseMac(m).Some? && |lib.parseMac(m).value| == 6 && lib.parseIpv4(a) == Some(key) {
      assert About(lib, columns, row, lib.parseMac(m).value, key);
    }
  }

  ghost predicate Mentions(lib: Library, columns: Columns, row: seq<string>, ip: string) {
    exists mac :: About(lib, columns, row, mac, ip)
  }

  /** Some row grants the lease, and no later row is about its address. */
  ghost predicate Stands(lib: Library, columns: Columns, records: seq<seq<string>>, now: int, lease: Lease) {
    exists i :: 0 <= i < |records| && Grants(lib, columns, records[i], now, lease)
      && forall j | i < j < |records| :: !Mentions(lib, columns, records[j], lease.ip)
  }

  lemma StandsNext(lib: Library, columns: Columns, records: seq<seq<string>>, row: seq<string>, now: int, lease: Lease)
    ensures Stands(lib, columns, records + [row], now, lease) <==>
            || Grants(lib, columns, row, now, lease)
            || (!Mentions(lib, columns, row, lease.ip) && Stands(lib, columns, records, now, lease))
  {
    var more := records + [row];
    assert more[|records|] == row && forall i | 0 <= i < |records| :: more[i] == records[i];
    if Stands(lib, columns, more, now, lease) && !Grants(lib, columns, row, now, lease) {
      var i :| 0 <= i < |more| && Grants(lib, columns, more[i], now, lease)
               && forall j | i < j < |more| :: !Mentions(lib, columns, more[j], lease.ip);
      assert records[i] == more[i];
    }
    if !Mentions(lib, columns, row, lease.ip) && Stands(lib, columns, records, now, lease) {
      var i :| 0 <= i < |records| && Grants(lib, columns, records[i], now, lease)
               && forall j | i < j < |records| :: !Mentions(lib, columns, records[j], lease.ip);
      assert more[i] == records[i];
    }
  }

  /** The last word on an address is a lease exactly when that lease stands in the log. */
  lemma {:induction false} LastWordMeaning(
      lib: Library, columns: Columns, records: seq<seq<string>>, now: int, lease: Lease)
    ensures LastWord(Entries(lib, columns, records, now), lease.ip) == Some(lease) <==>
            Stands(lib, columns, records, now, lease)
  {
    if records != [] {
      var n := |records| - 1;
      LastWordMeaning(lib, columns, records[..n], now, lease);
      StandsNext(lib, columns, records[..n], records[n], now, lease);
      assert records == records[..n] + [records[n]];
      LastWordNext(lib, columns, records, now, lease);
    }
  }

  lemma LastWordNext(lib: Library, columns: Columns, records: seq<seq<string>>, now: int, lease: Lease)
    requires records != []
    ensures var n := |records| - 1;
      LastWord(Entries(lib, columns, records, now), lease.ip) == Some(lease) <==>
        || Grants(lib, columns, records[n], now, lease)
        || (&& !Mentions(lib, columns, records[n], lease.ip)
            && LastWord(Entries(lib, columns, records[..n], now), lease.ip) == Some(lease))
  {
    var n := |records| - 1;
    EntryMeaning(lib, columns, records[n], now, lease.ip);
    assert Entries(lib, columns, records, now)[..n] == Entries(lib, columns, records[..n], now);
  }

  /** The leases listed are exactly those that stand in the log, each once and by address. */
  lemma ListingMeaning(lib: Library, columns: Columns, records: seq<seq<string>>, now: int, leases: seq<Lease>)
    requires IsListing(leases, Entries(lib, columns, records, now))
    ensures forall lease: Lease :: lease in leases <==> Stands(lib, columns, records, now, lease)
    ensures forall i, j | 0 <= i < j < |leases| :: Strings.Precedes(leases[i].ip, leases[j].ip)
  {
    forall lease: Lease ensures lease in leases <==> Stands(lib, columns, records, now, lease) {
      LastWordMeaning(lib, columns, records, now, lease);
    }
    forall i, j | 0 <= i < j < |leases| ensures Strings.Precedes(leases[i].ip, leases[j].ip) {
      Strings.LeqMeans(leases[i].ip, leases[j].ip);
    }
  }

  /** The columns are those the header names; of two with one name the later counts. */
  ghost predicate IsHeader(lib: Library, columns: Columns, header: seq<string>) {
    && (forall name :: name in columns <==> exists i :: 0 <= i < |header| && lib.lower(lib.trim(header[i])) == name)
    && forall name | name in columns ::
         && columns[name] < |header| && lib.lower(lib.trim(header[columns[name]])) == name
         && forall i | columns[name] < i < |header| :: lib.lower(lib.trim(header[i])) != name
  }

  method ReadHeader(lib: Library, header: seq<string>) returns (columns: Columns)
    ensures IsHeader(lib, columns, header)
  {
    columns := map[];
    for i := 0 to |header|
      invariant IsHeader(lib, columns, header[..i])
    {
      HeaderGrows(lib, columns, header, i);
      columns := columns[lib.lower(lib.trim(header[i])) := i];
    }
    assert header[..|header|] == header;
  }

  lemma HeaderGrows(lib: Library, columns: Columns, header: seq<string>, i: nat)
    requires i < |header| && IsHeader(lib, columns, header[..i])
    ensures IsHeader(lib, columns[lib.lower(lib.trim(header[i])) := i], header[..i + 1])
  {
    assert forall k | 0 <= k < i :: header[..i + 1][k] == header[..i][k];
  }

  /** A header determines its columns. */
  lemma HeaderIsUnique(lib: Library, columns: Columns, others: Columns, header: seq<string>)
    requires IsHeader(lib, columns, header) && IsHeader(lib, others, header)
    ensures columns == others
  {
    forall name ensures name in columns <==> name in others
      ensures name in columns ==> columns[name] == others[name]
    {
    }
  }

  /** The part of the loop below about one row. */
  method ReadRow(lib: Library, columns: Columns, records: seq<seq<string>>, i: nat, now: int) returns (e: Entry)
    requires i < |records|
    ensures e == Entries(lib, columns, records, now)[i]
  {
    EntriesAt(lib, columns, records, now, i);
    var record := records[i];
    var mac := lib.parseMac(Field(lib, columns, record, "hwaddr"));
    var ip := lib.parseIpv4(Field(lib, columns, record, "address"));
    if mac.None? || |mac.value| != 6 || ip.None? {
      return Ignored;
    }
    var key := ip.value;
    var expires := lib.parseInt(Field(lib, columns, record, "expire"));
    var state := Field(lib, columns, record, "state");
    if expires.None? || expires.value <= now || (state != "" && state != "0") {
      return Ended(key);
    }
    var clientHash: Option<string> := None;
    var clientId := Field(lib, columns, record, "client_id");
    if clientId != "" {
      clientHash := Some(lib.hash(clientId));
    }
    e := Active(key, Lease(mac.value, key, Field(lib, columns, record, "hostname"), expires.value, clientHash));
  }

  /** The loop over the rows; `None` when the limit is exceeded. */
  method ReplayRows(lib: Library, columns: Columns, records: seq<seq<string>>, now: int)
    returns (r: Option<map<string, Lease>>)
    ensures r.Some? ==> r.value == LatestOf(Entries(lib, columns, records, now))
    ensures r.None? <==> ExceedsLimit(Entries(lib, columns, records, now))
  {
    var latest: map<string, Lease> := map[];
    ghost var entries := Entries(lib, columns, records, now);
    for i := 0 to |records|
      invariant latest == LatestOf(entries[..i]) && |latest| <= MAX_RECORDS && !ExceedsLimit(entries[..i])
    {
      OneMoreRow(entries, i);
      var entry := ReadRow(lib, columns, records, i, now);
      var next := ApplyRow(latest, entry);
      if next.None? {
        LimitStaysExceeded(entries, i + 1);
        return None;
      }
      latest := next.value;
    }
    assert entries[..|records|] == entries;
    return Some(latest);
  }

  lemma OneMoreRow(entries: seq<Entry>, i: nat)
    requires i < |entries|
    ensures LatestOf(entries[..i + 1]) == Apply(LatestOf(entries[..i]), entries[i])
    ensures ExceedsLimit(entries[..i + 1]) <==>
              ExceedsLimit(entries[..i]) || |Apply(LatestOf(entries[..i]), entries[i])| > MAX_RECORDS
  {
    assert entries[..i + 1][..i] == entries[..i];
  }

  /** The other part: the row's effect, unless it takes the table over the limit. */
  method ApplyRow(latest: map<string, Lease>, entry: Entry) returns (r: Option<map<string, Lease>>)
    requires |latest| <= MAX_RECORDS
    ensures r.None? <==> |Apply(latest, entry)| > MAX_RECORDS
    ensures r.Some? ==> r.value == Apply(latest, entry)
  {
    match entry
    case Ignored => r := Some(latest);
    case Ended(key) =>
      SmallerTable(latest, key);
      r := Some(latest - {key});
    case Active(key, lease) =>
      LargerTable(latest, key, lease);
      if key !in latest && |latest| >= MAX_RECORDS {
        return None;
      }
      r := Some(latest[key := lease]);
  }

  lemma LargerTable(table: map<string, Lease>, key: string, lease: Lease)
    ensures |table[key := lease]| == if key in table then |table| else |table| + 1
  {
    assert table[key := lease].Keys == table.Keys + {key};
  }

  lemma SmallerTable(table: map<string, Lease>, key: string)
    ensures |table - {key}| <= |table|
  {
    assert table.Keys == (table - {key}).Keys + (if key in table then {key} else {});
  }

  method ParseKeaLeases(lib: Library, rows: seq<seq<string>>, now: int) returns (r: Outcome, columns: Columns)
    ensures r.NoHeader? <==> rows == []
    ensures rows != [] ==> IsHeader(lib, columns, rows[0])
    ensures r.MissingColumn? <==> rows != [] && !({"address", "hwaddr", "expire"} <= columns.Keys)
    ensures r.LimitExceeded? <==>
              rows != [] && {"address", "hwaddr", "expire"} <= columns.Keys
              && ExceedsLimit(Entries(lib, columns, rows[1..], now))
    ensures r.Leases? ==> IsListing(r.leases, Entries(lib, columns, rows[1..], now))
  {
    columns := map[];
    if rows == [] {
      return NoHeader, columns;
    }
    columns := ReadHeader(lib, rows[0]);
    if "address" !in columns || "hwaddr" !in columns || "expire" !in columns {
      return MissingColumn, columns;
    }
    r := ParseRows(lib, columns, rows[1..], now);
  }

  /** The part behind the header. */
  method ParseRows(lib: Library, columns: Columns, records: seq<seq<string>>, now: int) returns (r: Outcome)
    ensures r.Leases? || r.LimitExceeded?
    ensures r.LimitExceeded? <==> ExceedsLimit(Entries(lib, columns, records, now))
    ensures r.Leases? ==> IsListing(r.leases, Entries(lib, columns, records, now))
  {
    var latest := ReplayRows(lib, columns, records, now);
    if latest.None? {
      return LimitExceeded;
    }
    ghost var entries := Entries(lib, columns, records, now);
    forall key
      ensures (if key in latest.value then Some(latest.value[key]) else None) == LastWord(entries, key)
      ensures key in latest.value ==> latest.value[key].ip == key
    {
      LastRowDecides(entries, key);
      LastWordNamesItsKey(lib, columns, records, now, key);
    }
    var leases := InOrder(latest.value);
    forall lease: Lease ensures lease in leases <==> LastWord(entries, lease.ip) == Some(lease) {
      LastRowDecides(entries, lease.ip);
    }
    r := Leases(leases);
  }

  method InOrder(latest: map<string, Lease>) returns (leases: seq<Lease>)
    requires forall key | key in latest :: latest[key].ip == key
    ensures forall i, j | 0 <= i < j < |leases| ::
              Strings.Leq(leases[i].ip, leases[j].ip) && leases[i].ip != leases[j].ip
    ensures forall lease: Lease :: lease in leases <==> lease.ip in latest && latest[lease.ip] == lease
  {
    var keys := Strings.Listing(latest.Keys);
    assert forall i | 0 <= i < |keys| :: keys[i] in keys;
    leases := [];
    for i := 0 to |keys|
      invariant |leases| == i && forall k | 0 <= k < i :: leases[k] == latest[keys[k]]
    {
      leases := leases + [latest[keys[i]]];
    }
    forall lease: Lease ensures lease in leases <==> lease.ip in latest && latest[lease.ip] == lease {
      if lease.ip in latest && latest[lease.ip] == lease {
        assert lease.ip in keys;
        var k :| 0 <= k < |keys| && keys[k] == lease.ip;
        assert leases[k] == lease;
      }
    }
  }
}
