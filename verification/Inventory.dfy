/** The in-memory inventory of the discovery service: device records shared between the map of
    devices and three indexes, mutated in place. */
module Inventory {
  import opened Options

  const OFFLINE_TTL := 86400
  const STALE_THRESHOLD := 180
  const MAX_HISTORICAL_MACS := 32

  /** The library calls on texts: `net.ParseMAC`, its printed form, lower-casing with trimming,
      and trimming.  A printed address parses back, and printing leaves nothing to tidy. */
  datatype Library = Library(
    parse: string -> Option<seq<int>>, printed: seq<int> -> string, tidy: string -> string, trim: string -> string)
  {
    ghost predicate Lawful() {
      forall s | parse(s).Some? ::
        var hw := parse(s).value;
        hw != [] && printed(hw) != "" && parse(printed(hw)) == Some(hw) && tidy(printed(hw)) == printed(hw)
    }

    /** Without its separators an address of twelve digits is regrouped in pairs. */
    function Regroup(s: string): string {
      var clean := Without(s, ['-', '.', ':']);
      if |clean| == 12 then InPairs(clean) else s
    }

    function NormalizeMac(s: string): string {
      if s == "" then ""
      else if parse(s).Some? then printed(parse(s).value)
      else if parse(Regroup(s)).Some? then printed(parse(Regroup(s)).value)
      else ""
    }

    /** The form in which a record keeps an address. */
    function CanonicalMac(s: string): string {
      var clean := tidy(s);
      if parse(clean).Some? then printed(parse(clean).value) else clean
    }

    /** An address that parses is normalized to its printed form; one that does not, and has twelve
        characters besides its separators, as if these stood in pairs between colons; any other to
        nothing. */
    lemma NormalizeMeaning(s: string, c: string)
      requires s != "" && Stripped(s, c)
      ensures parse(s).Some? ==> NormalizeMac(s) == printed(parse(s).value)
      ensures parse(s).None? && |c| == 12 ==>
                var pairs := c[..2] + ":" + c[2..4] + ":" + c[4..6] + ":" + c[6..8] + ":" + c[8..10] + ":" + c[10..];
                NormalizeMac(s) == if parse(pairs).Some? then printed(parse(pairs).value) else ""
      ensures parse(s).None? && |c| != 12 ==> NormalizeMac(s) == ""
      ensures NormalizeMac("") == ""
    {
      StrippedIsWithout(s, c);
      if |c| == 12 {
        TwelveInPairs(c);
      }
    }

    /** A normalized address survives being stored and normalized again. */
    lemma NormalizedIsStable(s: string)
      requires Lawful() && NormalizeMac(s) != ""
      ensures CanonicalMac(NormalizeMac(s)) == NormalizeMac(s)
      ensures NormalizeMac(NormalizeMac(s)) == NormalizeMac(s)
    {
    }
  }

  /** The text without the separators of an address. */
  ghost predicate Stripped(s: string, c: string) {
    if s == "" then c == ""
    else if s[0] == '-' || s[0] == '.' || s[0] == ':' then Stripped(s[1..], c)
    else c != "" && c[0] == s[0] && Stripped(s[1..], c[1..])
  }

  lemma {:induction false} StrippedIsWithout(s: string, c: string)
    requires Stripped(s, c)
    ensures Without(s, ['-', '.', ':']) == c
  {
    if s != "" {
      if s[0] == '-' || s[0] == '.' || s[0] == ':' {
        StrippedIsWithout(s[1..], c);
      } else {
        StrippedIsWithout(s[1..], c[1..]);
        assert c == [c[0]] + c[1..];
      }
    }
  }

  /** Every text has its separators taken out in one way. */
  lemma {:induction false} CanBeStripped(s: string) returns (c: string)
    ensures Stripped(s, c)
  {
    if s == "" {
      c := "";
    } else {
      c := CanBeStripped(s[1..]);
      if !(s[0] == '-' || s[0] == '.' || s[0] == ':') {
        c := [s[0]] + c;
      }
    }
  }

  lemma TwelveInPairs(c: string)
    requires |c| == 12
    ensures InPairs(c) == c[..2] + ":" + c[2..4] + ":" + c[4..6] + ":" + c[6..8] + ":" + c[8..10] + ":" + c[10..]
  {
    assert InPairs(c[10..]) == c[10..];
    assert InPairs(c[8..]) == c[8..10] + ":" + InPairs(c[10..]) by { assert c[8..][2..] == c[10..]; }
    assert InPairs(c[6..]) == c[6..8] + ":" + InPairs(c[8..]) by { assert c[6..][2..] == c[8..]; }
    assert InPairs(c[4..]) == c[4..6] + ":" + InPairs(c[6..]) by { assert c[4..][2..] == c[6..]; }
    assert InPairs(c[2..]) == c[2..4] + ":" + InPairs(c[4..]) by { assert c[2..][2..] == c[4..]; }
    assert InPairs(c) == c[..2] + ":" + InPairs(c[2..]);
  }

  function Without(s: string, chars: seq<char>): string {
    if s == "" then "" else (if s[0] in chars then "" else [s[0]]) + Without(s[1..], chars)
  }

  function InPairs(s: string): string {
    if |s| <= 2 then s else s[..2] + ":" + InPairs(s[2..])
  }

  function WithoutText(xs: seq<string>, x: string): seq<string> {
    if xs == [] then []
    else WithoutText(xs[..|xs| - 1], x) + if xs[|xs| - 1] != x then [xs[|xs| - 1]] else []
  }

  /** The history with an address that may be new; it keeps the latest. */
  function Remembered(macs: seq<string>, mac: string): seq<string> {
    if mac in macs then macs
    else if |macs| + 1 > MAX_HISTORICAL_MACS then (macs + [mac])[|macs| + 1 - MAX_HISTORICAL_MACS..]
    else macs + [mac]
  }

  /** The remembered address is in the history, of which the oldest go once there are more than
      thirty-two. */
  lemma RememberedMeaning(macs: seq<string>, mac: string)
    ensures mac in Remembered(macs, mac)
    ensures mac in macs ==> Remembered(macs, mac) == macs
    ensures mac !in macs && |macs| < 32 ==> Remembered(macs, mac) == macs + [mac]
    ensures mac !in macs && |macs| >= 32 ==>
              |Remembered(macs, mac)| == 32 && Remembered(macs, mac) == macs[|macs| - 31..] + [mac]
  {
  }

  /** All occurrences of the text go, and nothing else does. */
  lemma {:induction false} WithoutTextMeaning(xs: seq<string>, x: string)
    ensures x !in WithoutText(xs, x)
    ensures forall y | y != x :: multiset(WithoutText(xs, x))[y] == multiset(xs)[y]
    ensures x !in xs ==> WithoutText(xs, x) == xs
  {
    if xs != [] {
      var init, last := xs[..|xs| - 1], xs[|xs| - 1];
      WithoutTextMeaning(init, x);
      assert xs == init + [last];
    }
  }

  /** What a record says, apart from its identity as an object. */
  datatype Record = Record(
    deviceId: string, pdid: string, canonicalHostname: string, currentMac: string, macs: seq<string>,
    currentIp: string, ips: seq<string>, online: bool, lastSeen: int)

  class Device {
    var deviceId: string
    const pdid: string
    var canonicalHostname: string
    var currentMac: string
    var macs: seq<string>
    var currentIp: string
    var ips: seq<string>
    var online: bool
    var lastSeen: int

    ghost function Data(): Record
      reads this
    {
      Record(deviceId, pdid, canonicalHostname, currentMac, macs, currentIp, ips, online, lastSeen)
    }

    constructor (r: Record)
      ensures Data() == r
    {
      deviceId, pdid, canonicalHostname, currentMac, macs := r.deviceId, r.pdid, r.canonicalHostname, r.currentMac,
          r.macs;
      currentIp, ips, online, lastSeen := r.currentIp, r.ips, r.online, r.lastSeen;
    }

    method Clone() returns (copy: Device)
      ensures fresh(copy) && copy.Data() == Data()
    {
      copy := new Device(Record(deviceId, pdid, canonicalHostname, currentMac, macs, currentIp, ips, online, lastSeen));
    }

    /** The part of the stale check about one device. */
    method Demote(now: int) returns (demoted: bool)
      modifies this`online
      ensures demoted <==> old(online) && now - lastSeen > 180
      ensures online <==> old(online) && !demoted
    {
      demoted := online && now - lastSeen > STALE_THRESHOLD;
      if demoted {
        online := false;
      }
    }

    /** Forgets an address; if it was the current one, the latest of the others takes its place. */
    method ForgetIp(ip: string)
      modifies this`ips, this`currentIp
      ensures var left := WithoutText(old(ips), ip);
              Data() == old(Data()).(ips := left, currentIp :=
                if old(currentIp) != ip then old(currentIp) else if left != [] then left[|left| - 1] else "")
    {
      var newIps: seq<string> := [];
      for i := 0 to |ips|
        invariant newIps == WithoutText(ips[..i], ip)
      {
        assert ips[..i + 1][..i] == ips[..i];
        if ips[i] != ip {
          newIps := newIps + [ips[i]];
        }
      }
      assert ips[..|ips|] == ips;
      ips := newIps;
      if currentIp == ip {
        currentIp := "";
        if |ips| > 0 {
          currentIp := ips[|ips| - 1];
        }
      }
    }

    /** Remembers an address as the current one; the history keeps the latest. */
    method AddMac(lib: Library, mac: string)
      modifies this`currentMac, this`macs
      ensures mac == "" ==> Data() == old(Data())
      ensures mac != "" ==>
                var tidied := lib.tidy(mac);
                var clean := if lib.parse(tidied).Some? then lib.printed(lib.parse(tidied).value) else tidied;
                Data() == old(Data()).(currentMac := clean, macs := Remembered(old(macs), clean))
    {
      if mac == "" {
        return;
      }
      var clean := lib.CanonicalMac(mac);
      for i := 0 to |macs|
        invariant macs == old(macs) && currentMac == old(currentMac)
        invariant clean !in macs[..i]
      {
        if macs[i] == clean {
          currentMac := clean;
          return;
        }
      }
      macs := macs + [clean];
      currentMac := clean;
      if |macs| > MAX_HISTORICAL_MACS {
        macs := macs[|macs| - MAX_HISTORICAL_MACS..];
      }
    }
  }

  type Devices = map<string, Device>

  datatype Index = ById | ByMac | ByIp

  /** What an index files a record under; an empty key is not filed. */
  ghost function KeyOf(lib: Library, index: Index, d: Device): string
    reads d`deviceId, d`currentMac, d`currentIp
  {
    match index
    case ById => d.deviceId
    case ByMac => lib.NormalizeMac(d.currentMac)
    case ByIp => lib.trim(d.currentIp)
  }

  ghost predicate Keyed(devices: Devices) {
    forall p | p in devices :: devices[p].pdid == p
  }

  /** Every entry leads to the very object stored under its PDID, and the key is what that object
      says today. */
  ghost predicate Sound(lib: Library, index: Index, devices: Devices, entries: Devices)
    reads entries.Values`deviceId, entries.Values`currentMac, entries.Values`currentIp
  {
    forall k | k in entries ::
      && k != "" && entries[k].pdid in devices && devices[entries[k].pdid] == entries[k]
      && KeyOf(lib, index, entries[k]) == k
  }

  /** Takes out the key that a record gives up, for two of the indexes only if the entry is its
      own. */
  function Cut(entries: Devices, pdid: string, oldKey: string, newKey: string, ownOnly: bool): Devices {
    if oldKey != "" && oldKey != newKey && oldKey in entries && (ownOnly ==> entries[oldKey].pdid == pdid)
    then entries - {oldKey} else entries
  }

  /** Files a copy under its key in place of the record before it. */
  function Refile(entries: Devices, oldKey: string, newKey: string, ownOnly: bool, copy: Device): Devices {
    var cut := Cut(entries, copy.pdid, oldKey, newKey, ownOnly);
    if newKey != "" then cut[newKey := copy] else cut
  }

  /** The key of the record stored under a PDID, if there is one. */
  ghost function KeyAt(lib: Library, index: Index, devices: Devices, pdid: string): string
    reads devices.Values`deviceId, devices.Values`currentMac, devices.Values`currentIp
  {
    if pdid in devices then KeyOf(lib, index, devices[pdid]) else ""
  }

  lemma RefiledSound(lib: Library, index: Index, devices: Devices, entries: Devices, ownOnly: bool, copy: Device)
    requires Sound(lib, index, devices, entries) && Keyed(devices)
    ensures Sound(lib, index, devices[copy.pdid := copy],
                  Refile(entries, KeyAt(lib, index, devices, copy.pdid), KeyOf(lib, index, copy), ownOnly, copy))
  {
    forall k | k in entries && entries[k].pdid == copy.pdid
      ensures k == KeyAt(lib, index, devices, copy.pdid)
    {
      assert devices[entries[k].pdid] == entries[k];
    }
  }

  /** Taking a record out with its key leaves the index sound, whoever owned the entry. */
  lemma UnfiledSound(lib: Library, index: Index, devices: Devices, entries: Devices, pdid: string)
    requires Sound(lib, index, devices, entries) && Keyed(devices)
    ensures Sound(lib, index, devices - {pdid}, entries - {KeyAt(lib, index, devices, pdid)})
  {
  }

  class Cache {
    const lib: Library
    var devices: Devices
    var deviceIdIndex: Devices
    var macIndex: Devices
    var ipIndex: Devices
    var hostnameOwners: map<string, string>

    ghost predicate Valid()
      reads this, deviceIdIndex.Values`deviceId, deviceIdIndex.Values`currentMac, deviceIdIndex.Values`currentIp
      reads macIndex.Values`deviceId, macIndex.Values`currentMac, macIndex.Values`currentIp
      reads ipIndex.Values`deviceId, ipIndex.Values`currentMac, ipIndex.Values`currentIp
    {
      && lib.Lawful() && Keyed(devices)
      && Sound(lib, ById, devices, deviceIdIndex)
      && Sound(lib, ByMac, devices, macIndex)
      && Sound(lib, ByIp, devices, ipIndex)
    }

    constructor (lib: Library)
      requires lib.Lawful()
      ensures Valid() && devices == map[] && this.lib == lib
    {
      this.lib := lib;
      devices, deviceIdIndex, macIndex, ipIndex, hostnameOwners := map[], map[], map[], map[], map[];
    }

    /** Stores a copy of the record, and replaces the index entries of the copy before it. */
    method Upsert(d: Device?)
      requires Valid()
      modifies this`devices, this`deviceIdIndex, this`macIndex, this`ipIndex
      ensures Valid()
      ensures d == null || d.pdid == "" ==>
                devices == old(devices) && deviceIdIndex == old(deviceIdIndex)
                && macIndex == old(macIndex) && ipIndex == old(ipIndex)
      ensures d != null && d.pdid != "" ==>
                && d.pdid in devices && fresh(devices[d.pdid]) && devices[d.pdid].Data() == d.Data()
                && devices == old(devices)[d.pdid := devices[d.pdid]]
                && deviceIdIndex == Refile(old(deviceIdIndex), old(KeyAt(lib, ById, devices, d.pdid)),
                                           KeyOf(lib, ById, d), false, devices[d.pdid])
                && macIndex == Refile(old(macIndex), old(KeyAt(lib, ByMac, devices, d.pdid)),
                                      KeyOf(lib, ByMac, d), true, devices[d.pdid])
                && ipIndex == Refile(old(ipIndex), old(KeyAt(lib, ByIp, devices, d.pdid)),
                                     KeyOf(lib, ByIp, d), true, devices[d.pdid])
    {
      if d == null || d.pdid == "" {
        return;
      }
      ghost var before := devices;
      ghost var ids, macs, ips := deviceIdIndex, macIndex, ipIndex;
      var copy := Replace(d);
      RefiledSound(lib, ById, before, ids, false, copy);
      RefiledSound(lib, ByMac, before, macs, true, copy);
      RefiledSound(lib, ByIp, before, ips, true, copy);
    }

    /** The body of `Upsert` under the lock. */
    method Replace(d: Device) returns (copy: Device)
      modifies this`devices, this`deviceIdIndex, this`macIndex, this`ipIndex
      ensures fresh(copy) && copy.Data() == d.Data() && devices == old(devices)[d.pdid := copy]
      ensures deviceIdIndex ==
              Refile(old(deviceIdIndex), old(KeyAt(lib, ById, devices, d.pdid)), KeyOf(lib, ById, copy), false, copy)
      ensures macIndex ==
              Refile(old(macIndex), old(KeyAt(lib, ByMac, devices, d.pdid)), KeyOf(lib, ByMac, copy), true, copy)
      ensures ipIndex ==
              Refile(old(ipIndex), old(KeyAt(lib, ByIp, devices, d.pdid)), KeyOf(lib, ByIp, copy), true, copy)
    {
      RemoveOldKeys(d);
      copy := StoreCopy(d);
    }

    /** The part of `Upsert` about the record before the copy: the keys it gives up. */
    method RemoveOldKeys(d: Device)
      modifies this`deviceIdIndex, this`macIndex, this`ipIndex
      ensures deviceIdIndex ==
              Cut(old(deviceIdIndex), d.pdid, KeyAt(lib, ById, devices, d.pdid), KeyOf(lib, ById, d), false)
      ensures macIndex == Cut(old(macIndex), d.pdid, KeyAt(lib, ByMac, devices, d.pdid), KeyOf(lib, ByMac, d), true)
      ensures ipIndex == Cut(old(ipIndex), d.pdid, KeyAt(lib, ByIp, devices, d.pdid), KeyOf(lib, ByIp, d), true)
    {
      if d.pdid in devices {
        var before := devices[d.pdid];
        if before.deviceId != "" && before.deviceId != d.deviceId {
          deviceIdIndex := deviceIdIndex - {before.deviceId};
        }
        assert deviceIdIndex == Cut(old(deviceIdIndex), d.pdid, before.deviceId, d.deviceId, false);
        var oldMac, newMac := lib.NormalizeMac(before.currentMac), lib.NormalizeMac(d.currentMac);
        if oldMac != "" && oldMac != newMac {
          if oldMac in macIndex && macIndex[oldMac].pdid == d.pdid {
            macIndex := macIndex - {oldMac};
          }
        }
        assert macIndex == Cut(old(macIndex), d.pdid, oldMac, newMac, true);
        var oldIp, newIp := lib.trim(before.currentIp), lib.trim(d.currentIp);
        if oldIp != "" && oldIp != newIp {
          if oldIp in ipIndex && ipIndex[oldIp].pdid == d.pdid {
            ipIndex := ipIndex - {oldIp};
          }
        }
      }
    }

    /** The other part: the copy and the keys it takes. */
    method StoreCopy(d: Device) returns (copy: Device)
      modifies this`devices, this`deviceIdIndex, this`macIndex, this`ipIndex
      ensures fresh(copy) && copy.Data() == d.Data() && devices == old(devices)[d.pdid := copy]
      ensures deviceIdIndex == if d.deviceId != "" then old(deviceIdIndex)[d.deviceId := copy] else old(deviceIdIndex)
      ensures var mac := lib.NormalizeMac(d.currentMac);
              macIndex == if mac != "" then old(macIndex)[mac := copy] else old(macIndex)
      ensures var ip := lib.trim(d.currentIp);
              ipIndex == if ip != "" then old(ipIndex)[ip := copy] else old(ipIndex)
    {
      copy := d.Clone();
      devices := devices[d.pdid := copy];
      if d.deviceId != "" {
        deviceIdIndex := deviceIdIndex[d.deviceId := copy];
      }
      var cleanMac := lib.NormalizeMac(d.currentMac);
      if cleanMac != "" {
        macIndex := macIndex[cleanMac := copy];
      }
      var cleanIp := lib.trim(d.currentIp);
      if cleanIp != "" {
        ipIndex := ipIndex[cleanIp := copy];
      }
    }

    /** Takes a record out with its keys, also where another record has taken a key over, and
        releases the hostname it owns. */
    method Delete(pdid: string) returns (released: seq<string>)
      requires Valid()
      modifies this`devices, this`deviceIdIndex, this`macIndex, this`ipIndex, this`hostnameOwners
      ensures Valid()
      ensures devices == old(devices) - {pdid}
      ensures pdid in old(devices) ==>
                && deviceIdIndex == old(deviceIdIndex) - {old(KeyAt(lib, ById, devices, pdid))}
                && macIndex == old(macIndex) - {old(KeyAt(lib, ByMac, devices, pdid))}
                && ipIndex == old(ipIndex) - {old(KeyAt(lib, ByIp, devices, pdid))}
      ensures pdid !in old(devices) ==>
                deviceIdIndex == old(deviceIdIndex) && macIndex == old(macIndex) && ipIndex == old(ipIndex)
      ensures released != [] ==>
                && pdid in old(devices) && released == [old(devices)[pdid].canonicalHostname]
                && released[0] in old(hostnameOwners) && old(hostnameOwners)[released[0]] == pdid
      ensures hostnameOwners == if released == [] then old(hostnameOwners) else old(hostnameOwners) - {released[0]}
    {
      released := [];
      if pdid in devices {
        UnfiledSound(lib, ById, devices, deviceIdIndex, pdid);
        UnfiledSound(lib, ByMac, devices, macIndex, pdid);
        UnfiledSound(lib, ByIp, devices, ipIndex, pdid);
        released := ReleaseHostname(pdid, devices[pdid]);
        RemoveKeys(devices[pdid]);
        devices := devices - {pdid};
      }
    }

    /** The part of a removal about the indexes. */
    method RemoveKeys(d: Device)
      requires "" !in macIndex && "" !in ipIndex
      modifies this`deviceIdIndex, this`macIndex, this`ipIndex
      ensures deviceIdIndex == old(deviceIdIndex) - {KeyOf(lib, ById, d)}
      ensures macIndex == old(macIndex) - {KeyOf(lib, ByMac, d)}
      ensures ipIndex == old(ipIndex) - {KeyOf(lib, ByIp, d)}
    {
      var cleanMac := lib.NormalizeMac(d.currentMac);
      if cleanMac != "" {
        macIndex := macIndex - {cleanMac};
      }
      var cleanIp := lib.trim(d.currentIp);
      if cleanIp != "" {
        ipIndex := ipIndex - {cleanIp};
      }
      deviceIdIndex := deviceIdIndex - {d.deviceId};
    }

    /** The part of a removal about the hostname, which only its owner releases. */
    method ReleaseHostname(pdid: string, d: Device) returns (released: seq<string>)
      modifies this`hostnameOwners
      ensures var owned := d.canonicalHostname != "" && d.canonicalHostname in old(hostnameOwners)
                           && old(hostnameOwners)[d.canonicalHostname] == pdid;
              && released == (if owned then [d.canonicalHostname] else [])
              && hostnameOwners == if owned then old(hostnameOwners) - {d.canonicalHostname} else old(hostnameOwners)
    {
      released := [];
      if d.canonicalHostname != "" {
        if d.canonicalHostname in hostnameOwners && hostnameOwners[d.canonicalHostname] == pdid {
          hostnameOwners := hostnameOwners - {d.canonicalHostname};
          released := [d.canonicalHostname];
        }
      }
    }

    /** A stored record takes an address; whoever held the address in the index loses it. */
    method SetCurrentMac(pdid: string, macText: string)
      requires Valid()
      modifies this`macIndex, (if pdid in devices then {devices[pdid]} else {})`currentMac,
               (if pdid in devices then {devices[pdid]} else {})`macs
      ensures Valid()
      ensures pdid in devices && pdid != "" && lib.NormalizeMac(macText) != "" ==>
                && devices[pdid].currentMac == lib.NormalizeMac(macText)
                && devices[pdid].macs == Remembered(old(devices[pdid].macs), lib.NormalizeMac(macText))
                && macIndex == Refile(old(macIndex), old(KeyAt(lib, ByMac, devices, pdid)), lib.NormalizeMac(macText),
                                      true, devices[pdid])
      ensures !(pdid in devices && pdid != "" && lib.NormalizeMac(macText) != "") ==>
                macIndex == old(macIndex) && (pdid in devices ==> devices[pdid].Data() == old(devices[pdid].Data()))
    {
      var cleanMac := lib.NormalizeMac(macText);
      if pdid == "" || cleanMac == "" {
        return;
      }
      if pdid !in devices {
        return;
      }
      var d := devices[pdid];
      var oldMac := lib.NormalizeMac(d.currentMac);
      forall k | k in macIndex && macIndex[k].pdid == pdid ensures k == oldMac {
        assert devices[macIndex[k].pdid] == macIndex[k];
      }
      lib.NormalizedIsStable(macText);
      FileUnderMac(d, cleanMac);
    }

    /** The body of `SetCurrentMac` under the lock. */
    method FileUnderMac(d: Device, cleanMac: string)
      requires cleanMac != ""
      modifies this`macIndex, d`currentMac, d`macs
      ensures d.currentMac == lib.CanonicalMac(cleanMac)
              && d.macs == Remembered(old(d.macs), lib.CanonicalMac(cleanMac))
      ensures macIndex == Refile(old(macIndex), old(KeyOf(lib, ByMac, d)), cleanMac, true, d)
    {
      var oldMac := lib.NormalizeMac(d.currentMac);
      if oldMac != "" && oldMac != cleanMac {
        if oldMac in macIndex && macIndex[oldMac].pdid == d.pdid {
          macIndex := macIndex - {oldMac};
        }
      }
      d.AddMac(lib, cleanMac);
      macIndex := macIndex[cleanMac := d];
    }

    /** A stale address is taken from its holder, which falls back to the address before it. */
    method RemoveIpIndex(ipText: string)
      requires Valid()
      modifies this`ipIndex, (if lib.trim(ipText) in ipIndex then {ipIndex[lib.trim(ipText)]} else {})
      ensures Valid()
      ensures lib.trim(ipText) !in ipIndex
      ensures ipIndex == old(ipIndex) - {lib.trim(ipText)}
      ensures lib.trim(ipText) in old(ipIndex) ==>
                var d, ip := old(ipIndex)[lib.trim(ipText)], lib.trim(ipText);
                var left := WithoutText(old(d.ips), ip);
                d.Data() == old(d.Data()).(ips := left, currentIp :=
                              if old(d.currentIp) != ip then old(d.currentIp)
                              else if left != [] then left[|left| - 1] else "")
    {
      var cleanIp := lib.trim(ipText);
      if cleanIp == "" {
        return;
      }
      if cleanIp in ipIndex {
        var d := ipIndex[cleanIp];
        d.ForgetIp(cleanIp);
        ipIndex := ipIndex - {cleanIp};
      }
    }

    /** Devices not seen for a while go offline, in any order; nothing else changes. */
    method DemoteStale(now: int) returns (changed: seq<string>)
      requires Valid()
      modifies devices.Values`online
      ensures Valid()
      ensures forall p :: p in changed <==>
                p in devices && old(devices[p].online) && now - devices[p].lastSeen > 180
      ensures forall p | p in devices :: devices[p].online <==> old(devices[p].online) && p !in changed
    {
      changed := [];
      var remaining := devices.Keys;
      while remaining != {}
        invariant remaining <= devices.Keys
        invariant forall p :: p in changed <==>
                    p in devices.Keys - remaining && old(devices[p].online)
                        && now - devices[p].lastSeen > STALE_THRESHOLD
        invariant forall p | p in devices :: devices[p].online <==> old(devices[p].online) && p !in changed
      {
        var p :| p in remaining;
        remaining := remaining - {p};
        var demoted := devices[p].Demote(now);
        if demoted {
          changed := changed + [p];
        }
      }
    }

    predicate Expired(d: Device, now: int)
      reads d
    {
      !d.online && now - d.lastSeen > OFFLINE_TTL
    }

    /** Removes exactly the devices that have been offline for long, each as `Delete` does. */
    method PurgeOffline(now: int)
      requires Valid()
      modifies this`devices, this`deviceIdIndex, this`macIndex, this`ipIndex, this`hostnameOwners
      ensures Valid()
      ensures forall p :: p in devices <==>
                p in old(devices) && (old(devices)[p].online || now - old(devices)[p].lastSeen <= 86400)
      ensures forall p | p in devices :: devices[p] == old(devices)[p]
    {
      var remaining := devices.Keys;
      while remaining != {}
        invariant Valid() && remaining <= devices.Keys <= old(devices).Keys
        invariant forall p | p in devices :: devices[p] == old(devices)[p]
        invariant forall p | p in old(devices) :: p in devices <==> p in remaining || !Expired(old(devices)[p], now)
        decreases remaining
      {
        var p :| p in remaining;
        remaining := remaining - {p};
        if Expired(devices[p], now) {
          var _ := Delete(p);
        }
      }
    }

    /** A lookup by address gives a copy of the live record that holds the address today. */
    method GetByMac(macText: string) returns (d: Device?)
      requires Valid()
      ensures d != null ==>
                && fresh(d) && d.pdid in devices && d.Data() == devices[d.pdid].Data()
                && lib.NormalizeMac(d.currentMac) == lib.NormalizeMac(macText) != ""
      ensures d == null <==> lib.NormalizeMac(macText) !in macIndex
    {
      var cleanMac := lib.NormalizeMac(macText);
      if cleanMac != "" {
        if cleanMac in macIndex {
          d := macIndex[cleanMac].Clone();
          return;
        }
      }
      return null;
    }

    method GetByIp(ipText: string) returns (d: Device?)
      requires Valid()
      ensures d != null ==>
                && fresh(d) && d.pdid in devices && d.Data() == devices[d.pdid].Data()
                && lib.trim(d.currentIp) == lib.trim(ipText) != ""
      ensures d == null <==> lib.trim(ipText) !in ipIndex
    {
      var cleanIp := lib.trim(ipText);
      if cleanIp != "" {
        if cleanIp in ipIndex {
          d := ipIndex[cleanIp].Clone();
          return;
        }
      }
      return null;
    }

    method GetByDeviceId(idText: string) returns (d: Device?)
      requires Valid()
      ensures d != null ==>
                fresh(d) && d.pdid in devices && d.Data() == devices[d.pdid].Data() && d.deviceId == lib.trim(idText)
      ensures d == null <==> lib.trim(idText) !in deviceIdIndex
    {
      if lib.trim(idText) in deviceIdIndex {
        d := deviceIdIndex[lib.trim(idText)].Clone();
        return;
      }
      return null;
    }
  }
}
