/** Merged identities: DIS chains its redirects and follows them, LIAS compresses its own so
    that one lookup suffices.  Both give the survivor of the history of merges. */
module Redirects {
  import opened Options
  import opened Chains

  type Table = map<string, string>

  /** The device `source` is merged into the device `target`. */
  datatype Merge = Merge(source: string, target: string)

  ghost predicate WasMergedAway(merges: seq<Merge>, pdid: string) {
    exists m :: m in merges && m.source == pdid
  }

  /** Each merge is of two distinct devices that are live at the time, and a PDID that has
      been merged away never comes back to life. */
  ghost predicate ValidHistory(merges: seq<Merge>) {
    merges == [] ||
    (var init, last := merges[..|merges| - 1], merges[|merges| - 1];
     && ValidHistory(init) && last.source != last.target
     && !WasMergedAway(init, last.source) && !WasMergedAway(init, last.target))
  }

  /** The reference: which device stands for `pdid` after the merges, one after the other. */
  ghost function Survivor(merges: seq<Merge>, pdid: string): string {
    if merges == [] then pdid
    else
      var before, last := Survivor(merges[..|merges| - 1], pdid), merges[|merges| - 1];
      if before == last.source then last.target else before
  }

  // ----- DIS: one row per merge

  ghost function ChainTable(merges: seq<Merge>): Table {
    if merges == [] then map[]
    else
      var last := merges[|merges| - 1];
      ChainTable(merges[..|merges| - 1])[last.source := last.target]
  }

  function Next(table: Table, pdid: string): Option<string> {
    if pdid in table then Some(table[pdid]) else None
  }

  ghost function Hop(table: Table): string -> Option<string> {
    pdid => Next(table, pdid)
  }

  lemma {:induction false} ChainTableKeys(merges: seq<Merge>)
    ensures forall pdid :: pdid in ChainTable(merges) <==> WasMergedAway(merges, pdid)
  {
    if merges != [] {
      var init, last := merges[..|merges| - 1], merges[|merges| - 1];
      ChainTableKeys(init);
      assert forall m :: m in merges <==> m in init || m == last;
    }
  }

  /** A new row leaves the chain up to its old end as it was. */
  lemma {:induction false} NewRowKeepsChain(table: Table, source: string, target: string, x: string, n: nat)
    requires source !in table && Steps(Hop(table), x, n).Some?
    ensures Steps(Hop(table[source := target]), x, n) == Steps(Hop(table), x, n)
  {
    if n > 0 {
      NewRowKeepsChain(table, source, target, x, n - 1);
    }
  }

  /** Following the whole DIS chain from any PDID ends at its survivor, which is not merged
      away, after at most as many hops as there were merges. */
  lemma {:induction false} ChainEndsAtSurvivor(merges: seq<Merge>, pdid: string) returns (hops: nat)
    requires ValidHistory(merges)
    ensures hops <= |merges|
    ensures EndsIn(Hop(ChainTable(merges)), pdid, hops, Survivor(merges, pdid))
    ensures !WasMergedAway(merges, Survivor(merges, pdid))
  {
    ChainTableKeys(merges);
    if merges == [] {
      hops := 0;
    } else {
      var init, last := merges[..|merges| - 1], merges[|merges| - 1];
      ChainTableKeys(init);
      hops := ChainEndsAtSurvivor(init, pdid);
      NewRowKeepsChain(ChainTable(init), last.source, last.target, pdid, hops);
      if Survivor(init, pdid) == last.source {
        hops := hops + 1;
      }
    }
  }

  datatype Resolution = Resolved(pdid: string) | RedirectCycle | DepthExceeded

  ghost predicate Revisits(table: Table, pdid: string, limit: nat) {
    exists k: nat, j: nat :: k < j <= limit
      && Steps(Hop(table), pdid, j).Some? && Steps(Hop(table), pdid, k) == Steps(Hop(table), pdid, j)
  }

  /** What resolution may answer on any table at all: the end of a chain of at most seven hops,
      a cycle met within eight hops, or a chain of eight hops without repetition. */
  ghost predicate IsResolution(table: Table, pdid: string, r: Resolution) {
    match r
    case Resolved(end) => exists n :: 0 <= n <= 7 && EndsIn(Hop(table), pdid, n, end)
    case RedirectCycle => Revisits(table, pdid, 8)
    case DepthExceeded => Steps(Hop(table), pdid, 8).Some? && !Revisits(table, pdid, 8)
  }

  /** Follows at most eight rows, remembering what it has seen. */
  method ResolvePDID(table: Table, pdid: string) returns (r: Resolution)
    ensures IsResolution(table, pdid, r)
  {
    var current := pdid;
    var seen := {current};
    for i := 0 to 8
      invariant Steps(Hop(table), pdid, i) == Some(current)
      invariant forall s :: s in seen <==> exists k: nat :: k <= i && Steps(Hop(table), pdid, k) == Some(s)
      invariant !Revisits(table, pdid, i)
    {
      if current !in table {
        assert EndsIn(Hop(table), pdid, i, current);
        return Resolved(current);
      }
      var next := table[current];
      assert Steps(Hop(table), pdid, i + 1) == Some(next);
      if next in seen {
        ghost var k: nat :| k <= i && Steps(Hop(table), pdid, k) == Some(next);
        assert Revisits(table, pdid, 8);
        return RedirectCycle;
      }
      NoNewRevisit(table, pdid, i, seen, next);
      seen := seen + {next};
      current := next;
    }
    return DepthExceeded;
  }

  lemma NoNewRevisit(table: Table, pdid: string, i: nat, seen: set<string>, next: string)
    requires !Revisits(table, pdid, i) && Steps(Hop(table), pdid, i + 1) == Some(next) && next !in seen
    requires forall s :: s in seen <==> exists k: nat :: k <= i && Steps(Hop(table), pdid, k) == Some(s)
    ensures !Revisits(table, pdid, i + 1)
  {
    forall k: nat, j: nat | k < j <= i + 1 && Steps(Hop(table), pdid, j).Some?
      ensures Steps(Hop(table), pdid, k) != Steps(Hop(table), pdid, j)
    {
    }
  }

  lemma RevisitNeverEnds(table: Table, pdid: string, limit: nat, n: nat, y: string)
    requires Revisits(table, pdid, limit)
    ensures !EndsIn(Hop(table), pdid, n, y)
  {
    var k: nat, j: nat :| k < j <= limit && Steps(Hop(table), pdid, j).Some?
      && Steps(Hop(table), pdid, k) == Steps(Hop(table), pdid, j);
    if EndsIn(Hop(table), pdid, n, y) {
      PastTheEnd(Hop(table), pdid, n, y, j);
      EndingChainNeverRevisits(Hop(table), pdid, n, y, k, j);
    }
  }

  /** Over any history of merges, resolution finds no cycle; it returns the live survivor when
      the chain has at most seven hops, and gives up exactly on longer ones. */
  lemma ResolutionOfHistory(merges: seq<Merge>, pdid: string, r: Resolution) returns (hops: nat)
    requires ValidHistory(merges) && IsResolution(ChainTable(merges), pdid, r)
    ensures EndsIn(Hop(ChainTable(merges)), pdid, hops, Survivor(merges, pdid))
    ensures r == if hops <= 7 then Resolved(Survivor(merges, pdid)) else DepthExceeded
    ensures !WasMergedAway(merges, Survivor(merges, pdid))
  {
    var table := ChainTable(merges);
    hops := ChainEndsAtSurvivor(merges, pdid);
    PastTheEnd(Hop(table), pdid, hops, Survivor(merges, pdid), 8);
    if Revisits(table, pdid, 8) {
      RevisitNeverEnds(table, pdid, 8, hops, Survivor(merges, pdid));
    }
    if r.Resolved? {
      var n :| 0 <= n <= 7 && EndsIn(Hop(table), pdid, n, r.pdid);
      EndIsUnique(Hop(table), pdid, n, r.pdid, hops, Survivor(merges, pdid));
    }
  }

  /** A device that is merged again and again, each time under a longer name. */
  function Name(n: nat): string {
    seq(n + 1, i => 'x')
  }

  ghost function Renamings(n: nat): seq<Merge> {
    if n == 0 then [] else Renamings(n - 1) + [Merge(Name(n - 1), Name(n))]
  }

  lemma NamesDiffer(a: nat, b: nat)
    ensures Name(a) == Name(b) <==> a == b
  {
    assert |Name(a)| == a + 1 && |Name(b)| == b + 1;
  }

  lemma {:induction false} RenamedAway(n: nat, pdid: string)
    ensures WasMergedAway(Renamings(n), pdid) <==> exists k: nat :: k < n && pdid == Name(k)
  {
    if n > 0 {
      RenamedAway(n - 1, pdid);
      assert forall m :: m in Renamings(n) <==> m in Renamings(n - 1) || m == Merge(Name(n - 1), Name(n));
    }
  }

  lemma StillLive(n: nat, k: nat)
    requires k >= n
    ensures !WasMergedAway(Renamings(n), Name(k))
  {
    RenamedAway(n, Name(k));
    forall j: nat | j < n ensures Name(j) != Name(k) {
      NamesDiffer(j, k);
    }
  }

  lemma {:induction false} RenamingsAreValid(n: nat)
    ensures ValidHistory(Renamings(n)) && forall m | m in Renamings(n) :: m.source != "" && m.target != ""
  {
    if n > 0 {
      RenamingsAreValid(n - 1);
      assert Renamings(n)[..|Renamings(n)| - 1] == Renamings(n - 1);
      NamesDiffer(n - 1, n);
      StillLive(n - 1, n - 1);
      StillLive(n - 1, n);
    }
  }

  lemma OneMoreHop(table: Table, source: string, target: string, x: string, n: nat)
    requires source !in table && Steps(Hop(table), x, n) == Some(source)
    ensures Steps(Hop(table[source := target]), x, n + 1) == Some(target)
  {
    NewRowKeepsChain(table, source, target, x, n);
  }

  lemma {:induction false} RenamingsAreOneChain(n: nat)
    ensures Survivor(Renamings(n), Name(0)) == Name(n)
    ensures Steps(Hop(ChainTable(Renamings(n))), Name(0), n) == Some(Name(n))
  {
    if n > 0 {
      RenamingsAreOneChain(n - 1);
      var init, last := Renamings(n - 1), Merge(Name(n - 1), Name(n));
      assert Renamings(n)[..|Renamings(n)| - 1] == init;
      StillLive(n - 1, n - 1);
      ChainTableKeys(init);
      OneMoreHop(ChainTable(init), last.source, last.target, Name(0), n - 1);
    }
  }

  /** Eight renamings of one device in a row are more than resolution follows, though the device
      is live under its last name. */
  lemma LongChainIsGivenUp(n: nat, r: Resolution)
    requires n >= 8 && IsResolution(ChainTable(Renamings(n)), Name(0), r)
    ensures ValidHistory(Renamings(n)) && (forall m | m in Renamings(n) :: m.source != "" && m.target != "")
    ensures Survivor(Renamings(n), Name(0)) == Name(n)
    ensures !WasMergedAway(Renamings(n), Name(n)) && r == DepthExceeded
  {
    RenamingsAreValid(n);
    RenamingsAreOneChain(n);
    StillLive(n, n);
    ChainTableKeys(Renamings(n));
    var hops := ResolutionOfHistory(Renamings(n), Name(0), r);
    EndIsUnique(Hop(ChainTable(Renamings(n))), Name(0), n, Name(n), hops, Name(n));
  }

  // ----- LIAS: compressed rows

  /** The redirect part of a migration: rows that led to the old PDID lead to the new one, and
      the old PDID gets a row of its own. */
  function Compress(table: Table, oldPdid: string, newPdid: string): Table {
    (map k | k in table :: if table[k] == oldPdid then newPdid else table[k])[oldPdid := newPdid]
  }

  ghost function CompressedTable(merges: seq<Merge>): Table {
    if merges == [] then map[]
    else
      var last := merges[|merges| - 1];
      Compress(CompressedTable(merges[..|merges| - 1]), last.source, last.target)
  }

  /** One lookup; a PDID without a row stands for itself. */
  function Lookup(table: Table, pdid: string): string {
    if pdid in table then table[pdid] else pdid
  }

  ghost predicate OneHop(table: Table) {
    forall k | k in table :: table[k] !in table
  }

  /** Compression keeps targets from being sources exactly when the new PDID is not itself one
      and differs from the old. */
  lemma CompressKeepsOneHop(table: Table, oldPdid: string, newPdid: string)
    requires OneHop(table) && oldPdid !in table
    ensures OneHop(Compress(table, oldPdid, newPdid)) <==> newPdid !in table && newPdid != oldPdid
  {
    var t := Compress(table, oldPdid, newPdid);
    if OneHop(t) {
      assert t[oldPdid] !in t;
    }
  }

  /** LIAS's single lookup gives the survivor that following the whole DIS chain gives, and no
      LIAS target is itself a source. */
  lemma {:induction false} OneLookupGivesSurvivor(merges: seq<Merge>)
    requires ValidHistory(merges)
    ensures forall pdid :: Lookup(CompressedTable(merges), pdid) == Survivor(merges, pdid)
    ensures forall pdid :: pdid in CompressedTable(merges) <==> WasMergedAway(merges, pdid)
    ensures OneHop(CompressedTable(merges))
  {
    if merges != [] {
      var init, last := merges[..|merges| - 1], merges[|merges| - 1];
      OneLookupGivesSurvivor(init);
      assert forall m :: m in merges <==> m in init || m == last;
      CompressKeepsOneHop(CompressedTable(init), last.source, last.target);
    }
  }
}
