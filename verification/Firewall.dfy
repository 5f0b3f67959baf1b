/** The firewall mirror: a builder that keeps six kernel sets equal to what the devices call
    for by sending differences only, and a controller that loses its set handles when a
    connection is rebuilt badly. */
module Firewall {
  import opened Options
  import opened ScheduleModel

  /** Parsed addresses.  An IPv4-mapped IPv6 address parses as `V4`. */
  datatype Address = V4(bits: bv32) | V6(wide: bv128) | Mac(octets: seq<bv8>)

  datatype SetName = AllowedIPs | BlockedIPs | AllowedMACs | BlockedMACs | AllowedIP6s | BlockedIP6s

  /** One set of addresses for each of the six names. */
  type SetTable = t: map<SetName, set<Address>> | forall name: SetName :: name in t
    witness map name: SetName :: {}

  const EMPTY: SetTable := map name: SetName :: {}

  const ALL: set<SetName> := {AllowedIPs, BlockedIPs, AllowedMACs, BlockedMACs, AllowedIP6s, BlockedIP6s}

  lemma InAll(name: SetName)
    ensures name in ALL
  {
    match name
    case AllowedIPs =>
    case BlockedIPs =>
    case AllowedMACs =>
    case BlockedMACs =>
    case AllowedIP6s =>
    case BlockedIP6s =>
  }

  // ----- what the devices call for

  /** Address texts as the parser sees them: `None` is a text that does not parse. */
  datatype FirewallDevice = FirewallDevice(
    online: bool, infrastructure: bool, ips: seq<Option<Address>>, macs: seq<Option<Address>>)

  function EffectiveAction(d: FirewallDevice, action: Action): Action {
    if d.infrastructure then Allow else action
  }

  /** The kind of address a set holds. */
  predicate Fits(name: SetName, a: Address) {
    match name
    case AllowedIPs => a.V4?
    case BlockedIPs => a.V4?
    case AllowedIP6s => a.V6?
    case BlockedIP6s => a.V6?
    case AllowedMACs => a.Mac? && |a.octets| == 6
    case BlockedMACs => a.Mac? && |a.octets| == 6
  }

  predicate IsAllowSet(name: SetName) {
    name == AllowedIPs || name == AllowedIP6s || name == AllowedMACs
  }

  /** The device puts the address into the set. */
  ghost predicate Contributes(d: FirewallDevice, action: Action, name: SetName, a: Address) {
    && Fits(name, a)
    && Some(a) in (if a.Mac? then d.macs else d.ips)
    && (if IsAllowSet(name) then EffectiveAction(d, action) == Allow && (d.online || d.infrastructure)
        else EffectiveAction(d, action) == Block)
  }

  /** The table holds exactly what the devices contribute. */
  ghost predicate Mirrors(t: SetTable, devices: seq<FirewallDevice>, verdict: FirewallDevice -> Action) {
    forall name: SetName, a ::
      a in t[name] <==> exists d :: d in devices && Contributes(d, verdict(d), name, a)
  }

  // ----- the state shared by builder, controller and kernel

  datatype State = State(connected: bool, handles: set<SetName>, kernel: SetTable, current: SetTable)

  /** How the environment treats one flush: whether the kernel takes the batch, and if not, how
      the connection is rebuilt and what the kernel sets hold afterwards. */
  datatype Reinit = NoConnection | InitFailsEarly | InitRegisters
  datatype Weather = Weather(commits: bool, reinit: Reinit, kernelAfter: SetTable)

  function Additions(current: SetTable, desired: SetTable): SetTable {
    map name: SetName :: desired[name] - current[name]
  }

  function Removals(current: SetTable, desired: SetTable): SetTable {
    map name: SetName :: current[name] - desired[name]
  }

  /** The part of a change that reaches the kernel: sets without a handle are skipped. */
  ghost function Reaching(handles: set<SetName>, t: SetTable): SetTable {
    map name: SetName :: if name in handles then t[name] else {}
  }

  predicate Deletable(kernel: SetTable, adds: SetTable, rems: SetTable) {
    forall name: SetName :: rems[name] <= kernel[name] + adds[name]
  }

  function Updated(kernel: SetTable, adds: SetTable, rems: SetTable): SetTable {
    map name: SetName :: kernel[name] + adds[name] - rems[name]
  }

  function HandlesAfter(handles: set<SetName>, reinit: Reinit): set<SetName> {
    match reinit
    case NoConnection => handles
    case InitFailsEarly => {}
    case InitRegisters => ALL
  }

  /** What one `Apply` on a live connection leads to. */
  datatype Applied = Applied(handles: set<SetName>, kernel: SetTable, ok: bool)

  /** An empty batch is not sent at all, and the kernel refuses a batch that deletes an element
      it does not hold. */
  ghost function ApplyStep(handles: set<SetName>, kernel: SetTable, adds: SetTable, rems: SetTable,
      w: Weather): Applied {
    var queuedAdds, queuedRems := Reaching(handles, adds), Reaching(handles, rems);
    if queuedAdds == EMPTY && queuedRems == EMPTY then Applied(handles, kernel, true)
    else if w.commits && Deletable(kernel, queuedAdds, queuedRems) then
      Applied(handles, Updated(kernel, queuedAdds, queuedRems), true)
    else Applied(HandlesAfter(handles, w.reinit), w.kernelAfter, false)
  }

  /** One synchronisation: the new state, and whether it reported success. */
  ghost function SyncStep(s: State, desired: SetTable, w: Weather): (State, bool) {
    var adds, rems := Additions(s.current, desired), Removals(s.current, desired);
    if adds == EMPTY && rems == EMPTY then (s, true)
    else if !s.connected then (s.(current := EMPTY), false)
    else
      var r := ApplyStep(s.handles, s.kernel, adds, rems, w);
      (State(s.connected, r.handles, r.kernel, if r.ok then desired else EMPTY), r.ok)
  }

  // ----- the controller

  /** The order in which `Apply` queues the six sets. */
  const NAMES: seq<SetName> := [AllowedIPs, AllowedMACs, BlockedIPs, BlockedMACs, AllowedIP6s, BlockedIP6s]

  lemma NamesAreAll()
    ensures forall name: SetName :: name in NAMES
  {
    forall name: SetName ensures name in NAMES {
      match name
      case AllowedIPs => assert NAMES[0] == name;
      case AllowedMACs => assert NAMES[1] == name;
      case BlockedIPs => assert NAMES[2] == name;
      case BlockedMACs => assert NAMES[3] == name;
      case AllowedIP6s => assert NAMES[4] == name;
      case BlockedIP6s => assert NAMES[5] == name;
    }
  }

  ghost function Members(xs: seq<Address>): set<Address> {
    set a | a in xs
  }

  /** The lists of a diff, one pair for each set. */
  datatype SetDiff = SetDiff(toAdd: map<SetName, seq<Address>>, toRem: map<SetName, seq<Address>>)

  ghost predicate DiffHolds(diff: SetDiff, adds: SetTable, rems: SetTable) {
    forall name: SetName ::
      && name in diff.toAdd && name in diff.toRem
      && Members(diff.toAdd[name]) == adds[name] && Members(diff.toRem[name]) == rems[name]
  }

  ghost predicate AllFit(t: SetTable) {
    forall name: SetName :: forall a | a in t[name] :: Fits(name, a)
  }

  class Controller {
    var connected: bool
    var handles: set<SetName>

    /** What the kernel sets hold; the kernel and the other programs on the host write it too. */
    var kernel: SetTable

    /** The batch queued on the connection. */
    var queuedAdds: SetTable
    var queuedRems: SetTable

    constructor (connected: bool, handles: set<SetName>, kernel: SetTable)
      ensures this.connected == connected && this.handles == handles && this.kernel == kernel
    {
      this.connected, this.handles, this.kernel := connected, handles, kernel;
      queuedAdds, queuedRems := EMPTY, EMPTY;
    }

    /** Queues the elements of one set, keeping only addresses of its kind. */
    method QueueElements(name: SetName, toAdd: seq<Address>, toRem: seq<Address>)
      modifies this`queuedAdds, this`queuedRems
      ensures name !in handles ==> queuedAdds == old(queuedAdds) && queuedRems == old(queuedRems)
      ensures name in handles ==>
                && queuedAdds == old(queuedAdds)[name := Kept(name, toAdd)]
                && queuedRems == old(queuedRems)[name := Kept(name, toRem)]
    {
      if name !in handles {
        return;
      }
      var addEls := Filter(name, toAdd);
      queuedAdds := queuedAdds[name := addEls];
      var remEls := Filter(name, toRem);
      queuedRems := queuedRems[name := remEls];
    }

    method Apply(diff: SetDiff, ghost adds: SetTable, ghost rems: SetTable, w: Weather) returns (ok: bool)
      requires DiffHolds(diff, adds, rems) && AllFit(adds) && AllFit(rems)
      modifies this
      ensures connected == old(connected)
      ensures !connected ==> !ok && handles == old(handles) && kernel == old(kernel)
      ensures connected ==> Applied(handles, kernel, ok) == ApplyStep(old(handles), old(kernel), adds, rems, w)
    {
      if !connected {
        return false;
      }
      QueueAll(diff, adds, rems);
      ok := Flush(adds, rems, w);
    }

    /** The six calls that queue one set each. */
    method QueueAll(diff: SetDiff, ghost adds: SetTable, ghost rems: SetTable)
      requires DiffHolds(diff, adds, rems) && AllFit(adds) && AllFit(rems)
      modifies this`queuedAdds, this`queuedRems
      ensures queuedAdds == Reaching(handles, adds) && queuedRems == Reaching(handles, rems)
    {
      queuedAdds, queuedRems := EMPTY, EMPTY;
      for i := 0 to |NAMES|
        invariant QueuedSoFar(queuedAdds, adds, handles, i) && QueuedSoFar(queuedRems, rems, handles, i)
      {
        QueueNext(diff, adds, rems, i);
      }
      AllQueued(queuedAdds, adds, handles);
      AllQueued(queuedRems, rems, handles);
    }

    method QueueNext(diff: SetDiff, ghost adds: SetTable, ghost rems: SetTable, i: nat)
      requires i < |NAMES| && DiffHolds(diff, adds, rems) && AllFit(adds) && AllFit(rems)
      requires QueuedSoFar(queuedAdds, adds, handles, i) && QueuedSoFar(queuedRems, rems, handles, i)
      modifies this`queuedAdds, this`queuedRems
      ensures QueuedSoFar(queuedAdds, adds, handles, i + 1) && QueuedSoFar(queuedRems, rems, handles, i + 1)
    {
      var name := NAMES[i];
      DiffKept(diff, adds, rems, name);
      ghost var qa, qr := queuedAdds, queuedRems;
      QueueElements(name, diff.toAdd[name], diff.toRem[name]);
      QueuedNext(qa, queuedAdds, adds, handles, i);
      QueuedNext(qr, queuedRems, rems, handles, i);
    }

    /** Sends the batch; an empty batch is not sent at all.  On failure the connection is
        rebuilt. */
    method Flush(ghost adds: SetTable, ghost rems: SetTable, w: Weather) returns (ok: bool)
      requires queuedAdds == Reaching(handles, adds) && queuedRems == Reaching(handles, rems)
      modifies this`handles, this`kernel
      ensures Applied(handles, kernel, ok) == ApplyStep(old(handles), old(kernel), adds, rems, w)
    {
      if queuedAdds == EMPTY && queuedRems == EMPTY {
        return true;
      }
      ok := w.commits && Deletable(kernel, queuedAdds, queuedRems);
      if ok {
        kernel := Updated(kernel, queuedAdds, queuedRems);
      } else {
        handles := HandlesAfter(handles, w.reinit);
        kernel := w.kernelAfter;
      }
    }
  }

  ghost predicate QueuedSoFar(queued: SetTable, t: SetTable, handles: set<SetName>, i: nat)
    requires i <= |NAMES|
  {
    forall name: SetName :: queued[name] == if name in handles && name in NAMES[..i] then t[name] else {}
  }

  lemma DiffKept(diff: SetDiff, adds: SetTable, rems: SetTable, name: SetName)
    requires DiffHolds(diff, adds, rems) && AllFit(adds) && AllFit(rems)
    ensures Kept(name, diff.toAdd[name]) == adds[name] && Kept(name, diff.toRem[name]) == rems[name]
  {
    FilterKeepsAll(name, diff.toAdd[name], adds[name]);
    FilterKeepsAll(name, diff.toRem[name], rems[name]);
  }

  lemma QueuedNext(queued: SetTable, more: SetTable, t: SetTable, handles: set<SetName>, i: nat)
    requires i < |NAMES| && QueuedSoFar(queued, t, handles, i)
    requires more == if NAMES[i] in handles then queued[NAMES[i] := t[NAMES[i]]] else queued
    ensures QueuedSoFar(more, t, handles, i + 1)
  {
    assert NAMES[..i + 1] == NAMES[..i] + [NAMES[i]];
  }

  lemma AllQueued(queued: SetTable, t: SetTable, handles: set<SetName>)
    requires QueuedSoFar(queued, t, handles, |NAMES|)
    ensures queued == Reaching(handles, t)
  {
    NamesAreAll();
    assert NAMES[..|NAMES|] == NAMES;
  }

  /** The addresses of a list that are of the kind the set holds. */
  ghost function Kept(name: SetName, xs: seq<Address>): set<Address> {
    set a | a in xs && Fits(name, a)
  }

  method Filter(name: SetName, xs: seq<Address>) returns (r: set<Address>)
    ensures r == Kept(name, xs)
  {
    r := {};
    for i := 0 to |xs|
      invariant r == Kept(name, xs[..i])
    {
      assert xs[..i + 1] == xs[..i] + [xs[i]];
      if Fits(name, xs[i]) {
        r := r + {xs[i]};
      }
    }
    assert xs[..|xs|] == xs;
  }

  lemma FilterKeepsAll(name: SetName, xs: seq<Address>, members: set<Address>)
    requires Members(xs) == members && forall a | a in members :: Fits(name, a)
    ensures Kept(name, xs) == members
  {
    assert forall a :: a in Members(xs) <==> a in xs;
  }

  // ----- the builder

  /** Adds the parsed addresses of one list to the sets they belong to. */
  method AddAddresses(before: SetTable, xs: seq<Option<Address>>, macs: bool, allow: bool) returns (t: SetTable)
    ensures forall name: SetName, a :: a in t[name] <==>
              a in before[name] || (Fits(name, a) && IsAllowSet(name) == allow && a.Mac? == macs && Some(a) in xs)
  {
    t := before;
    for i := 0 to |xs|
      invariant forall name: SetName, a :: a in t[name] <==>
        a in before[name] || (Fits(name, a) && IsAllowSet(name) == allow && a.Mac? == macs && Some(a) in xs[..i])
    {
      assert forall a :: Some(a) in xs[..i + 1] <==> Some(a) in xs[..i] || xs[i] == Some(a);
      if xs[i].Some? {
        t := AddAddress(t, xs[i].value, macs, allow);
      }
    }
    assert xs[..|xs|] == xs;
  }

  method AddAddress(before: SetTable, a: Address, macs: bool, allow: bool) returns (t: SetTable)
    ensures forall name: SetName, b :: b in t[name] <==>
              b in before[name] || (b == a && Fits(name, a) && IsAllowSet(name) == allow && a.Mac? == macs)
  {
    t := before;
    if macs {
      if a.Mac? && |a.octets| == 6 {
        t := Put(t, if allow then AllowedMACs else BlockedMACs, a);
      }
    } else if a.V4? {
      t := Put(t, if allow then AllowedIPs else BlockedIPs, a);
    } else if a.V6? {
      t := Put(t, if allow then AllowedIP6s else BlockedIP6s, a);
    }
  }

  function Put(t: SetTable, name: SetName, a: Address): SetTable {
    t[name := t[name] + {a}]
  }

  /** The loop over the devices. */
  method CollectDesired(devices: seq<FirewallDevice>, verdict: FirewallDevice -> Action) returns (desired: SetTable)
    ensures Mirrors(desired, devices, verdict)
  {
    desired := EMPTY;
    for i := 0 to |devices|
      invariant Mirrors(desired, devices[..i], verdict)
    {
      var d := devices[i];
      assert devices[..i + 1] == devices[..i] + [d];
      var action := verdict(d);
      var isInfra := d.infrastructure;
      if isInfra { action := Allow; }
      match action
      case Allow =>
        if !d.online && !isInfra { continue; }
        desired := AddAddresses(desired, d.ips, false, true);
        desired := AddAddresses(desired, d.macs, true, true);
      case Block =>
        desired := AddAddresses(desired, d.ips, false, false);
        desired := AddAddresses(desired, d.macs, true, false);
      case Schedule =>
    }
    assert devices[..|devices|] == devices;
  }

  lemma MirrorsFits(t: SetTable, devices: seq<FirewallDevice>, verdict: FirewallDevice -> Action)
    requires Mirrors(t, devices, verdict)
    ensures AllFit(t)
  {
  }

  /** What to add to and remove from one set. */
  method Diff(desired: set<Address>, current: set<Address>) returns (toAdd: seq<Address>, toRem: seq<Address>)
    ensures Members(toAdd) == desired - current && Members(toRem) == current - desired
  {
    toAdd := Missing(desired, current);
    toRem := Missing(current, desired);
  }

  /** The loop over one map, in any order. */
  method Missing(these: set<Address>, those: set<Address>) returns (r: seq<Address>)
    ensures Members(r) == these - those
  {
    r := [];
    var remaining := these;
    while remaining != {}
      invariant remaining <= these && Members(r) == these - remaining - those
      decreases remaining
    {
      var a :| a in remaining;
      remaining := remaining - {a};
      ghost var before := r;
      if a !in those {
        r := r + [a];
        assert Members(r) == Members(before) + {a};
      }
    }
  }

  lemma EmptyDiff(desired: set<Address>, current: set<Address>, toAdd: seq<Address>, toRem: seq<Address>)
    requires Members(toAdd) == desired - current && Members(toRem) == current - desired
    ensures toAdd == [] && toRem == [] <==> desired == current
  {
    NoMembers(toAdd);
    NoMembers(toRem);
    if toAdd == [] && toRem == [] {
      assert desired - current == {} && current - desired == {};
    }
  }

  lemma NoMembers(xs: seq<Address>)
    ensures xs == [] <==> Members(xs) == {}
  {
    if xs != [] {
      assert xs[0] in Members(xs);
    }
  }

  lemma EmptyChange(current: SetTable, desired: SetTable)
    ensures Additions(current, desired) == EMPTY && Removals(current, desired) == EMPTY <==>
            forall name: SetName :: desired[name] == current[name]
  {
    var adds, rems := Additions(current, desired), Removals(current, desired);
    if adds == EMPTY && rems == EMPTY {
      forall name: SetName ensures desired[name] == current[name] {
        assert adds[name] == EMPTY[name] && rems[name] == EMPTY[name];
      }
    }
    if forall name: SetName :: desired[name] == current[name] {
      assert forall name: SetName :: adds[name] == EMPTY[name] && rems[name] == EMPTY[name];
    }
  }

  lemma ChangesFit(current: SetTable, desired: SetTable)
    requires AllFit(current) && AllFit(desired)
    ensures AllFit(Additions(current, desired)) && AllFit(Removals(current, desired))
  {
  }

  class Builder {
    const controller: Controller
    var current: SetTable

    constructor (controller: Controller)
      ensures Valid() && this.controller == controller && current == EMPTY
    {
      this.controller := controller;
      current := EMPTY;
    }

    /** The last known sets hold addresses of the right kinds. */
    ghost predicate Valid()
      reads this
    {
      AllFit(current)
    }

    ghost function Snapshot(): State
      reads this, controller
    {
      State(controller.connected, controller.handles, controller.kernel, current)
    }

    method ResetState()
      modifies this
      ensures Valid() && current == EMPTY
    {
      current := EMPTY;
    }

    method DiffAll(desired: SetTable) returns (diff: SetDiff, empty: bool)
      ensures DiffHolds(diff, Additions(current, desired), Removals(current, desired))
      ensures empty <==> Additions(current, desired) == EMPTY && Removals(current, desired) == EMPTY
    {
      var toAdd: map<SetName, seq<Address>>, toRem: map<SetName, seq<Address>> := map[], map[];
      empty := true;
      for i := 0 to |NAMES|
        invariant forall name | name in NAMES[..i] ::
          && name in toAdd && Members(toAdd[name]) == desired[name] - current[name]
          && name in toRem && Members(toRem[name]) == current[name] - desired[name]
        invariant empty <==> forall name | name in NAMES[..i] :: desired[name] == current[name]
      {
        var name := NAMES[i];
        assert NAMES[..i + 1] == NAMES[..i] + [name];
        var add, rem := Diff(desired[name], current[name]);
        toAdd, toRem := toAdd[name := add], toRem[name := rem];
        EmptyDiff(desired[name], current[name], add, rem);
        if |add| != 0 || |rem| != 0 { empty := false; }
      }
      assert NAMES[..|NAMES|] == NAMES;
      NamesAreAll();
      EmptyChange(current, desired);
      diff := SetDiff(toAdd, toRem);
    }

    /** Brings the kernel from the last known sets to those the devices call for. */
    method Sync(devices: seq<FirewallDevice>, verdict: FirewallDevice -> Action, w: Weather)
      returns (ok: bool, ghost desired: SetTable)
      requires Valid()
      modifies this, controller
      ensures Valid()
      ensures Mirrors(desired, devices, verdict)
      ensures (Snapshot(), ok) == SyncStep(old(Snapshot()), desired, w)
    {
      var wanted := CollectDesired(devices, verdict);
      MirrorsFits(wanted, devices, verdict);
      desired := wanted;
      ok := SyncTo(wanted, w);
    }

    /** The part of `Sync` after the desired sets have been collected. */
    method SyncTo(desired: SetTable, w: Weather) returns (ok: bool)
      requires Valid() && AllFit(desired)
      modifies this, controller
      ensures Valid()
      ensures (Snapshot(), ok) == SyncStep(old(Snapshot()), desired, w)
    {
      var diff, empty := DiffAll(desired);
      if empty {
        return true;
      }
      ChangesFit(current, desired);
      ok := controller.Apply(diff, Additions(current, desired), Removals(current, desired), w);
      current := if ok then desired else EMPTY;
    }
  }
}
