/** What whole runs of the firewall mirror guarantee, and the verdicts of the rule chain over
    the mirrored sets. */
module FirewallRuns {
  import opened Options
  import opened ScheduleModel
  import opened Firewall
  import opened Bits

  // ----- one synchronisation

  /** The builder believes only what the kernel holds. */
  ghost predicate Tracking(s: State) {
    forall name: SetName :: s.current[name] <= s.kernel[name]
  }

  /** What the kernel holds beyond the builder's belief, left over from before a failure. */
  ghost function Stale(s: State, name: SetName): set<Address> {
    s.kernel[name] - s.current[name]
  }

  lemma AllReach(t: SetTable)
    ensures Reaching(ALL, t) == t
  {
    forall name: SetName ensures Reaching(ALL, t)[name] == t[name] {
      InAll(name);
    }
  }

  /** With all handles in place, the kernel refuses a batch only when the environment does:
      no removal is of an absent element, and no addition of an element the builder knows. */
  lemma RemovalsArePresent(kernel: SetTable, current: SetTable, desired: SetTable)
    requires forall name: SetName :: current[name] <= kernel[name]
    ensures Deletable(kernel, Additions(current, desired), Removals(current, desired))
    ensures forall name: SetName :: Additions(current, desired)[name] !! current[name]
    ensures kernel == current ==> forall name: SetName :: Additions(current, desired)[name] !! kernel[name]
  {
  }

  lemma UpdateEffect(kernel: SetTable, current: SetTable, desired: SetTable)
    requires forall name: SetName :: current[name] <= kernel[name]
    ensures var after := Updated(kernel, Additions(current, desired), Removals(current, desired));
      forall name: SetName :: after[name] == desired[name] + (kernel[name] - current[name])
  {
    var after := Updated(kernel, Additions(current, desired), Removals(current, desired));
    forall name: SetName ensures after[name] == desired[name] + (kernel[name] - current[name]) {
      assert after[name] == kernel[name] + (desired[name] - current[name]) - (current[name] - desired[name]);
    }
  }

  lemma NoChange(current: SetTable, desired: SetTable)
    requires Additions(current, desired) == EMPTY && Removals(current, desired) == EMPTY
    ensures current == desired
  {
    EmptyChange(current, desired);
  }

  /** A successful synchronisation makes the kernel hold what is desired and, beyond that, only
      what was stale before and is not desired now. */
  lemma SyncEffect(s: State, desired: SetTable, w: Weather)
    requires s.connected && s.handles == ALL && Tracking(s)
    ensures var (next, ok) := SyncStep(s, desired, w);
      && next.connected && Tracking(next)
      && (w.commits ==> ok)
      && (ok ==> next.handles == ALL && next.current == desired
                 && forall name: SetName :: next.kernel[name] == desired[name] + Stale(s, name))
      && (!ok ==> next.current == EMPTY && next.kernel == w.kernelAfter
                  && next.handles == if w.reinit.InitFailsEarly? then {} else ALL)
  {
    var adds, rems := Additions(s.current, desired), Removals(s.current, desired);
    if adds == EMPTY && rems == EMPTY {
      NoChange(s.current, desired);
    } else {
      AllReach(adds);
      AllReach(rems);
      RemovalsArePresent(s.kernel, s.current, desired);
      UpdateEffect(s.kernel, s.current, desired);
    }
  }

  // ----- runs

  datatype Input = Input(desired: SetTable, weather: Weather)

  ghost function RunState(s: State, inputs: seq<Input>): State
    decreases |inputs|
  {
    if inputs == [] then s
    else
      var last := inputs[|inputs| - 1];
      SyncStep(RunState(s, inputs[..|inputs| - 1]), last.desired, last.weather).0
  }

  ghost predicate LastSucceeded(s: State, inputs: seq<Input>)
    requires inputs != []
  {
    var last := inputs[|inputs| - 1];
    SyncStep(RunState(s, inputs[..|inputs| - 1]), last.desired, last.weather).1
  }

  lemma ExactStep(s: State, desired: SetTable, w: Weather)
    requires s.connected && s.handles == ALL && s.kernel == s.current && w.commits
    ensures SyncStep(s, desired, w) == (State(true, ALL, desired, desired), true)
  {
    SyncEffect(s, desired, w);
    var next := SyncStep(s, desired, w).0;
    assert forall name: SetName :: next.kernel[name] == desired[name];
    assert next.kernel == desired;
  }

  /** From empty sets, and as long as the kernel takes every batch, the kernel equals the
      desired sets after every synchronisation. */
  lemma {:induction false} MirrorIsExact(s: State, inputs: seq<Input>)
    requires s.connected && s.handles == ALL && s.kernel == s.current == EMPTY
    requires forall input | input in inputs :: input.weather.commits
    ensures var r := RunState(s, inputs);
      && r.connected && r.handles == ALL && r.kernel == r.current
      && (inputs != [] ==> r.kernel == inputs[|inputs| - 1].desired && LastSucceeded(s, inputs))
  {
    if inputs != [] {
      var init, last := inputs[..|inputs| - 1], inputs[|inputs| - 1];
      MirrorIsExact(s, init);
      var before := RunState(s, init);
      ExactStep(before, last.desired, last.weather);
    }
  }

  ghost predicate Holds(kernel: SetTable, desired: SetTable) {
    forall name: SetName :: desired[name] <= kernel[name]
  }

  lemma ReachingAt(handles: set<SetName>, t: SetTable, name: SetName)
    ensures Reaching(handles, t)[name] == if name in handles then t[name] else {}
  {
  }

  /** A synchronisation that reports success leaves the kernel with all that is desired exactly
      when the sets that are skipped for want of a handle held it already. */
  lemma SuccessHoldsIff(s: State, desired: SetTable, w: Weather)
    requires s.connected && Tracking(s) && SyncStep(s, desired, w).1
    ensures Holds(SyncStep(s, desired, w).0.kernel, desired) <==>
            forall name: SetName | name !in s.handles :: desired[name] <= s.kernel[name]
  {
    var adds, rems := Additions(s.current, desired), Removals(s.current, desired);
    var next := SyncStep(s, desired, w).0;
    if adds == EMPTY && rems == EMPTY {
      NoChange(s.current, desired);
    } else {
      forall name: SetName
        ensures desired[name] <= next.kernel[name] <==> name in s.handles || desired[name] <= s.kernel[name]
      {
        AppliedAt(s.handles, s.kernel, adds, rems, w, name);
        assert s.current[name] <= s.kernel[name];
      }
    }
  }

  /** The effect of an accepted batch on one set. */
  lemma AppliedAt(handles: set<SetName>, kernel: SetTable, adds: SetTable, rems: SetTable, w: Weather, name: SetName)
    requires ApplyStep(handles, kernel, adds, rems, w).ok
    ensures ApplyStep(handles, kernel, adds, rems, w).kernel[name] ==
            if name in handles then kernel[name] + adds[name] - rems[name] else kernel[name]
  {
    var queuedAdds, queuedRems := Reaching(handles, adds), Reaching(handles, rems);
    ReachingAt(handles, adds, name);
    ReachingAt(handles, rems, name);
    if queuedAdds == EMPTY && queuedRems == EMPTY {
      EmptyAt(queuedAdds, name);
      EmptyAt(queuedRems, name);
    } else {
      UpdatedAt(kernel, queuedAdds, queuedRems, name);
    }
  }

  lemma EmptyAt(t: SetTable, name: SetName)
    requires t == EMPTY
    ensures t[name] == {}
  {
  }

  lemma UpdatedAt(kernel: SetTable, adds: SetTable, rems: SetTable, name: SetName)
    ensures Updated(kernel, adds, rems)[name] == kernel[name] + adds[name] - rems[name]
  {
  }

  /** A rebuild has lost the set handles at some step of the run. */
  ghost predicate HandlesLost(s: State, inputs: seq<Input>)
    decreases |inputs|
  {
    inputs != [] &&
    var init, last := inputs[..|inputs| - 1], inputs[|inputs| - 1];
    HandlesLost(s, init) || (last.weather.reinit == InitFailsEarly && !LastSucceeded(s, inputs))
  }

  /** The handles are all there, and the builder believes only what the kernel holds, until a
      failed batch is followed by a rebuild that fails early; from then on there is none. */
  lemma {:induction false} HandlesAllOrNone(s: State, inputs: seq<Input>)
    requires s.connected && s.handles == ALL && Tracking(s)
    ensures var r := RunState(s, inputs);
      && r.connected && r.handles == (if HandlesLost(s, inputs) then {} else ALL)
      && (!HandlesLost(s, inputs) ==> Tracking(r))
  {
    if inputs != [] {
      var init, last := inputs[..|inputs| - 1], inputs[|inputs| - 1];
      HandlesAllOrNone(s, init);
      var before := RunState(s, init);
      if before.handles == ALL {
        SyncEffect(before, last.desired, last.weather);
      } else {
        SilentSuccess(before, last.desired, last.weather);
      }
      InAll(AllowedIPs);
    }
  }

  /** Over any run at all, whatever fails in between and whatever the kernel is left with: a
      synchronisation that reports success leaves the kernel with all that is desired exactly when
      no set was skipped for want of a handle, or the kernel held all that is desired before. */
  lemma MirrorRecoversIff(s: State, inputs: seq<Input>)
    requires s.connected && s.handles == ALL && Tracking(s)
    requires inputs != [] && LastSucceeded(s, inputs)
    ensures var before, desired := RunState(s, inputs[..|inputs| - 1]), inputs[|inputs| - 1].desired;
      Holds(RunState(s, inputs).kernel, desired) <==> before.handles == ALL || Holds(before.kernel, desired)
  {
    var init, last := inputs[..|inputs| - 1], inputs[|inputs| - 1];
    var before := RunState(s, init);
    HandlesAllOrNone(s, init);
    if before.handles == ALL {
      SyncEffect(before, last.desired, last.weather);
    } else {
      SilentSuccess(before, last.desired, last.weather);
    }
  }

  /** As long as no rebuild loses the set handles, every synchronisation that succeeds leaves the
      kernel with all that is desired. */
  lemma MirrorRecovers(s: State, inputs: seq<Input>)
    requires s.connected && s.handles == ALL && Tracking(s) && !HandlesLost(s, inputs)
    ensures var r := RunState(s, inputs);
      && r.connected && r.handles == ALL && Tracking(r)
      && (inputs != [] && LastSucceeded(s, inputs) ==> Holds(r.kernel, inputs[|inputs| - 1].desired))
  {
    HandlesAllOrNone(s, inputs);
    if inputs != [] {
      HandlesAllOrNone(s, inputs[..|inputs| - 1]);
      if LastSucceeded(s, inputs) {
        MirrorRecoversIff(s, inputs);
      }
    }
  }

  /** The handles do get lost: a first batch that the kernel refuses, and a rebuild that fails
      before it registers the sets. */
  lemma RefusedBatchLosesHandles(desired: SetTable, w: Weather)
    requires desired != EMPTY && !w.commits && w.reinit == InitFailsEarly
    ensures SyncStep(State(true, ALL, EMPTY, EMPTY), desired, w) == (State(true, {}, w.kernelAfter, EMPTY), false)
    ensures HandlesLost(State(true, ALL, EMPTY, EMPTY), [Input(desired, w)])
  {
    var adds, rems := Additions(EMPTY, desired), Removals(EMPTY, desired);
    assert adds == desired by {
      assert forall name: SetName :: adds[name] == desired[name];
    }
    AllReach(adds);
    AllReach(rems);
    assert [Input(desired, w)][..0] == [];
  }

  /** After a recovery the kernel equals the desired sets exactly when all that was left over
      is desired too. */
  lemma RecoveryExactIffNothingStale(s: State, desired: SetTable, w: Weather)
    requires s.connected && s.handles == ALL && Tracking(s) && SyncStep(s, desired, w).1
    ensures SyncStep(s, desired, w).0.kernel == desired <==>
            forall name: SetName :: Stale(s, name) <= desired[name]
  {
    SyncEffect(s, desired, w);
    var next := SyncStep(s, desired, w).0;
    if forall name: SetName :: Stale(s, name) <= desired[name] {
      assert forall name: SetName :: next.kernel[name] == desired[name];
    }
  }

  lemma NothingReaches(handles: set<SetName>, t: SetTable)
    requires forall name | name in handles :: t[name] == {}
    ensures Reaching(handles, t) == EMPTY
  {
    assert forall name: SetName :: Reaching(handles, t)[name] == EMPTY[name];
  }

  /** A batch of which nothing reaches the kernel is reported as a success. */
  lemma SilentSuccess(s: State, desired: SetTable, w: Weather)
    requires s.connected && forall name | name in s.handles :: desired[name] == s.current[name]
    ensures SyncStep(s, desired, w) == (s.(current := desired), true)
  {
    var adds, rems := Additions(s.current, desired), Removals(s.current, desired);
    NothingReaches(s.handles, adds);
    NothingReaches(s.handles, rems);
    if adds == EMPTY && rems == EMPTY {
      NoChange(s.current, desired);
    }
  }

  /** Without a handle for a set, an update of that set reports success and does not happen. */
  lemma MissingHandleLosesUpdate(s: State, name: SetName, a: Address, w: Weather)
    requires s.connected && name !in s.handles && a !in s.kernel[name]
    ensures var desired := s.current[name := s.current[name] + {a}];
      var (next, ok) := SyncStep(s, desired, w);
      ok && next.current == desired && a in desired[name] && a !in next.kernel[name]
  {
    SilentSuccess(s, s.current[name := s.current[name] + {a}], w);
  }

  /** Once a rebuild has lost the handles, every later synchronisation reports success and the
      kernel never changes again. */
  lemma {:induction false} LostHandlesFreezeTheKernel(s: State, inputs: seq<Input>)
    requires s.connected && s.handles == {}
    ensures var r := RunState(s, inputs);
      && r.connected && r.handles == {} && r.kernel == s.kernel
      && (inputs != [] ==> LastSucceeded(s, inputs))
  {
    if inputs != [] {
      var init, last := inputs[..|inputs| - 1], inputs[|inputs| - 1];
      LostHandlesFreezeTheKernel(s, init);
      SilentSuccess(RunState(s, init), last.desired, last.weather);
    }
  }

  // ----- the rule chain

  datatype Verdict = Accept | Drop

  /** What the rules read from a frame; a field is missing when the frame is too short for the
      bytes at its offset. */
  datatype Frame = Frame(
    sourceMac: Option<Address>, source4: Option<Address>, source6: Option<Address>,
    destination4: Option<bv32>, destination6: Option<bv128>)

  datatype Subnet = Subnet4(mask4: bv32, network4: bv32) | Subnet6(mask6: bv128, network6: bv128)

  datatype Rule = LanBypass(subnet: Subnet) | Lookup(name: SetName, verdict: Verdict) | AcceptRest

  predicate InSubnet(subnet: Subnet, f: Frame) {
    match subnet
    case Subnet4(mask, network) => f.destination4.Some? && f.destination4.value & mask == network
    case Subnet6(mask, network) => f.destination6.Some? && f.destination6.value & mask == network
  }

  /** The address a set is looked up with. */
  function FieldFor(name: SetName, f: Frame): Option<Address> {
    match name
    case AllowedMACs => f.sourceMac
    case BlockedMACs => f.sourceMac
    case AllowedIPs => f.source4
    case BlockedIPs => f.source4
    case AllowedIP6s => f.source6
    case BlockedIP6s => f.source6
  }

  predicate Listed(sets: SetTable, name: SetName, f: Frame) {
    FieldFor(name, f).Some? && FieldFor(name, f).value in sets[name]
  }

  const SET_RULES: seq<Rule> := [
    Lookup(BlockedMACs, Drop), Lookup(AllowedMACs, Accept),
    Lookup(BlockedIPs, Drop), Lookup(AllowedIPs, Accept),
    Lookup(BlockedIP6s, Drop), Lookup(AllowedIP6s, Accept),
    AcceptRest]

  function BypassRules(subnets: seq<Option<Subnet>>): seq<Rule> {
    if subnets == [] then []
    else
      BypassRules(subnets[..|subnets| - 1]) +
      match subnets[|subnets| - 1]
      case None => []
      case Some(subnet) => [LanBypass(subnet)]
  }

  /** The chain: a bypass for each LAN subnet that parses, then the lookups in fixed order. */
  method AddRules(subnets: seq<Option<Subnet>>) returns (rules: seq<Rule>)
    ensures rules == BypassRules(subnets) + SET_RULES
  {
    rules := [];
    for i := 0 to |subnets|
      invariant rules == BypassRules(subnets[..i])
    {
      assert subnets[..i + 1][..i] == subnets[..i];
      if subnets[i].None? { continue; }
      rules := rules + [LanBypass(subnets[i].value)];
    }
    assert subnets[..|subnets|] == subnets;
    rules := rules + [Lookup(BlockedMACs, Drop)];
    rules := rules + [Lookup(AllowedMACs, Accept)];
    rules := rules + [Lookup(BlockedIPs, Drop)];
    rules := rules + [Lookup(AllowedIPs, Accept)];
    rules := rules + [Lookup(BlockedIP6s, Drop)];
    rules := rules + [Lookup(AllowedIP6s, Accept)];
    rules := rules + [AcceptRest];
  }

  /** The first rule that matches decides. */
  function Judge(rules: seq<Rule>, sets: SetTable, f: Frame): Verdict {
    if rules == [] then Accept
    else
      match rules[0]
      case LanBypass(subnet) => if InSubnet(subnet, f) then Accept else Judge(rules[1..], sets, f)
      case Lookup(name, verdict) => if Listed(sets, name, f) then verdict else Judge(rules[1..], sets, f)
      case AcceptRest => Accept
  }

  ghost predicate Bypassed(subnets: seq<Option<Subnet>>, f: Frame) {
    exists subnet :: Some(subnet) in subnets && InSubnet(subnet, f)
  }

  lemma {:induction false} BypassFirst(rules: seq<Rule>, rest: seq<Rule>, sets: SetTable, f: Frame)
    requires forall rule | rule in rules :: rule.LanBypass?
    ensures Judge(rules + rest, sets, f) ==
            if exists subnet :: LanBypass(subnet) in rules && InSubnet(subnet, f) then Accept
            else Judge(rest, sets, f)
  {
    if rules == [] {
      assert rules + rest == rest;
    } else {
      assert (rules + rest)[1..] == rules[1..] + rest;
      assert rules == [rules[0]] + rules[1..];
      BypassFirst(rules[1..], rest, sets, f);
    }
  }

  lemma {:induction false} BypassRuleMembers(subnets: seq<Option<Subnet>>)
    ensures forall rule :: rule in BypassRules(subnets) <==> rule.LanBypass? && Some(rule.subnet) in subnets
  {
    if subnets != [] {
      BypassRuleMembers(subnets[..|subnets| - 1]);
      assert subnets == subnets[..|subnets| - 1] + [subnets[|subnets| - 1]];
    }
  }

  lemma JudgeSetRules(sets: SetTable, f: Frame)
    ensures Judge(SET_RULES, sets, f) ==
            if Listed(sets, BlockedMACs, f) then Drop
            else if Listed(sets, AllowedMACs, f) then Accept
            else if Listed(sets, BlockedIPs, f) then Drop
            else if Listed(sets, AllowedIPs, f) then Accept
            else if Listed(sets, BlockedIP6s, f) then Drop
            else Accept
  {
    var r := SET_RULES;
    assert r[1..][1..] == r[2..] && r[2..][1..] == r[3..] && r[3..][1..] == r[4..];
    assert r[4..][1..] == r[5..] && r[5..][1..] == r[6..];
    assert Judge(r[6..], sets, f) == Accept;
    assert Judge(r[5..], sets, f) == Accept;
    assert Judge(r[4..], sets, f) == if Listed(sets, BlockedIP6s, f) then Drop else Accept;
    assert Judge(r[3..], sets, f) == if Listed(sets, AllowedIPs, f) then Accept else Judge(r[4..], sets, f);
    assert Judge(r[2..], sets, f) == if Listed(sets, BlockedIPs, f) then Drop else Judge(r[3..], sets, f);
    assert Judge(r[1..], sets, f) == if Listed(sets, AllowedMACs, f) then Accept else Judge(r[2..], sets, f);
  }

  /** The frame has a destination of the family of the subnet, and that has the bits of the network
      where the mask has bits, the network having none elsewhere. */
  ghost predicate HeadsFor(subnet: Subnet, f: Frame) {
    match subnet
    case Subnet4(mask, network) => f.destination4.Some? && Masks32(f.destination4.value, mask, network)
    case Subnet6(mask, network) => f.destination6.Some? && Masks128(f.destination6.value, mask, network)
  }

  ghost predicate StaysInLan(subnets: seq<Option<Subnet>>, f: Frame) {
    exists subnet :: Some(subnet) in subnets && HeadsFor(subnet, f)
  }

  lemma InSubnetMeans(subnet: Subnet, f: Frame)
    ensures InSubnet(subnet, f) <==> HeadsFor(subnet, f)
  {
    if subnet.Subnet4? {
      InSubnet4Means(subnet, f);
    } else {
      InSubnet6Means(subnet, f);
    }
  }

  lemma InSubnet4Means(subnet: Subnet, f: Frame)
    requires subnet.Subnet4?
    ensures InSubnet(subnet, f) <==> HeadsFor(subnet, f)
  {
    if InSubnet(subnet, f) {
      InSubnet4Heads(subnet, f);
    }
    if HeadsFor(subnet, f) {
      Heads4InSubnet(subnet, f);
    }
  }

  lemma InSubnet4Heads(subnet: Subnet, f: Frame)
    requires subnet.Subnet4? && InSubnet(subnet, f)
    ensures HeadsFor(subnet, f)
  {
    MasksMeans32(f.destination4.value, subnet.mask4, subnet.network4);
  }

  lemma Heads4InSubnet(subnet: Subnet, f: Frame)
    requires subnet.Subnet4? && HeadsFor(subnet, f)
    ensures InSubnet(subnet, f)
  {
    MasksMeans32(f.destination4.value, subnet.mask4, subnet.network4);
  }

  lemma InSubnet6Means(subnet: Subnet, f: Frame)
    requires subnet.Subnet6?
    ensures InSubnet(subnet, f) <==> HeadsFor(subnet, f)
  {
    if InSubnet(subnet, f) {
      InSubnet6Heads(subnet, f);
    }
    if HeadsFor(subnet, f) {
      Heads6InSubnet(subnet, f);
    }
  }

  lemma InSubnet6Heads(subnet: Subnet, f: Frame)
    requires subnet.Subnet6? && InSubnet(subnet, f)
    ensures HeadsFor(subnet, f)
  {
    MaskedHas128(f.destination6.value, subnet.mask6, subnet.network6);
  }

  lemma Heads6InSubnet(subnet: Subnet, f: Frame)
    requires subnet.Subnet6? && HeadsFor(subnet, f)
    ensures InSubnet(subnet, f)
  {
    HasIsMasked128(f.destination6.value, subnet.mask6, subnet.network6);
  }

  /** A frame is bypassed exactly when its destination lies in a subnet that parsed. */
  lemma BypassedMeans(subnets: seq<Option<Subnet>>, f: Frame)
    ensures Bypassed(subnets, f) <==> StaysInLan(subnets, f)
  {
    forall subnet ensures InSubnet(subnet, f) <==> HeadsFor(subnet, f) {
      InSubnetMeans(subnet, f);
    }
  }

  /** A frame is dropped exactly when it leaves the LAN and its source MAC is blocked, or its source
      MAC is unknown and its source address is blocked. */
  lemma ChainDropsExactly(subnets: seq<Option<Subnet>>, sets: SetTable, f: Frame)
    ensures Judge(BypassRules(subnets) + SET_RULES, sets, f) == Drop <==>
            && !StaysInLan(subnets, f)
            && (|| Listed(sets, BlockedMACs, f)
                || (&& !Listed(sets, AllowedMACs, f)
                    && (|| Listed(sets, BlockedIPs, f)
                        || (!Listed(sets, AllowedIPs, f) && Listed(sets, BlockedIP6s, f)))))
  {
    BypassRuleMembers(subnets);
    BypassFirst(BypassRules(subnets), SET_RULES, sets, f);
    JudgeSetRules(sets, f);
    BypassedMeans(subnets, f);
    if Bypassed(subnets, f) {
      var subnet :| Some(subnet) in subnets && InSubnet(subnet, f);
      assert LanBypass(subnet) in BypassRules(subnets);
    }
  }

  ghost predicate OwnsMac(d: FirewallDevice, f: Frame) {
    f.sourceMac.Some? && f.sourceMac.value.Mac? && |f.sourceMac.value.octets| == 6 && f.sourceMac in d.macs
  }

  ghost predicate Owns4(d: FirewallDevice, f: Frame) {
    f.source4.Some? && f.source4.value.V4? && f.source4 in d.ips
  }

  ghost predicate Owns6(d: FirewallDevice, f: Frame) {
    f.source6.Some? && f.source6.value.V6? && f.source6 in d.ips
  }

  ghost predicate IsBlocked(d: FirewallDevice, verdict: FirewallDevice -> Action) {
    !d.infrastructure && verdict(d) == Block
  }

  /** Infrastructure is allowed whatever the verdict; any other device while it is online. */
  ghost predicate IsAllowed(d: FirewallDevice, verdict: FirewallDevice -> Action) {
    d.infrastructure || (verdict(d) == Allow && d.online)
  }

  lemma ListedMeans(
      sets: SetTable, devices: seq<FirewallDevice>, verdict: FirewallDevice -> Action, f: Frame)
    requires Mirrors(sets, devices, verdict)
    ensures Listed(sets, BlockedMACs, f) <==> exists d :: d in devices && IsBlocked(d, verdict) && OwnsMac(d, f)
    ensures Listed(sets, AllowedMACs, f) <==> exists d :: d in devices && IsAllowed(d, verdict) && OwnsMac(d, f)
    ensures Listed(sets, BlockedIPs, f) <==> exists d :: d in devices && IsBlocked(d, verdict) && Owns4(d, f)
    ensures Listed(sets, AllowedIPs, f) <==> exists d :: d in devices && IsAllowed(d, verdict) && Owns4(d, f)
    ensures Listed(sets, BlockedIP6s, f) <==> exists d :: d in devices && IsBlocked(d, verdict) && Owns6(d, f)
  {
    forall d, name: SetName, a
      ensures Contributes(d, verdict(d), name, a) <==>
              && (match name
                  case AllowedIPs => a.V4? && Some(a) in d.ips && IsAllowed(d, verdict)
                  case BlockedIPs => a.V4? && Some(a) in d.ips && IsBlocked(d, verdict)
                  case AllowedIP6s => a.V6? && Some(a) in d.ips && IsAllowed(d, verdict)
                  case BlockedIP6s => a.V6? && Some(a) in d.ips && IsBlocked(d, verdict)
                  case AllowedMACs => a.Mac? && |a.octets| == 6 && Some(a) in d.macs && IsAllowed(d, verdict)
                  case BlockedMACs => a.Mac? && |a.octets| == 6 && Some(a) in d.macs && IsBlocked(d, verdict))
    {
    }
  }

  /** When the kernel mirrors the devices, whose frame is dropped is settled by the devices alone: a
      frame that leaves the LAN from the MAC of a blocked device; or from one that no allowed device
      has, with the IPv4 address of a blocked device, or an IPv6 address of one when no allowed device
      has the IPv4 address. */
  lemma DevicesDecide(
      subnets: seq<Option<Subnet>>, sets: SetTable, devices: seq<FirewallDevice>,
      verdict: FirewallDevice -> Action, f: Frame)
    requires Mirrors(sets, devices, verdict)
    ensures Judge(BypassRules(subnets) + SET_RULES, sets, f) == Drop <==>
            && !StaysInLan(subnets, f)
            && (|| (exists d :: d in devices && IsBlocked(d, verdict) && OwnsMac(d, f))
                || (&& !(exists d :: d in devices && IsAllowed(d, verdict) && OwnsMac(d, f))
                    && (|| (exists d :: d in devices && IsBlocked(d, verdict) && Owns4(d, f))
                        || (&& !(exists d :: d in devices && IsAllowed(d, verdict) && Owns4(d, f))
                            && exists d :: d in devices && IsBlocked(d, verdict) && Owns6(d, f)))))
  {
    ChainDropsExactly(subnets, sets, f);
    ListedMeans(sets, devices, verdict, f);
  }

  /** When the kernel mirrors the devices, a frame that leaves the LAN is dropped if its source MAC
      belongs to a blocked device, and otherwise accepted if it belongs to an infrastructure or online
      allowed device, whatever the address sets say. */
  lemma MacDecides(
      subnets: seq<Option<Subnet>>, sets: SetTable, devices: seq<FirewallDevice>,
      verdict: FirewallDevice -> Action, d: FirewallDevice, f: Frame)
    requires Mirrors(sets, devices, verdict) && !StaysInLan(subnets, f)
    requires d in devices && OwnsMac(d, f)
    ensures IsBlocked(d, verdict) ==> Judge(BypassRules(subnets) + SET_RULES, sets, f) == Drop
    ensures && IsAllowed(d, verdict)
            && (forall other | other in devices && OwnsMac(other, f) :: !IsBlocked(other, verdict))
            ==> Judge(BypassRules(subnets) + SET_RULES, sets, f) == Accept
  {
    DevicesDecide(subnets, sets, devices, verdict, f);
  }
}
