/** What the global switch must be like for the two evaluators to agree on every device and in
    every state of the schedules: a condition on the policies alone. */
module PolicySwitch {
  import opened Options
  import opened ScheduleModel
  import opened PolicyModel
  import opened PolicyEngine
  import opened PolicyAgreement
  import Conflict = ScheduleConflict
  import Parser = ScheduleParser
  import Sched = ScheduleEngine
  import Sorting

  // ----- verdicts in every world

  ghost predicate PlusFreeTable(policies: PolicyTable) {
    forall id | id in policies :: Sched.PlusFree(policies[id].GetScheduleIDs())
  }

  /** The verdict comes to this action whatever the schedules are. */
  predicate AlwaysComesTo(v: Verdict, action: Action) {
    match v
    case Fixed(a) => a == action
    case Bundle(ids) => ids == [] && action == Allow
  }

  /** A world without schedules, in which every bundle that asks for one is blocked. */
  function BareWorld(): World {
    World(map[], map[], 0)
  }

  /** A world in which the given schedules exist and restrict nothing. */
  function OpenWorld(ids: seq<string>): World {
    World(map[], map id | id in ids :: ScheduleRecord(id, id, Downtime, "UTC", []), 0)
  }

  lemma OpenWorldAllows(policies: PolicyTable, ids: seq<string>)
    requires PlusFreeTable(policies) && ids != [] && Sched.PlusFree(ids)
    ensures CleanWorld(OpenWorld(ids), policies) && VerdictAction(OpenWorld(ids), Bundle(ids)) == Allow
  {
    var schedules := OpenWorld(ids).schedules;
    assert Sched.AllPresent(schedules, ids);
    var resolved := Sched.Resolve(schedules, ids);
    assert forall s | s in resolved :: s.rules == [] && s.timezone == "UTC" && s.mode == Downtime;
    NothingProjected(resolved);
    assert Sched.BundleComposite(schedules, ids) == Some(Conflict.Composite(resolved));
    assert Parser.MatchLengths([], 0) == [];
  }

  lemma {:induction false} NothingProjected(schedules: seq<ScheduleRecord>)
    requires forall s | s in schedules :: s.rules == [] && s.timezone == "UTC" && s.mode == Downtime
    ensures Conflict.Mergeable(schedules) && Conflict.AllSegments(schedules) == [] && Conflict.AllRules(schedules) == []
    ensures !Conflict.HasWhitelist(schedules)
  {
    if schedules != [] {
      var init, last := schedules[..|schedules| - 1], schedules[|schedules| - 1];
      NothingProjected(init);
      assert last in schedules && schedules[0] in schedules;
      assert Conflict.SegmentsOf(last, 0) == [];
    }
  }

  lemma AlwaysMeansInEveryWorld(policies: PolicyTable, v: Verdict, action: Action)
    requires PlusFreeTable(policies) && (v.Bundle? ==> Sched.PlusFree(v.ids))
    ensures AlwaysComesTo(v, action) <==> forall w | CleanWorld(w, policies) :: VerdictAction(w, v) == action
  {
    assert CleanWorld(BareWorld(), policies);
    if v.Bundle? && v.ids != [] {
      OpenWorldAllows(policies, v.ids);
      assert v.ids[0] in v.ids;
      assert VerdictAction(BareWorld(), v) == Block;
    }
  }

  // ----- one device

  predicate PolicyComesTo(p: Policy, action: Action) {
    AlwaysComesTo(PolicyVerdict(p, true), action)
  }

  /** What the tag policies say is silence or this action: a block outranks an allowance, and both
      outrank schedules. */
  ghost predicate TagsComeTo(policies: PolicyTable, tags: seq<string>, action: Action) {
    if TagActs(policies, tags, Block) then action == Block
    else if TagActs(policies, tags, Allow) then action == Allow
    else !exists s :: TagSchedule(policies, tags, s)
  }

  /** The device and tag layers are silent or come to this action, whatever the schedules are. */
  ghost predicate LayersComeTo(policies: PolicyTable, d: LocalDevice, action: Action) {
    if HasDevicePolicy(policies, d.pdid) then forall p | IsBest(policies, d.pdid, p) :: PolicyComesTo(p, action)
    else TagsComeTo(policies, d.tags, action)
  }

  lemma TagBundleExists(policies: PolicyTable, tags: seq<string>) returns (ids: seq<string>)
    ensures IsTagBundle(policies, tags, ids)
  {
    var attached := set tag, id, s | tag in tags && id in policies && TargetsTag(policies[id], tag)
      && policies[id].action == Schedule && s in policies[id].GetScheduleIDs() :: s;
    ids := KeysCanBeListed(attached);
  }

  lemma TagBundleIsPlusFree(policies: PolicyTable, tags: seq<string>, ids: seq<string>)
    requires PlusFreeTable(policies) && IsTagBundle(policies, tags, ids)
    ensures Sched.PlusFree(ids)
  {
    forall s | s in ids ensures '+' !in s {
      assert TagSchedule(policies, tags, s);
    }
  }

  lemma LayersComeToIff(policies: PolicyTable, d: LocalDevice, action: Action)
    requires PlusFreeTable(policies)
    ensures LayersComeTo(policies, d, action) <==>
            forall v | LayersDecide(policies, d, true, v) :: AlwaysComesTo(v, action)
  {
    if HasDevicePolicy(policies, d.pdid) {
      forall p | IsBest(policies, d.pdid, p) ensures LayersDecide(policies, d, true, PolicyVerdict(p, true)) {
      }
    } else if TagActs(policies, d.tags, Block) {
      assert LayersDecide(policies, d, true, Fixed(Block));
    } else if TagActs(policies, d.tags, Allow) {
      assert LayersDecide(policies, d, true, Fixed(Allow));
    } else if s :| TagSchedule(policies, d.tags, s) {
      var ids := TagBundleExists(policies, d.tags);
      assert LayersDecide(policies, d, true, Bundle(ids)) && s in ids;
    }
  }

  lemma DecidedVerdictIsPlusFree(policies: PolicyTable, d: LocalDevice, v: Verdict)
    requires PlusFreeTable(policies) && LayersDecide(policies, d, true, v)
    ensures v.Bundle? ==> Sched.PlusFree(v.ids)
  {
    if !HasDevicePolicy(policies, d.pdid) && v.Bundle? {
      TagBundleIsPlusFree(policies, d.tags, v.ids);
    }
  }

  /** Both evaluators come to an action. */
  lemma VerdictsExist(policies: PolicyTable, d: LocalDevice) returns (v: Verdict, p: Verdict)
    ensures Reaches(policies, d, true, v) && EffectivelyReaches(policies, d, p)
  {
    var layers := Fixed(Allow);
    if HasDevicePolicy(policies, d.pdid) {
      var order := KeysCanBeListed(policies.Keys);
      BestInOrderIsBest(policies, order, d.pdid);
      layers := PolicyVerdict(BestInOrder(policies, order, d.pdid).value, true);
    } else if TagActs(policies, d.tags, Block) {
      layers := Fixed(Block);
    } else if !TagActs(policies, d.tags, Allow) {
      var ids := TagBundleExists(policies, d.tags);
      layers := Bundle(ids);
    }
    assert !LayersSilent(policies, d, true) ==> LayersDecide(policies, d, true, layers);
    v, p := layers, layers;
    if INFRASTRUCTURE in d.deviceTags {
      v := Fixed(Allow);
    } else if GLOBAL_DEFAULT in policies && policies[GLOBAL_DEFAULT].enabled
              && policies[GLOBAL_DEFAULT].action != Schedule {
      v := Fixed(policies[GLOBAL_DEFAULT].action);
    } else if LayersSilent(policies, d, true) {
      v := if GLOBAL_DEFAULT !in policies then Fixed(Allow)
           else if policies[GLOBAL_DEFAULT].enabled then PolicyVerdict(policies[GLOBAL_DEFAULT], true)
           else Fixed(policies[GLOBAL_DEFAULT].action);
    }
    if INFRASTRUCTURE in d.tags {
      p := Fixed(Allow);
    } else if GLOBAL_DEFAULT in policies && policies[GLOBAL_DEFAULT].action != Schedule {
      p := Fixed(policies[GLOBAL_DEFAULT].action);
    } else if LayersSilent(policies, d, true) {
      p := if GLOBAL_DEFAULT in policies then PolicyVerdict(policies[GLOBAL_DEFAULT], true) else Fixed(Allow);
    }
  }

  /** Both tag lists of the record agree on immunity. */
  predicate TagListsAgree(d: LocalDevice) {
    INFRASTRUCTURE in d.tags <==> INFRASTRUCTURE in d.deviceTags
  }

  /** The two evaluators agree on the device whatever the schedules are, in every order. */
  ghost predicate AgreeAlways(policies: PolicyTable, d: LocalDevice) {
    forall w, v, p | CleanWorld(w, policies) && Reaches(policies, d, true, v) && EffectivelyReaches(policies, d, p) ::
      VerdictAction(w, v) == VerdictAction(w, p)
  }

  /** A disabled switch with a fixed action is harmless if the layers are silent or come to that
      action anyway, a disabled one on schedule if it is not reached. */
  ghost predicate HarmlessFor(policies: PolicyTable, d: LocalDevice) {
    || INFRASTRUCTURE in d.tags
    || GLOBAL_DEFAULT !in policies || policies[GLOBAL_DEFAULT].enabled
    || if policies[GLOBAL_DEFAULT].action != Schedule then LayersComeTo(policies, d, policies[GLOBAL_DEFAULT].action)
       else !LayersSilent(policies, d, true)
  }

  lemma AgreeAlwaysIffSwitchHarmless(policies: PolicyTable, d: LocalDevice)
    requires PlusFreeTable(policies) && DistinctPriorities(policies, d.pdid)
    requires TagListsAgree(d)
    ensures AgreeAlways(policies, d) <==> (forall w | CleanWorld(w, policies) :: GlobalSwitchHarmless(w, policies, d))
  {
    var v0, p0 := VerdictsExist(policies, d);
    forall w, v, p | CleanWorld(w, policies) && Reaches(policies, d, true, v) && EffectivelyReaches(policies, d, p)
      ensures VerdictAction(w, v) == VerdictAction(w, p) <==> GlobalSwitchHarmless(w, policies, d)
    {
      DistinctPrioritiesNeverTie(w, policies, d.pdid, true);
      EvaluatorsAgreeIffSwitchHarmless(w, policies, d, v, p);
    }
    if AgreeAlways(policies, d) {
      forall w | CleanWorld(w, policies) ensures GlobalSwitchHarmless(w, policies, d) {
        assert VerdictAction(w, v0) == VerdictAction(w, p0);
      }
    }
  }

  /** For one device the evaluators agree whatever the schedules are exactly when the switch is
      absent, enabled or harmless as far as the policies of the device and its tags go. */
  lemma AgreeAlwaysIffHarmless(policies: PolicyTable, d: LocalDevice)
    requires PlusFreeTable(policies) && DistinctPriorities(policies, d.pdid)
    requires TagListsAgree(d)
    ensures AgreeAlways(policies, d) <==> HarmlessFor(policies, d)
  {
    AgreeAlwaysIffSwitchHarmless(policies, d);
    assert CleanWorld(BareWorld(), policies);
    if INFRASTRUCTURE !in d.tags && GLOBAL_DEFAULT in policies && !policies[GLOBAL_DEFAULT].enabled {
      var g := policies[GLOBAL_DEFAULT];
      if g.action == Schedule {
        assert VerdictAction(BareWorld(), Bundle(g.GetScheduleIDs())) != Schedule;
      } else {
        LayersComeToIff(policies, d, g.action);
        forall v | LayersDecide(policies, d, true, v)
          ensures AlwaysComesTo(v, g.action) <==> forall w | CleanWorld(w, policies) :: VerdictAction(w, v) == g.action
        {
          DecidedVerdictIsPlusFree(policies, d, v);
          AlwaysMeansInEveryWorld(policies, v, g.action);
        }
      }
    }
  }

  /** A disabled switch that blocks and an enabled policy that allows a device part the evaluators
      in every world. */
  lemma DisabledSwitchParts(w: World, name: string, pdid: string)
    ensures var switch := Policy(GLOBAL_DEFAULT, name, GlobalPolicy, "", Block, [], None, 0, false, 0);
      var allowed := Policy("p", name, DevicePolicy, pdid, Allow, [], None, 1, true, 0);
      var policies, d := map[GLOBAL_DEFAULT := switch, "p" := allowed], LocalDevice(pdid, [], []);
      forall v, p | Reaches(policies, d, true, v) && EffectivelyReaches(policies, d, p) ::
        VerdictAction(w, v) == Allow && VerdictAction(w, p) == Block
  {
    var switch := Policy(GLOBAL_DEFAULT, name, GlobalPolicy, "", Block, [], None, 0, false, 0);
    var allowed := Policy("p", name, DevicePolicy, pdid, Allow, [], None, 1, true, 0);
    var policies := map[GLOBAL_DEFAULT := switch, "p" := allowed];
    assert "p" in policies && TargetsDevice(policies["p"], pdid);
    assert forall p | IsBest(policies, pdid, p) :: p == allowed;
  }

  // ----- all devices

  /** Every policy that can decide for some device comes to this action: the best ones of the
      devices, and what the policies of a single tag say.  The immunity tag never gets that far. */
  ghost predicate AllComeTo(policies: PolicyTable, action: Action) {
    && (forall pdid, p | IsBest(policies, pdid, p) :: PolicyComesTo(p, action))
    && forall tag | tag != INFRASTRUCTURE :: TagsComeTo(policies, [tag], action)
  }

  /** What holds of each tag holds of any list of them. */
  lemma TagsComeToTogether(policies: PolicyTable, tags: seq<string>, action: Action)
    requires forall tag | tag in tags :: TagsComeTo(policies, [tag], action)
    ensures TagsComeTo(policies, tags, action)
  {
    forall tag | tag in tags
      ensures forall a | TagActs(policies, [tag], a) :: TagActs(policies, tags, a)
    {
    }
    forall a | TagActs(policies, tags, a) ensures exists tag :: tag in tags && TagActs(policies, [tag], a) {
      var tag, id :| tag in tags && id in policies && TargetsTag(policies[id], tag) && policies[id].action == a;
      assert tag in [tag];
    }
    forall s | TagSchedule(policies, tags, s) ensures exists tag :: tag in tags && TagSchedule(policies, [tag], s) {
      var tag, id :| tag in tags && id in policies && TargetsTag(policies[id], tag)
        && policies[id].action == Schedule && s in policies[id].GetScheduleIDs();
      assert tag in [tag];
    }
  }

  lemma {:induction false} LongerThanAll(names: set<string>) returns (longer: string)
    ensures forall name | name in names :: |name| < |longer|
  {
    if names == {} {
      longer := "";
    } else {
      var name :| name in names;
      var rest := LongerThanAll(names - {name});
      longer := if |name| < |rest| then rest else name + "x";
    }
  }

  /** There is always a device without a policy of its own. */
  lemma UnnamedDevice(policies: PolicyTable) returns (pdid: string)
    ensures !HasDevicePolicy(policies, pdid) && DistinctPriorities(policies, pdid)
  {
    pdid := LongerThanAll(set id | id in policies :: policies[id].targetId);
  }

  ghost predicate AgreeOnAllDevices(policies: PolicyTable) {
    forall d: LocalDevice | TagListsAgree(d) :: AgreeAlways(policies, d)
  }

  lemma AgreeOnAllDevicesIffHarmless(policies: PolicyTable)
    requires PlusFreeTable(policies) && forall pdid :: DistinctPriorities(policies, pdid)
    ensures AgreeOnAllDevices(policies) <==>
            forall d: LocalDevice | TagListsAgree(d) :: HarmlessFor(policies, d)
  {
    forall d: LocalDevice | TagListsAgree(d)
      ensures AgreeAlways(policies, d) <==> HarmlessFor(policies, d)
    {
      AgreeAlwaysIffHarmless(policies, d);
    }
  }

  lemma AllComeToHarmless(policies: PolicyTable, action: Action, d: LocalDevice)
    requires AllComeTo(policies, action) && INFRASTRUCTURE !in d.tags
    ensures LayersComeTo(policies, d, action)
  {
    TagsComeToTogether(policies, d.tags, action);
  }

  lemma HarmlessMeansAllComeTo(policies: PolicyTable, action: Action)
    requires forall d: LocalDevice | INFRASTRUCTURE !in d.tags && INFRASTRUCTURE !in d.deviceTags ::
               LayersComeTo(policies, d, action)
    ensures AllComeTo(policies, action)
  {
    forall pdid, p | IsBest(policies, pdid, p) ensures PolicyComesTo(p, action) {
      assert LayersComeTo(policies, LocalDevice(pdid, [], []), action);
    }
    var pdid := UnnamedDevice(policies);
    forall tag | tag != INFRASTRUCTURE ensures TagsComeTo(policies, [tag], action) {
      assert LayersComeTo(policies, LocalDevice(pdid, [tag], []), action);
    }
  }

  /** The evaluators agree on every device, whatever the schedules are, exactly when the global
      switch is absent or enabled, or has a fixed action that every other policy comes to anyway. */
  lemma AgreeEverywhereIff(policies: PolicyTable)
    requires PlusFreeTable(policies) && forall pdid :: DistinctPriorities(policies, pdid)
    ensures AgreeOnAllDevices(policies) <==>
            || GLOBAL_DEFAULT !in policies || policies[GLOBAL_DEFAULT].enabled
            || (policies[GLOBAL_DEFAULT].action != Schedule && AllComeTo(policies, policies[GLOBAL_DEFAULT].action))
  {
    AgreeOnAllDevicesIffHarmless(policies);
    if GLOBAL_DEFAULT in policies && !policies[GLOBAL_DEFAULT].enabled {
      var action := policies[GLOBAL_DEFAULT].action;
      if action == Schedule {
        var pdid := UnnamedDevice(policies);
        assert !HarmlessFor(policies, LocalDevice(pdid, [], []));
      } else {
        if AllComeTo(policies, action) {
          forall d: LocalDevice | INFRASTRUCTURE !in d.tags ensures HarmlessFor(policies, d) {
            AllComeToHarmless(policies, action, d);
          }
        }
        if forall d: LocalDevice | TagListsAgree(d) :: HarmlessFor(policies, d) {
          forall d: LocalDevice | INFRASTRUCTURE !in d.tags && INFRASTRUCTURE !in d.deviceTags
            ensures LayersComeTo(policies, d, action)
          {
            assert HarmlessFor(policies, d);
          }
          HarmlessMeansAllComeTo(policies, action);
        }
      }
    }
  }
}
