/** What the policies of a device come to, in terms of the fields of their records. */
module PolicyAnswers {
  import opened Options
  import opened ScheduleModel
  import opened PolicyModel
  import opened PolicyEngine

  /** The schedules a policy names: its list, or without one its legacy id unless that is empty. */
  ghost predicate Names(p: Policy, ids: seq<string>) {
    if p.scheduleIds != [] then ids == p.scheduleIds
    else if p.scheduleId.Some? && p.scheduleId.value != "" then ids == [p.scheduleId.value]
    else ids == []
  }

  /** A policy on schedule is handed to the schedule engine, if there is one, with the schedules it
      names; any other says what its action is. */
  ghost predicate Speaks(p: Policy, hasEvaluator: bool, v: Verdict) {
    if p.action == Schedule && hasEvaluator then v.Bundle? && Names(p, v.ids) else v == Fixed(p.action)
  }

  ghost predicate OfDevice(p: Policy, pdid: string) {
    p.enabled && p.ptype == DevicePolicy && p.targetId == pdid
  }

  ghost predicate OfTags(p: Policy, tags: seq<string>, action: Action) {
    p.enabled && p.ptype == TagPolicy && p.targetId in tags && p.action == action
  }

  ghost predicate SomeOfTags(policies: PolicyTable, tags: seq<string>, action: Action) {
    exists id :: id in policies && OfTags(policies[id], tags, action)
  }

  ghost predicate NamedByTags(policies: PolicyTable, tags: seq<string>, s: string) {
    exists id, ids :: id in policies && OfTags(policies[id], tags, Schedule) && Names(policies[id], ids) && s in ids
  }

  /** Immunity comes first, then an enabled global switch that is not on schedule. */
  ghost predicate Settled(policies: PolicyTable, d: LocalDevice, v: Verdict) {
    if "infrastructure" in d.deviceTags then v == Fixed(Allow)
    else
      && "global_default" in policies && policies["global_default"].enabled
      && policies["global_default"].action != Schedule && v == Fixed(policies["global_default"].action)
  }

  ghost predicate Unsettled(policies: PolicyTable, d: LocalDevice) {
    && "infrastructure" !in d.deviceTags
    && !("global_default" in policies && policies["global_default"].enabled
         && policies["global_default"].action != Schedule)
  }

  lemma SettledFirst(policies: PolicyTable, d: LocalDevice, hasEvaluator: bool, visits: Visits)
    requires AreVisits(visits, policies, d) && !Unsettled(policies, d)
    ensures Settled(policies, d, VerdictIn(policies, d, hasEvaluator, visits))
  {
  }

  /** Then a policy of the device that none of its enabled policies outranks, and it alone. */
  lemma DevicePolicyDecides(policies: PolicyTable, d: LocalDevice, hasEvaluator: bool, visits: Visits)
    returns (best: string)
    requires AreVisits(visits, policies, d) && Unsettled(policies, d)
    requires exists id :: id in policies && OfDevice(policies[id], d.pdid)
    ensures best in policies && OfDevice(policies[best], d.pdid)
    ensures forall id | id in policies && OfDevice(policies[id], d.pdid) ::
              policies[id].priority <= policies[best].priority
    ensures Speaks(policies[best], hasEvaluator, VerdictIn(policies, d, hasEvaluator, visits))
  {
    BestInOrderIsBest(policies, visits.device, d.pdid);
    var id :| id in policies && OfDevice(policies[id], d.pdid);
    assert TargetsDevice(policies[id], d.pdid);
    var p := BestInOrder(policies, visits.device, d.pdid).value;
    best :| best in policies && policies[best] == p;
    forall id | id in policies && OfDevice(policies[id], d.pdid)
      ensures policies[id].priority <= policies[best].priority
    {
      assert TargetsDevice(policies[id], d.pdid);
    }
  }

  lemma TagsActMeans(policies: PolicyTable, tags: seq<string>, action: Action)
    ensures TagActs(policies, tags, action) <==> SomeOfTags(policies, tags, action)
  {
    if SomeOfTags(policies, tags, action) {
      var id :| id in policies && OfTags(policies[id], tags, action);
      assert policies[id].targetId in tags && TargetsTag(policies[id], policies[id].targetId);
    }
  }

  lemma TagScheduleMeans(policies: PolicyTable, tags: seq<string>, s: string)
    ensures TagSchedule(policies, tags, s) <==> NamedByTags(policies, tags, s)
  {
    if TagSchedule(policies, tags, s) {
      var tag, id :| tag in tags && id in policies && TargetsTag(policies[id], tag)
                     && policies[id].action == Schedule && s in policies[id].GetScheduleIDs();
      assert OfTags(policies[id], tags, Schedule) && Names(policies[id], policies[id].GetScheduleIDs());
    }
    if NamedByTags(policies, tags, s) {
      var id, ids :| id in policies && OfTags(policies[id], tags, Schedule) && Names(policies[id], ids) && s in ids;
      assert policies[id].targetId in tags && TargetsTag(policies[id], policies[id].targetId);
    }
  }

  /** The verdict of the policies of the tags: a block wins over an allowance, an allowance over
      schedules, and these are exactly those that the tags name.  Where the tags are silent, the
      global default speaks while it is enabled, and else says its bare action. */
  ghost predicate TagsSpeak(policies: PolicyTable, d: LocalDevice, hasEvaluator: bool, v: Verdict) {
    if SomeOfTags(policies, d.tags, Block) then v == Fixed(Block)
    else if SomeOfTags(policies, d.tags, Allow) then v == Fixed(Allow)
    else if hasEvaluator && exists s :: NamedByTags(policies, d.tags, s) then
      v.Bundle? && forall s :: s in v.ids <==> NamedByTags(policies, d.tags, s)
    else if "global_default" in policies then
      Speaks(policies["global_default"], hasEvaluator && policies["global_default"].enabled, v)
    else v == Fixed(Allow)
  }

  lemma TagPoliciesDecide(policies: PolicyTable, d: LocalDevice, hasEvaluator: bool, visits: Visits)
    requires AreVisits(visits, policies, d) && Unsettled(policies, d)
    requires !exists id :: id in policies && OfDevice(policies[id], d.pdid)
    ensures TagsSpeak(policies, d, hasEvaluator, VerdictIn(policies, d, hasEvaluator, visits))
  {
    BestInOrderIsBest(policies, visits.device, d.pdid);
    assert forall id | id in policies :: !OfDevice(policies[id], d.pdid);
    assert !HasDevicePolicy(policies, d.pdid);
    TagsActMeans(policies, d.tags, Block);
    TagsActMeans(policies, d.tags, Allow);
    var gathered := GatheredIds(policies, visits.tags, d.tags);
    GatheredIsTagBundle(policies, visits.tags, d.tags);
    BundleEmptyIffNoSchedule(policies, d.tags, gathered);
    forall s ensures s in gathered <==> NamedByTags(policies, d.tags, s) {
      TagScheduleMeans(policies, d.tags, s);
    }
  }
}
