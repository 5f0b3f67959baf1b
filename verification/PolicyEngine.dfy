/** The two policy evaluators over a map whose iteration order is arbitrary. */
module PolicyEngine {
  import opened Options
  import opened ScheduleModel
  import opened PolicyModel
  import Sched = ScheduleEngine
  import Sorting

  /** The device record both evaluators read.  `tags` are the tags LIAS keeps beside the DIS
      record, `deviceTags` those of the record itself; the two evaluators read different ones
      for immunity. */
  datatype LocalDevice = LocalDevice(pdid: string, tags: seq<string>, deviceTags: seq<string>)

  const GLOBAL_DEFAULT := "global_default"
  const INFRASTRUCTURE := "infrastructure"

  // ----- the layers, independent of any order

  predicate TargetsDevice(p: Policy, pdid: string) {
    p.enabled && p.ptype == DevicePolicy && p.targetId == pdid
  }

  predicate TargetsTag(p: Policy, tag: string) {
    p.enabled && p.ptype == TagPolicy && p.targetId == tag
  }

  /** An enabled policy of the device that none of its enabled policies outranks. */
  ghost predicate IsBest(policies: PolicyTable, pdid: string, p: Policy) {
    && (exists id :: id in policies && policies[id] == p)
    && TargetsDevice(p, pdid)
    && forall id | id in policies && TargetsDevice(policies[id], pdid) :: policies[id].priority <= p.priority
  }

  ghost predicate HasDevicePolicy(policies: PolicyTable, pdid: string) {
    exists id :: id in policies && TargetsDevice(policies[id], pdid)
  }

  ghost predicate TagActs(policies: PolicyTable, tags: seq<string>, action: Action) {
    exists tag, id :: tag in tags && id in policies && TargetsTag(policies[id], tag) && policies[id].action == action
  }

  /** A schedule attached to one of the tags by an enabled schedule policy. */
  ghost predicate TagSchedule(policies: PolicyTable, tags: seq<string>, scheduleId: string) {
    exists tag, id :: tag in tags && id in policies && TargetsTag(policies[id], tag)
      && policies[id].action == Schedule && scheduleId in policies[id].GetScheduleIDs()
  }

  ghost predicate IsTagBundle(policies: PolicyTable, tags: seq<string>, ids: seq<string>) {
    forall scheduleId :: scheduleId in ids <==> TagSchedule(policies, tags, scheduleId)
  }

  // ----- verdicts

  /** What an evaluator settles on before any schedule is consulted. */
  datatype Verdict = Fixed(action: Action) | Bundle(ids: seq<string>)

  function PolicyVerdict(p: Policy, hasEvaluator: bool): Verdict {
    if p.action == Schedule && hasEvaluator then Bundle(p.GetScheduleIDs()) else Fixed(p.action)
  }

  /** The device and tag layers: `v` is a verdict they can reach. */
  ghost predicate LayersDecide(policies: PolicyTable, d: LocalDevice, hasEvaluator: bool, v: Verdict) {
    if HasDevicePolicy(policies, d.pdid) then
      exists p :: IsBest(policies, d.pdid, p) && v == PolicyVerdict(p, hasEvaluator)
    else if TagActs(policies, d.tags, Block) then v == Fixed(Block)
    else if TagActs(policies, d.tags, Allow) then v == Fixed(Allow)
    else
      && hasEvaluator && (exists s :: TagSchedule(policies, d.tags, s))
      && v.Bundle? && IsTagBundle(policies, d.tags, v.ids)
  }

  /** No device policy and no tag policy has a say. */
  ghost predicate LayersSilent(policies: PolicyTable, d: LocalDevice, hasEvaluator: bool) {
    && !HasDevicePolicy(policies, d.pdid)
    && !TagActs(policies, d.tags, Block) && !TagActs(policies, d.tags, Allow)
    && !(hasEvaluator && exists s :: TagSchedule(policies, d.tags, s))
  }

  /** The verdicts `EvaluateAction` can reach. */
  ghost predicate Reaches(policies: PolicyTable, d: LocalDevice, hasEvaluator: bool, v: Verdict) {
    if INFRASTRUCTURE in d.deviceTags then v == Fixed(Allow)
    else if GLOBAL_DEFAULT in policies && policies[GLOBAL_DEFAULT].enabled
            && policies[GLOBAL_DEFAULT].action != Schedule then
      v == Fixed(policies[GLOBAL_DEFAULT].action)
    else if !LayersSilent(policies, d, hasEvaluator) then LayersDecide(policies, d, hasEvaluator, v)
    else if GLOBAL_DEFAULT in policies then
      var g := policies[GLOBAL_DEFAULT];
      v == if g.enabled then PolicyVerdict(g, hasEvaluator) else Fixed(g.action)
    else v == Fixed(Allow)
  }

  /** The verdicts that follow from a policy `GetEffectivePolicy` can return. */
  ghost predicate EffectivelyReaches(policies: PolicyTable, d: LocalDevice, v: Verdict) {
    if INFRASTRUCTURE in d.tags then v == Fixed(Allow)
    else if GLOBAL_DEFAULT in policies && policies[GLOBAL_DEFAULT].action != Schedule then
      v == Fixed(policies[GLOBAL_DEFAULT].action)
    else if !LayersSilent(policies, d, true) then LayersDecide(policies, d, true, v)
    else if GLOBAL_DEFAULT in policies then v == PolicyVerdict(policies[GLOBAL_DEFAULT], true)
    else v == Fixed(Allow)
  }

  // ----- iteration orders

  /** An order in which a loop over the map may visit its keys. */
  ghost predicate IsOrder(order: seq<string>, policies: PolicyTable) {
    Sorting.Distinct(order) && forall id :: id in order <==> id in policies
  }

  /** The first policy of the device with the highest priority in this order. */
  function BestInOrder(policies: PolicyTable, order: seq<string>, pdid: string): Option<Policy>
    requires forall id | id in order :: id in policies
  {
    if order == [] then None
    else
      var best, p := BestInOrder(policies, order[..|order| - 1], pdid), policies[order[|order| - 1]];
      if TargetsDevice(p, pdid) && (best.None? || p.priority > best.value.priority) then Some(p) else best
  }

  lemma {:induction false} BestAmongVisited(policies: PolicyTable, order: seq<string>, pdid: string)
    requires forall id | id in order :: id in policies
    ensures var best := BestInOrder(policies, order, pdid);
      && (best.None? <==> forall id | id in order :: !TargetsDevice(policies[id], pdid))
      && (best.Some? ==>
            && (exists id :: id in order && policies[id] == best.value) && TargetsDevice(best.value, pdid)
            && forall id | id in order && TargetsDevice(policies[id], pdid) ::
                 policies[id].priority <= best.value.priority)
  {
    if order != [] {
      var init, last := order[..|order| - 1], order[|order| - 1];
      BestAmongVisited(policies, init, pdid);
      assert forall id :: id in order <==> id in init || id == last;
    }
  }

  /** In every order the scan finds a best policy, if the device has one. */
  lemma BestInOrderIsBest(policies: PolicyTable, order: seq<string>, pdid: string)
    requires IsOrder(order, policies)
    ensures var best := BestInOrder(policies, order, pdid);
      (best.None? <==> !HasDevicePolicy(policies, pdid)) && (best.Some? ==> IsBest(policies, pdid, best.value))
  {
    BestAmongVisited(policies, order, pdid);
  }

  /** A best policy that is visited first is the one that is found. */
  lemma {:induction false} FirstBestStays(policies: PolicyTable, order: seq<string>, pdid: string, p: Policy)
    requires forall id | id in order :: id in policies
    requires order != [] && policies[order[0]] == p && IsBest(policies, pdid, p)
    ensures BestInOrder(policies, order, pdid) == Some(p)
  {
    var init := order[..|order| - 1];
    if init == [] {
      assert BestInOrder(policies, init, pdid) == None;
    } else {
      FirstBestStays(policies, init, pdid, p);
      assert order[|order| - 1] in order;
    }
  }

  /** Every set of keys can be listed. */
  lemma {:induction false} KeysCanBeListed(keys: set<string>) returns (order: seq<string>)
    ensures Sorting.Distinct(order) && forall id :: id in order <==> id in keys
  {
    if keys == {} {
      order := [];
    } else {
      var id :| id in keys;
      var rest := KeysCanBeListed(keys - {id});
      order := [id] + rest;
    }
  }

  /** Every best policy is found in some order. */
  lemma EveryBestIsFound(policies: PolicyTable, pdid: string, p: Policy) returns (order: seq<string>)
    requires IsBest(policies, pdid, p)
    ensures IsOrder(order, policies) && BestInOrder(policies, order, pdid) == Some(p)
  {
    var id :| id in policies && policies[id] == p;
    var rest := KeysCanBeListed(policies.Keys - {id});
    order := [id] + rest;
    FirstBestStays(policies, order, pdid, p);
  }

  // ----- the tag scan

  /** The orders in which the loops of one call visit the map: one for the device's own policy, and
      one for each of its tags. */
  datatype Visits = Visits(device: seq<string>, tags: seq<seq<string>>)

  ghost predicate AreVisits(visits: Visits, policies: PolicyTable, d: LocalDevice) {
    IsOrder(visits.device, policies) && |visits.tags| == |d.tags| && AreOrders(visits.tags, policies)
  }

  ghost predicate AreOrders(orders: seq<seq<string>>, policies: PolicyTable) {
    forall order | order in orders :: IsOrder(order, policies)
  }

  /** The schedules that the policies of a tag attach, as the scan appends them. */
  function TagIds(policies: PolicyTable, order: seq<string>, tag: string): seq<string>
    requires forall id | id in order :: id in policies
  {
    if order == [] then []
    else
      var before, p := TagIds(policies, order[..|order| - 1], tag), policies[order[|order| - 1]];
      if TargetsTag(p, tag) && p.action == Schedule then before + p.GetScheduleIDs() else before
  }

  ghost function GatheredIds(policies: PolicyTable, orders: seq<seq<string>>, tags: seq<string>): seq<string>
    requires |orders| == |tags| && AreOrders(orders, policies)
  {
    if tags == [] then []
    else
      var n := |tags| - 1;
      assert orders[n] in orders;
      GatheredIds(policies, orders[..n], tags[..n]) + TagIds(policies, orders[n], tags[n])
  }

  lemma {:induction false} TagIdsMembers(policies: PolicyTable, order: seq<string>, tag: string)
    requires forall id | id in order :: id in policies
    ensures forall s :: s in TagIds(policies, order, tag) <==>
              exists id :: id in order && TargetsTag(policies[id], tag) && policies[id].action == Schedule
                && s in policies[id].GetScheduleIDs()
  {
    if order != [] {
      TagIdsMembers(policies, order[..|order| - 1], tag);
      assert forall id :: id in order <==> id in order[..|order| - 1] || id == order[|order| - 1];
    }
  }

  lemma TagIdsOfAll(policies: PolicyTable, order: seq<string>, tag: string)
    requires IsOrder(order, policies)
    ensures forall s :: s in TagIds(policies, order, tag) <==> TagSchedule(policies, [tag], s)
  {
    TagIdsMembers(policies, order, tag);
    forall s | s in TagIds(policies, order, tag) ensures TagSchedule(policies, [tag], s) {
      var id :| id in order && TargetsTag(policies[id], tag) && policies[id].action == Schedule
        && s in policies[id].GetScheduleIDs();
      assert tag in [tag] && id in policies;
    }
  }

  /** In every order the scan gathers exactly the schedules attached to the tags. */
  lemma {:induction false} GatheredIsTagBundle(policies: PolicyTable, orders: seq<seq<string>>, tags: seq<string>)
    requires |orders| == |tags| && AreOrders(orders, policies)
    ensures IsTagBundle(policies, tags, GatheredIds(policies, orders, tags))
  {
    if tags != [] {
      var n := |tags| - 1;
      GatheredIsTagBundle(policies, orders[..n], tags[..n]);
      OneMoreTag(policies, tags[..n], tags[n]);
      assert tags == tags[..n] + [tags[n]] && orders[n] in orders;
      TagIdsOfAll(policies, orders[n], tags[n]);
    }
  }

  /** The verdict of `EvaluateAction` when its loops visit the map in these orders. */
  ghost function VerdictIn(policies: PolicyTable, d: LocalDevice, hasEvaluator: bool, visits: Visits): Verdict
    requires AreVisits(visits, policies, d)
  {
    var best := BestInOrder(policies, visits.device, d.pdid);
    var gathered := GatheredIds(policies, visits.tags, d.tags);
    if INFRASTRUCTURE in d.deviceTags then Fixed(Allow)
    else if !LayersConsulted(policies, d) then Fixed(policies[GLOBAL_DEFAULT].action)
    else if best.Some? then PolicyVerdict(best.value, hasEvaluator)
    else if TagActs(policies, d.tags, Block) then Fixed(Block)
    else if TagActs(policies, d.tags, Allow) then Fixed(Allow)
    else if gathered != [] && hasEvaluator then Bundle(gathered)
    else if GLOBAL_DEFAULT in policies then PolicyVerdict(policies[GLOBAL_DEFAULT],
                                                          hasEvaluator && policies[GLOBAL_DEFAULT].enabled)
    else Fixed(Allow)
  }

  /** Neither immunity nor the global switch has settled the matter. */
  ghost predicate LayersConsulted(policies: PolicyTable, d: LocalDevice) {
    && INFRASTRUCTURE !in d.deviceTags
    && !(GLOBAL_DEFAULT in policies && policies[GLOBAL_DEFAULT].enabled && policies[GLOBAL_DEFAULT].action != Schedule)
  }

  /** It is left to the schedules of the tags. */
  ghost predicate TagsSchedule(policies: PolicyTable, d: LocalDevice, hasEvaluator: bool) {
    && LayersConsulted(policies, d) && !HasDevicePolicy(policies, d.pdid)
    && !TagActs(policies, d.tags, Block) && !TagActs(policies, d.tags, Allow)
    && hasEvaluator && exists s :: TagSchedule(policies, d.tags, s)
  }

  /** Bundles gathered from the tags are told apart by their members alone. */
  ghost predicate SameVerdict(policies: PolicyTable, d: LocalDevice, hasEvaluator: bool, u: Verdict, v: Verdict) {
    u == v || (TagsSchedule(policies, d, hasEvaluator) && u.Bundle? && v.Bundle? && Sched.SameIds(u.ids, v.ids))
  }

  lemma VerdictInIsReached(policies: PolicyTable, d: LocalDevice, hasEvaluator: bool, visits: Visits)
    requires AreVisits(visits, policies, d)
    ensures Reaches(policies, d, hasEvaluator, VerdictIn(policies, d, hasEvaluator, visits))
  {
    BestInOrderIsBest(policies, visits.device, d.pdid);
    GatheredIsTagBundle(policies, visits.tags, d.tags);
    BundleEmptyIffNoSchedule(policies, d.tags, GatheredIds(policies, visits.tags, d.tags));
  }

  /** A verdict is one that the layers allow exactly when some iteration orders lead to it, up to the
      arrangement of a bundle gathered from the tags. */
  lemma ReachedInSomeOrder(policies: PolicyTable, d: LocalDevice, hasEvaluator: bool, v: Verdict)
    ensures Reaches(policies, d, hasEvaluator, v) <==>
            exists visits :: AreVisits(visits, policies, d)
              && SameVerdict(policies, d, hasEvaluator, VerdictIn(policies, d, hasEvaluator, visits), v)
  {
    if Reaches(policies, d, hasEvaluator, v) {
      var order := KeysCanBeListed(policies.Keys);
      var tags := seq(|d.tags|, i => order);
      var visits := Visits(order, tags);
      if LayersConsulted(policies, d) && HasDevicePolicy(policies, d.pdid) {
        var p :| IsBest(policies, d.pdid, p) && v == PolicyVerdict(p, hasEvaluator);
        order := EveryBestIsFound(policies, d.pdid, p);
        visits := Visits(order, tags);
      }
      VerdictInIsReached(policies, d, hasEvaluator, visits);
      BestInOrderIsBest(policies, visits.device, d.pdid);
      assert SameVerdict(policies, d, hasEvaluator, VerdictIn(policies, d, hasEvaluator, visits), v);
    }
    forall visits | AreVisits(visits, policies, d)
                    && SameVerdict(policies, d, hasEvaluator, VerdictIn(policies, d, hasEvaluator, visits), v)
      ensures Reaches(policies, d, hasEvaluator, v)
    {
      VerdictInIsReached(policies, d, hasEvaluator, visits);
    }
  }

  // ----- replacing what two PDIDs own

  predicate OwnedBy(p: Policy, oldPdid: string, newPdid: string) {
    p.ptype == DevicePolicy && (p.targetId == oldPdid || p.targetId == newPdid)
  }

  /** The last of the rows with this id. */
  function LastWithId(rows: seq<Policy>, id: string): (r: Option<Policy>)
    ensures r.Some? ==> r.value in rows && r.value.id == id
    ensures r.None? ==> forall p | p in rows :: p.id != id
  {
    if rows == [] then None
    else if rows[|rows| - 1].id == id then Some(rows[|rows| - 1])
    else LastWithId(rows[..|rows| - 1], id)
  }

  /** The rows are in the table, the last of each id; a policy of neither device stays, unless a
      row takes its id. */
  ghost predicate Reconciled(before: PolicyTable, after: PolicyTable, rows: seq<Policy>, oldPdid: string,
      newPdid: string) {
    forall id ::
      (if id in after then Some(after[id]) else None) ==
      if LastWithId(rows, id).Some? then LastWithId(rows, id)
      else if id in before && !OwnedBy(before[id], oldPdid, newPdid) then Some(before[id])
      else None
  }

  class Engine {
    var policies: PolicyTable

    constructor ()
      ensures policies == map[GLOBAL_DEFAULT := Policy(GLOBAL_DEFAULT, "Global Access Switch", GlobalPolicy, "",
                                                       Schedule, [], None, 0, true, 0)]
    {
      policies := map[GLOBAL_DEFAULT := Policy(GLOBAL_DEFAULT, "Global Access Switch", GlobalPolicy, "",
                                               Schedule, [], None, 0, true, 0)];
    }

    method ReconcileDeviceIdentity(oldPdid: string, newPdid: string, rows: seq<Policy>)
      modifies this
      ensures Reconciled(old(policies), policies, rows, oldPdid, newPdid)
    {
      ghost var before := policies;
      var remaining := policies.Keys;
      while remaining != {}
        invariant remaining <= before.Keys && policies.Keys <= before.Keys && remaining <= policies.Keys
        invariant forall id | id in before ::
                    id in policies <==> id in remaining || !OwnedBy(before[id], oldPdid, newPdid)
        invariant forall id | id in policies :: policies[id] == before[id]
        decreases remaining
      {
        var id :| id in remaining;
        remaining := remaining - {id};
        if policies[id].ptype == DevicePolicy
            && (policies[id].targetId == oldPdid || policies[id].targetId == newPdid) {
          policies := policies - {id};
        }
      }
      for i := 0 to |rows|
        invariant Reconciled(before, policies, rows[..i], oldPdid, newPdid)
      {
        assert rows[..i + 1][..i] == rows[..i];
        policies := policies[rows[i].id := rows[i]];
      }
      assert rows[..|rows|] == rows;
    }

    /** The scan for the device's own policy, in the order in which the map happens to be visited. */
    method BestDevicePolicy(pdid: string, order: seq<string>) returns (best: Option<Policy>)
      requires IsOrder(order, policies)
      ensures best == BestInOrder(policies, order, pdid)
      ensures best.None? <==> !HasDevicePolicy(policies, pdid)
      ensures best.Some? ==> IsBest(policies, pdid, best.value)
    {
      best := None;
      for i := 0 to |order|
        invariant best == BestInOrder(policies, order[..i], pdid)
      {
        assert order[..i + 1][..i] == order[..i];
        var p := policies[order[i]];
        if !p.enabled { continue; }
        if p.ptype == DevicePolicy && p.targetId == pdid {
          if best.None? || p.priority > best.value.priority {
            best := Some(p);
          }
        }
      }
      assert order[..|order|] == order;
      BestInOrderIsBest(policies, order, pdid);
    }

    /** The scan of the policies of one tag, in the order in which the map happens to be visited. */
    method ScanTag(tag: string, order: seq<string>, allowBefore: bool, idsBefore: seq<string>)
      returns (blocked: bool, hasAllow: bool, ids: seq<string>)
      requires IsOrder(order, policies)
      ensures blocked <==> TagActs(policies, [tag], Block)
      ensures !blocked ==> (hasAllow <==> allowBefore || TagActs(policies, [tag], Allow))
      ensures !blocked ==> ids == idsBefore + TagIds(policies, order, tag)
    {
      blocked, hasAllow, ids := false, allowBefore, idsBefore;
      for i := 0 to |order|
        invariant !SomeActs(policies, order[..i], tag, Block)
        invariant hasAllow <==> allowBefore || SomeActs(policies, order[..i], tag, Allow)
        invariant ids == idsBefore + TagIds(policies, order[..i], tag)
      {
        var p := policies[order[i]];
        OneMore(policies, order, i, tag);
        if !p.enabled { continue; }
        if p.ptype == TagPolicy && p.targetId == tag {
          match p.action
          case Block =>
            SomeOfAll(policies, order, tag);
            assert SomeActs(policies, order, tag, Block);
            return true, hasAllow, ids;
          case Allow => hasAllow := true;
          case Schedule => ids := ids + p.GetScheduleIDs();
        }
      }
      assert order[..|order|] == order;
      SomeOfAll(policies, order, tag);
    }

    /** The scan of all tags of a device: the first blocking tag, or what the others gather. */
    method ScanTags(tags: seq<string>, orders: seq<seq<string>>)
      returns (blockedBy: Option<string>, hasAllow: bool, ids: seq<string>)
      requires |orders| == |tags| && AreOrders(orders, policies)
      ensures blockedBy.Some? <==> TagActs(policies, tags, Block)
      ensures blockedBy.Some? ==> FirstBlocking(policies, tags, blockedBy.value)
      ensures blockedBy.None? ==> (hasAllow <==> TagActs(policies, tags, Allow))
      ensures blockedBy.None? ==> ids == GatheredIds(policies, orders, tags) && IsTagBundle(policies, tags, ids)
    {
      blockedBy, hasAllow, ids := None, false, [];
      for i := 0 to |tags|
        invariant !TagActs(policies, tags[..i], Block)
        invariant hasAllow <==> TagActs(policies, tags[..i], Allow)
        invariant ids == GatheredIds(policies, orders[..i], tags[..i])
      {
        OneMoreTag(policies, tags[..i], tags[i]);
        assert tags[..i + 1] == tags[..i] + [tags[i]];
        assert tags[..i + 1][..i] == tags[..i] && orders[..i + 1][..i] == orders[..i];
        var blocked;
        blocked, hasAllow, ids := ScanTag(tags[i], orders[i], hasAllow, ids);
        if blocked {
          MoreTagsStillBlock(policies, tags[..i + 1], tags);
          return Some(tags[i]), hasAllow, ids;
        }
      }
      assert tags[..|tags|] == tags && orders[..|orders|] == orders;
      GatheredIsTagBundle(policies, orders, tags);
    }

    method GetEffectivePolicy(device: Option<LocalDevice>, visits: Visits) returns (p: Policy)
      requires device.Some? ==> AreVisits(visits, policies, device.value)
      ensures device.None? ==> MadeUp(p, "fallback", "", NoType, Allow, [])
      ensures device.Some? ==> IsEffective(policies, device.value, visits, p)
      ensures device.Some? ==> EffectivelyReaches(policies, device.value, PolicyVerdict(p, true))
    {
      if device.None? {
        return Named("fallback", "", NoType, Allow, []);
      }
      var d := device.value;
      // 1. infrastructure immunity
      if INFRASTRUCTURE in d.tags {
        return Named("infrastructure_override", "Infrastructure Immunity", TagPolicy, Allow, []);
      }
      // 2. the global switch
      var hasGlobal := GLOBAL_DEFAULT in policies;
      if hasGlobal && policies[GLOBAL_DEFAULT].action == Block {
        return Named("global_killswitch", "Global Access Switch (Block All)", GlobalPolicy, Block, []);
      }
      if hasGlobal && policies[GLOBAL_DEFAULT].action == Allow {
        return Named("global_allow_override", "Global Access Switch (Allow All)", GlobalPolicy, Allow, []);
      }
      // 3. the device's own policy
      var best := BestDevicePolicy(d.pdid, visits.device);
      if best.Some? {
        return best.value;
      }
      // 4. the policies of its tags
      var blockedBy, hasAllow, tagSchedIDs := ScanTags(d.tags, visits.tags);
      if blockedBy.Some? {
        return Named("tag_block_override", "Tag Block (" + blockedBy.value + ")", TagPolicy, Block, []);
      }
      if hasAllow {
        return Named("tag_allow_override", "Tag Allow Override", TagPolicy, Allow, []);
      }
      BundleEmptyIffNoSchedule(policies, d.tags, tagSchedIDs);
      if |tagSchedIDs| > 0 {
        return Named("tag_schedule_bundle", "Tag Schedule Bundle", TagPolicy, Schedule, tagSchedIDs);
      }
      // 5. the global default
      if hasGlobal {
        return policies[GLOBAL_DEFAULT];
      }
      return Named("fallback", "Fallback Allow", GlobalPolicy, Allow, []);
    }

    /** The action for a device.  The schedule engine is consulted once for a bundle, and otherwise
        not at all. */
    method EvaluateAction(device: Option<LocalDevice>, schedEval: Sched.Engine?, now: int, visits: Visits)
      returns (action: Action)
      requires device.Some? ==> AreVisits(visits, policies, device.value)
      requires schedEval != null ==> schedEval.Valid()
      modifies schedEval
      ensures schedEval != null ==> schedEval.Valid()
      ensures device.None? ==> action == Allow
      ensures schedEval != null && (device.None? || VerdictIn(policies, device.value, true, visits).Fixed?) ==>
                schedEval.Memorised() == old(schedEval.Memorised())
      ensures device.Some? ==>
                match VerdictIn(policies, device.value, schedEval != null, visits)
                case Fixed(a) => action == a
                case Bundle(ids) =>
                  && schedEval != null
                  && action == Sched.AnswerTo(schedEval.zones, old(schedEval.Memorised()), ids, now)
                  && schedEval.Memorised() == Sched.AfterEvaluate(old(schedEval.Memorised()), ids)
      ensures device.Some? && schedEval != null ==>
                Acts(schedEval.zones, schedEval.schedules, VerdictIn(policies, device.value, true, visits), now, action)
    {
      if device.None? {
        return Allow;
      }
      var v := Decide(device.value, schedEval != null, visits);
      match v
      case Fixed(a) => action := a;
      case Bundle(ids) => action := schedEval.EvaluateBundle(ids, now);
    }

    /** The precedence ladder of `EvaluateAction` up to the call of the schedule engine. */
    method Decide(d: LocalDevice, hasEvaluator: bool, visits: Visits) returns (v: Verdict)
      requires AreVisits(visits, policies, d)
      ensures v == VerdictIn(policies, d, hasEvaluator, visits)
      ensures Reaches(policies, d, hasEvaluator, v)
      ensures !hasEvaluator ==> v.Fixed?
    {
      VerdictInIsReached(policies, d, hasEvaluator, visits);
      // 1. infrastructure immunity
      if INFRASTRUCTURE in d.deviceTags {
        return Fixed(Allow);
      }
      // 2. the global switch
      if GLOBAL_DEFAULT in policies {
        var globalPol := policies[GLOBAL_DEFAULT];
        if globalPol.enabled && globalPol.action == Block { return Fixed(Block); }
        if globalPol.enabled && globalPol.action == Allow { return Fixed(Allow); }
      }
      // 3. the device's own policy
      var best := BestDevicePolicy(d.pdid, visits.device);
      if best.Some? {
        if best.value.action == Schedule && hasEvaluator {
          return Bundle(best.value.GetScheduleIDs());
        }
        return Fixed(best.value.action);
      }
      // 4. the policies of its tags
      var blockedBy, hasAllow, tagSchedIDs := ScanTags(d.tags, visits.tags);
      if blockedBy.Some? { return Fixed(Block); }
      if hasAllow { return Fixed(Allow); }
      if |tagSchedIDs| > 0 && hasEvaluator { return Bundle(tagSchedIDs); }
      // 5. the global default
      if GLOBAL_DEFAULT in policies {
        var globalPol := policies[GLOBAL_DEFAULT];
        if globalPol.enabled && globalPol.action == Schedule && hasEvaluator {
          return Bundle(globalPol.GetScheduleIDs());
        }
        return Fixed(globalPol.action);
      }
      return Fixed(Allow);
    }
  }

  /** The first of the tags that a policy blocks. */
  ghost predicate FirstBlocking(policies: PolicyTable, tags: seq<string>, tag: string) {
    exists i :: 0 <= i < |tags| && tags[i] == tag
      && TagActs(policies, [tag], Block) && !TagActs(policies, tags[..i], Block)
  }

  /** The policy in effect, with the names the program gives to the policies it makes up. */
  ghost predicate IsEffective(policies: PolicyTable, d: LocalDevice, visits: Visits, p: Policy)
    requires AreVisits(visits, policies, d)
  {
    if INFRASTRUCTURE in d.tags then
      MadeUp(p, "infrastructure_override", "Infrastructure Immunity", TagPolicy, Allow, [])
    else if GLOBAL_DEFAULT in policies && policies[GLOBAL_DEFAULT].action == Block then
      MadeUp(p, "global_killswitch", "Global Access Switch (Block All)", GlobalPolicy, Block, [])
    else if GLOBAL_DEFAULT in policies && policies[GLOBAL_DEFAULT].action == Allow then
      MadeUp(p, "global_allow_override", "Global Access Switch (Allow All)", GlobalPolicy, Allow, [])
    else if HasDevicePolicy(policies, d.pdid) then BestInOrder(policies, visits.device, d.pdid) == Some(p)
    else if TagActs(policies, d.tags, Block) then
      exists tag :: FirstBlocking(policies, d.tags, tag)
        && MadeUp(p, "tag_block_override", "Tag Block (" + tag + ")", TagPolicy, Block, [])
    else if TagActs(policies, d.tags, Allow) then
      MadeUp(p, "tag_allow_override", "Tag Allow Override", TagPolicy, Allow, [])
    else if exists s :: TagSchedule(policies, d.tags, s) then
      MadeUp(p, "tag_schedule_bundle", "Tag Schedule Bundle", TagPolicy, Schedule,
                 GatheredIds(policies, visits.tags, d.tags))
    else if GLOBAL_DEFAULT in policies then p == policies[GLOBAL_DEFAULT]
    else MadeUp(p, "fallback", "Fallback Allow", GlobalPolicy, Allow, [])
  }

  /** A policy that is not in the table has only an id, a name, a type, an action and schedules. */
  ghost predicate MadeUp(
      p: Policy, id: string, name: string, ptype: PolicyType, action: Action, scheduleIds: seq<string>)
  {
    && p.id == id && p.name == name && p.ptype == ptype && p.action == action && p.scheduleIds == scheduleIds
    && p.targetId == "" && p.scheduleId == None && p.priority == 0 && !p.enabled && p.updatedAt == 0
  }

  function Named(id: string, name: string, ptype: PolicyType, action: Action, scheduleIds: seq<string>): Policy {
    Policy(id, name, ptype, "", action, scheduleIds, None, 0, false, 0)
  }

  /** The action a verdict comes to once its schedules have been consulted, which the engine's
      cache may only answer as a fresh merge would. */
  ghost predicate Acts(zones: Zones, schedules: map<string, ScheduleRecord>, v: Verdict, now: int, action: Action) {
    match v
    case Fixed(a) => action == a
    case Bundle(ids) => Sched.Unambiguous(schedules, ids) ==> action == Sched.FreshAction(zones, schedules, ids, now)
  }

  lemma BundleEmptyIffNoSchedule(policies: PolicyTable, tags: seq<string>, ids: seq<string>)
    requires IsTagBundle(policies, tags, ids)
    ensures ids == [] <==> !exists s :: TagSchedule(policies, tags, s)
  {
    if ids != [] {
      assert ids[0] in ids;
    }
  }

  lemma OneMoreTag(policies: PolicyTable, tags: seq<string>, tag: string)
    ensures forall action :: TagActs(policies, tags + [tag], action) <==>
              TagActs(policies, tags, action) || TagActs(policies, [tag], action)
    ensures forall s :: TagSchedule(policies, tags + [tag], s) <==>
              TagSchedule(policies, tags, s) || TagSchedule(policies, [tag], s)
  {
    assert forall t :: t in tags + [tag] <==> t in tags || t in [tag];
  }

  lemma MoreTagsStillBlock(policies: PolicyTable, tags: seq<string>, more: seq<string>)
    requires TagActs(policies, tags, Block) && tags <= more
    ensures TagActs(policies, more, Block)
  {
    assert forall t | t in tags :: t in more;
  }

  /** One of these policies of the tag comes to this action. */
  ghost predicate SomeActs(policies: PolicyTable, ids: seq<string>, tag: string, action: Action) {
    exists id :: id in ids && id in policies && TargetsTag(policies[id], tag) && policies[id].action == action
  }

  /** How the next policy changes what the policies of a tag do. */
  lemma OneMore(policies: PolicyTable, order: seq<string>, i: nat, tag: string)
    requires i < |order| && forall id | id in order :: id in policies
    ensures var p := policies[order[i]];
      && (forall action :: SomeActs(policies, order[..i + 1], tag, action) <==>
            SomeActs(policies, order[..i], tag, action) || (TargetsTag(p, tag) && p.action == action))
      && (forall action :: TargetsTag(p, tag) && p.action == action ==> SomeActs(policies, order, tag, action))
      && TagIds(policies, order[..i + 1], tag)
         == TagIds(policies, order[..i], tag)
            + if TargetsTag(p, tag) && p.action == Schedule then p.GetScheduleIDs() else []
  {
    assert order[..i + 1] == order[..i] + [order[i]] && order[..i + 1][..i] == order[..i];
    var id, p := order[i], policies[order[i]];
    assert forall x :: x in order[..i + 1] <==> x in order[..i] || x == id;
    if TargetsTag(p, tag) {
      assert id in order && id in order[..i + 1] && id in policies;
      assert SomeActs(policies, order, tag, p.action) && SomeActs(policies, order[..i + 1], tag, p.action);
    }
  }

  lemma SomeOfAll(policies: PolicyTable, order: seq<string>, tag: string)
    requires IsOrder(order, policies)
    ensures forall action :: SomeActs(policies, order, tag, action) <==> TagActs(policies, [tag], action)
  {
    assert forall t :: t in [tag] <==> t == tag;
    forall action ensures SomeActs(policies, order, tag, action) <==> TagActs(policies, [tag], action) {
      if id :| id in order && id in policies && TargetsTag(policies[id], tag) && policies[id].action == action {
        assert tag in [tag] && id in policies;
      }
    }
  }
}
