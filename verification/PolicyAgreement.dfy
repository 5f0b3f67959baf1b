/** The result of policy evaluation does not depend on the iteration order of the policy map
    unless equal priorities compete, and the two evaluators agree unless a disabled global
    switch parts them. */
module PolicyAgreement {
  import opened Options
  import opened ScheduleModel
  import opened PolicyModel
  import opened PolicyEngine
  import Sched = ScheduleEngine

  /** The schedules and the instant that bundles are evaluated against. */
  datatype World = World(zones: Zones, schedules: map<string, ScheduleRecord>, now: int)

  ghost function VerdictAction(w: World, v: Verdict): Action {
    match v
    case Fixed(a) => a
    case Bundle(ids) => Sched.FreshAction(w.zones, w.schedules, ids, w.now)
  }

  /** The stored schedules are keyed and validated, and no schedule id contains a plus sign. */
  ghost predicate CleanWorld(w: World, policies: PolicyTable) {
    && Sched.KeyedById(w.schedules) && Sched.CleanStore(w.schedules)
    && forall id | id in policies :: Sched.PlusFree(policies[id].GetScheduleIDs())
  }

  lemma CleanBundle(w: World, policies: PolicyTable, ids: seq<string>)
    requires CleanWorld(w, policies)
    requires forall s | s in ids :: exists id :: id in policies && s in policies[id].GetScheduleIDs()
    ensures Sched.Unambiguous(w.schedules, ids)
  {
  }

  lemma TagBundleIsClean(w: World, policies: PolicyTable, tags: seq<string>, ids: seq<string>)
    requires CleanWorld(w, policies) && IsTagBundle(policies, tags, ids)
    ensures Sched.Unambiguous(w.schedules, ids)
  {
    forall s | s in ids ensures exists id :: id in policies && s in policies[id].GetScheduleIDs() {
      assert TagSchedule(policies, tags, s);
    }
    CleanBundle(w, policies, ids);
  }

  /** Policies of the device that share the top priority come to the same action. */
  ghost predicate TiesAgree(w: World, policies: PolicyTable, pdid: string, hasEvaluator: bool) {
    forall p, q | IsBest(policies, pdid, p) && IsBest(policies, pdid, q) ::
      VerdictAction(w, PolicyVerdict(p, hasEvaluator)) == VerdictAction(w, PolicyVerdict(q, hasEvaluator))
  }

  lemma LayersAgree(w: World, policies: PolicyTable, d: LocalDevice, hasEvaluator: bool, u: Verdict, v: Verdict)
    requires CleanWorld(w, policies)
    requires LayersDecide(policies, d, hasEvaluator, u) && LayersDecide(policies, d, hasEvaluator, v)
    requires HasDevicePolicy(policies, d.pdid) ==> TiesAgree(w, policies, d.pdid, hasEvaluator)
    ensures VerdictAction(w, u) == VerdictAction(w, v)
  {
    if !HasDevicePolicy(policies, d.pdid) && u.Bundle? {
      TagBundleIsClean(w, policies, d.tags, u.ids);
      assert Sched.SameIds(u.ids, v.ids);
      Sched.FreshActionIgnoresOrder(w.zones, w.schedules, u.ids, v.ids, w.now);
    }
  }

  lemma VerdictsAgreeIffTiesAgree(w: World, policies: PolicyTable, d: LocalDevice, hasEvaluator: bool)
    requires CleanWorld(w, policies)
    ensures (forall u, v | Reaches(policies, d, hasEvaluator, u) && Reaches(policies, d, hasEvaluator, v) ::
               VerdictAction(w, u) == VerdictAction(w, v))
       <==> (LayersConsulted(policies, d) && HasDevicePolicy(policies, d.pdid) ==>
               TiesAgree(w, policies, d.pdid, hasEvaluator))
  {
    if LayersConsulted(policies, d) && HasDevicePolicy(policies, d.pdid) {
      forall p | IsBest(policies, d.pdid, p)
        ensures Reaches(policies, d, hasEvaluator, PolicyVerdict(p, hasEvaluator))
      {
      }
    }
    if LayersConsulted(policies, d) && HasDevicePolicy(policies, d.pdid) ==>
       TiesAgree(w, policies, d.pdid, hasEvaluator)
    {
      forall u, v | Reaches(policies, d, hasEvaluator, u) && Reaches(policies, d, hasEvaluator, v)
        ensures VerdictAction(w, u) == VerdictAction(w, v)
      {
        if LayersConsulted(policies, d) && !LayersSilent(policies, d, hasEvaluator) {
          LayersAgree(w, policies, d, hasEvaluator, u, v);
        }
      }
    }
  }

  /** Some iteration orders lead the evaluator to this action. */
  ghost predicate SomeOrderGives(w: World, policies: PolicyTable, d: LocalDevice, hasEvaluator: bool, action: Action) {
    exists visits :: AreVisits(visits, policies, d)
      && VerdictAction(w, VerdictIn(policies, d, hasEvaluator, visits)) == action
  }

  lemma SameVerdictSameAction(
      w: World, policies: PolicyTable, d: LocalDevice, hasEvaluator: bool, u: Verdict, v: Verdict)
    requires CleanWorld(w, policies) && Reaches(policies, d, hasEvaluator, u)
    requires SameVerdict(policies, d, hasEvaluator, u, v)
    ensures VerdictAction(w, u) == VerdictAction(w, v)
  {
    if u != v {
      TagBundleIsClean(w, policies, d.tags, u.ids);
      Sched.FreshActionIgnoresOrder(w.zones, w.schedules, u.ids, v.ids, w.now);
    }
  }

  lemma OrderGivesIffReached(w: World, policies: PolicyTable, d: LocalDevice, hasEvaluator: bool, action: Action)
    requires CleanWorld(w, policies)
    ensures SomeOrderGives(w, policies, d, hasEvaluator, action) <==>
            exists v :: Reaches(policies, d, hasEvaluator, v) && VerdictAction(w, v) == action
  {
    if v :| Reaches(policies, d, hasEvaluator, v) && VerdictAction(w, v) == action {
      ReachedInSomeOrder(policies, d, hasEvaluator, v);
      var visits :| AreVisits(visits, policies, d)
        && SameVerdict(policies, d, hasEvaluator, VerdictIn(policies, d, hasEvaluator, visits), v);
      VerdictInIsReached(policies, d, hasEvaluator, visits);
      SameVerdictSameAction(w, policies, d, hasEvaluator, VerdictIn(policies, d, hasEvaluator, visits), v);
    }
    if visits :| AreVisits(visits, policies, d)
                 && VerdictAction(w, VerdictIn(policies, d, hasEvaluator, visits)) == action {
      VerdictInIsReached(policies, d, hasEvaluator, visits);
    }
  }

  /** All iteration orders give one action exactly when the top-priority policies of the
      device, if they are reached, come to the same action. */
  lemma OrderIrrelevantIffTiesAgree(w: World, policies: PolicyTable, d: LocalDevice, hasEvaluator: bool)
    requires CleanWorld(w, policies)
    ensures (forall a, b | SomeOrderGives(w, policies, d, hasEvaluator, a)
                           && SomeOrderGives(w, policies, d, hasEvaluator, b) :: a == b)
       <==> (LayersConsulted(policies, d) && HasDevicePolicy(policies, d.pdid) ==>
               TiesAgree(w, policies, d.pdid, hasEvaluator))
  {
    VerdictsAgreeIffTiesAgree(w, policies, d, hasEvaluator);
    forall a ensures SomeOrderGives(w, policies, d, hasEvaluator, a) <==>
                     exists v :: Reaches(policies, d, hasEvaluator, v) && VerdictAction(w, v) == a
    {
      OrderGivesIffReached(w, policies, d, hasEvaluator, a);
    }
    forall u | Reaches(policies, d, hasEvaluator, u)
      ensures SomeOrderGives(w, policies, d, hasEvaluator, VerdictAction(w, u))
    {
      OrderGivesIffReached(w, policies, d, hasEvaluator, VerdictAction(w, u));
    }
  }

  /** The enabled policies of the device have pairwise different priorities. */
  ghost predicate DistinctPriorities(policies: PolicyTable, pdid: string) {
    forall i, j | i in policies && j in policies && i != j
      && TargetsDevice(policies[i], pdid) && TargetsDevice(policies[j], pdid) ::
      policies[i].priority != policies[j].priority
  }

  /** Such policies never tie. */
  lemma DistinctPrioritiesNeverTie(w: World, policies: PolicyTable, pdid: string, hasEvaluator: bool)
    requires DistinctPriorities(policies, pdid)
    ensures TiesAgree(w, policies, pdid, hasEvaluator)
  {
    forall p, q | IsBest(policies, pdid, p) && IsBest(policies, pdid, q) ensures p == q {
      var i :| i in policies && policies[i] == p;
      var j :| j in policies && policies[j] == q;
    }
  }

  /** The global switch is absent, enabled, or disabled in a way that does not show.  Only
      `EvaluateAction` asks whether it is enabled: disabled and fixed, it still decides for
      `GetEffectivePolicy`; disabled and on schedule, its schedules are not evaluated. */
  ghost predicate GlobalSwitchHarmless(w: World, policies: PolicyTable, d: LocalDevice) {
    || INFRASTRUCTURE in d.tags
    || GLOBAL_DEFAULT !in policies
    || policies[GLOBAL_DEFAULT].enabled
    || (var g := policies[GLOBAL_DEFAULT];
        if g.action != Schedule then
          forall v | LayersDecide(policies, d, true, v) :: VerdictAction(w, v) == g.action
        else
          || !LayersSilent(policies, d, true)
          || Sched.FreshAction(w.zones, w.schedules, g.GetScheduleIDs(), w.now) == Schedule)
  }

  /** Given a schedule engine, `EvaluateAction` and `GetEffectivePolicy` followed by the
      evaluation of its schedules come to the same action exactly when the global switch is
      harmless. */
  lemma EvaluatorsAgreeIffSwitchHarmless(w: World, policies: PolicyTable, d: LocalDevice, v: Verdict, p: Verdict)
    requires CleanWorld(w, policies) && TiesAgree(w, policies, d.pdid, true)
    requires INFRASTRUCTURE in d.tags <==> INFRASTRUCTURE in d.deviceTags
    requires Reaches(policies, d, true, v) && EffectivelyReaches(policies, d, p)
    ensures VerdictAction(w, v) == VerdictAction(w, p) <==> GlobalSwitchHarmless(w, policies, d)
  {
    if LayersConsulted(policies, d) && !LayersSilent(policies, d, true) {
      forall u | LayersDecide(policies, d, true, u) ensures VerdictAction(w, u) == VerdictAction(w, v) {
        LayersAgree(w, policies, d, true, u, v);
      }
    }
  }

  /** Whatever `EvaluateAction` returns is the fresh action of a verdict it can reach. */
  lemma EvaluateActionIsFresh(w: World, policies: PolicyTable, d: LocalDevice, v: Verdict, action: Action)
    requires CleanWorld(w, policies) && Reaches(policies, d, true, v)
    requires Acts(w.zones, w.schedules, v, w.now, action)
    ensures action == VerdictAction(w, v)
  {
    if v.Bundle? {
      if exists id :: id in policies && v.ids == policies[id].GetScheduleIDs() {
        CleanBundle(w, policies, v.ids);
      } else {
        TagBundleIsClean(w, policies, d.tags, v.ids);
      }
    }
  }
}
