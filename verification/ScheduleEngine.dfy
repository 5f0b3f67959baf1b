/** The engine that keeps the live schedules and memoises merged bundles.  Its cache key
    forgets the order in which a bundle was asked for; its answers do not show it. */
module ScheduleEngine {
  import opened Options
  import opened ScheduleModel
  import opened ScheduleParser
  import opened ScheduleConflict
  import opened ScheduleMeaning
  import opened ScheduleOrder
  import Sorting
  import Strings

  // ----- bundle keys

  function BundleKey(scheduleIds: seq<string>): string {
    Strings.Join(Strings.Sort(scheduleIds), "+")
  }

  predicate PlusFree(ids: seq<string>) {
    forall id | id in ids :: '+' !in id
  }

  /** A key stands for a list of ids up to order, as long as no id contains a plus sign. */
  lemma KeyIdentifiesBundle(xs: seq<string>, ys: seq<string>)
    requires xs != [] && ys != [] && PlusFree(xs) && PlusFree(ys)
    ensures BundleKey(xs) == BundleKey(ys) <==> multiset(xs) == multiset(ys)
  {
    Strings.JoinSorted(xs, ys, '+');
  }

  /** An id joined from two plus-free parts shares its key with the bundle of the parts exactly when
      the parts are in sorted order. */
  lemma PlusMakesKeysCollide(a: string, b: string)
    requires '+' !in a && '+' !in b
    ensures BundleKey([a + "+" + b]) == BundleKey([a, b]) <==> Strings.Leq(a, b)
  {
    SortOne(a + "+" + b);
    SortTwo(a, b);
    if !Strings.Leq(a, b) && b + "+" + a == a + "+" + b {
      Strings.FirstSeparator(b, a, a, b, '+');
      Strings.LeqTotal(a, b);
    }
  }

  lemma SortOne(a: string)
    ensures BundleKey([a]) == a
  {
    assert Sorting.Sort(Strings.Leq, [a]) == [a];
  }

  lemma SortTwo(a: string, b: string)
    ensures BundleKey([a, b]) == if Strings.Leq(a, b) then a + "+" + b else b + "+" + a
  {
    Sorting.SortPair(Strings.Leq, a, b);
    Strings.JoinPair(a, b, "+");
    Strings.JoinPair(b, a, "+");
  }

  // ----- the meaning of a bundle without a cache

  ghost predicate AllPresent(schedules: map<string, ScheduleRecord>, ids: seq<string>) {
    forall id | id in ids :: id in schedules
  }

  function Resolve(schedules: map<string, ScheduleRecord>, ids: seq<string>): (r: seq<ScheduleRecord>)
    requires AllPresent(schedules, ids)
    ensures |r| == |ids| && forall i | 0 <= i < |ids| :: r[i] == schedules[ids[i]]
  {
    seq(|ids|, i requires 0 <= i < |ids| => schedules[ids[i]])
  }

  /** The composite of a bundle, unless a schedule is missing or the bundle does not merge. */
  ghost function BundleComposite(schedules: map<string, ScheduleRecord>, ids: seq<string>): Option<ScheduleRecord>
    requires ids != []
  {
    if AllPresent(schedules, ids) && Mergeable(Resolve(schedules, ids))
    then Some(Composite(Resolve(schedules, ids)))
    else None
  }

  /** Merge and evaluate from scratch, in the caller's own order. */
  ghost function FreshAction(zones: Zones, schedules: map<string, ScheduleRecord>, ids: seq<string>, now: int): Action {
    if ids == [] then Allow
    else
      match BundleComposite(schedules, ids)
      case None => Block
      case Some(composite) => EvaluateAt(zones, composite, now)
  }

  ghost predicate KeyedById(schedules: map<string, ScheduleRecord>) {
    forall id | id in schedules :: schedules[id].id == id
  }

  /** The schedules of the bundle are such as the handlers store. */
  ghost predicate DistinctClocks(schedules: map<string, ScheduleRecord>, ids: seq<string>) {
    forall id | id in ids && id in schedules ::
      forall rule | rule in schedules[id].rules :: DistinctTimes(rule)
  }

  /** And no id contains the separator of the cache key. */
  ghost predicate Unambiguous(schedules: map<string, ScheduleRecord>, ids: seq<string>) {
    PlusFree(ids) && (forall id | id in schedules :: '+' !in id) && DistinctClocks(schedules, ids)
  }

  lemma ResolvedAreConsistent(schedules: map<string, ScheduleRecord>, ids: seq<string>)
    requires KeyedById(schedules) && AllPresent(schedules, ids)
    ensures IdsConsistent(Resolve(schedules, ids))
  {
    var r := Resolve(schedules, ids);
    forall a, b | a in r && b in r && a.id == b.id ensures a == b {
      var i :| 0 <= i < |r| && r[i] == a;
      var j :| 0 <= j < |r| && r[j] == b;
    }
  }

  ghost predicate SameIds(xs: seq<string>, ys: seq<string>) {
    forall id :: id in xs <==> id in ys
  }

  lemma ResolvedAreSame(schedules: map<string, ScheduleRecord>, xs: seq<string>, ys: seq<string>)
    requires AllPresent(schedules, xs) && SameIds(xs, ys)
    ensures AllPresent(schedules, ys)
    ensures SameSchedules(Resolve(schedules, xs), Resolve(schedules, ys))
  {
    ResolvedMembers(schedules, xs);
    ResolvedMembers(schedules, ys);
  }

  lemma ResolvedMembers(schedules: map<string, ScheduleRecord>, ids: seq<string>)
    requires AllPresent(schedules, ids)
    ensures forall s :: s in Resolve(schedules, ids) <==> exists id :: id in ids && schedules[id] == s
  {
    var r := Resolve(schedules, ids);
    forall s | exists id :: id in ids && schedules[id] == s ensures s in r {
      var id :| id in ids && schedules[id] == s;
      var i :| 0 <= i < |ids| && ids[i] == id;
      assert r[i] == s;
    }
  }

  lemma BundleCompositeIgnoresOrder(
      zones: Zones, schedules: map<string, ScheduleRecord>, xs: seq<string>, ys: seq<string>, now: int)
    requires KeyedById(schedules) && DistinctClocks(schedules, xs)
    requires xs != [] && ys != [] && SameIds(xs, ys) && BundleComposite(schedules, xs).Some?
    ensures BundleComposite(schedules, ys).Some?
    ensures EvaluateAt(zones, BundleComposite(schedules, xs).value, now)
         == EvaluateAt(zones, BundleComposite(schedules, ys).value, now)
  {
    ResolvedAreSame(schedules, xs, ys);
    var rx, ry := Resolve(schedules, xs), Resolve(schedules, ys);
    ResolvedAreConsistent(schedules, xs);
    ResolvedMembers(schedules, xs);
    MergeableIgnoresOrder(rx, ry);
    EvaluateIgnoresOrder(rx, ry, LocalTime(zones, rx[0].timezone, now));
  }

  /** Neither the order nor the repetition of ids in a bundle influences its action. */
  lemma FreshActionIgnoresOrder(
      zones: Zones, schedules: map<string, ScheduleRecord>, xs: seq<string>, ys: seq<string>, now: int)
    requires KeyedById(schedules) && DistinctClocks(schedules, xs) && SameIds(xs, ys)
    ensures FreshAction(zones, schedules, ys, now) == FreshAction(zones, schedules, xs, now)
  {
    assert forall i | 0 <= i < |xs| :: xs[i] in ys;
    assert forall i | 0 <= i < |ys| :: ys[i] in xs;
    if xs != [] {
      if BundleComposite(schedules, xs).Some? {
        BundleCompositeIgnoresOrder(zones, schedules, xs, ys, now);
      } else if BundleComposite(schedules, ys).Some? {
        BundleCompositeIgnoresOrder(zones, schedules, ys, xs, now);
      }
    }
  }

  // ----- what the cache may hold

  type Index = map<string, seq<string>>

  ghost predicate Indexed(reverseIdx: Index, id: string, key: string) {
    id in reverseIdx && key in reverseIdx[id]
  }

  ghost predicate Extends(before: Index, after: Index) {
    forall id, key | Indexed(before, id, key) :: Indexed(after, id, key)
  }

  /** A composite cached under a key is the merge of the current schedules of some bundle
      `ids` with that key, and every id of the bundle leads back to the entry. */
  ghost predicate EntryValid(
      schedules: map<string, ScheduleRecord>, composite: ScheduleRecord, reverseIdx: Index,
      key: string, ids: seq<string>)
  {
    && ids != [] && BundleKey(ids) == key
    && BundleComposite(schedules, ids) == Some(composite)
    && forall id | id in ids :: Indexed(reverseIdx, id, key)
  }

  ghost predicate CacheValid(
      schedules: map<string, ScheduleRecord>, mergedCache: map<string, ScheduleRecord>,
      reverseIdx: Index, origin: map<string, seq<string>>)
  {
    forall key | key in mergedCache ::
      key in origin && EntryValid(schedules, mergedCache[key], reverseIdx, key, origin[key])
  }

  /** The cache after dropping what the reverse index lists for an id. */
  ghost function Invalidated(mergedCache: map<string, ScheduleRecord>, reverseIdx: Index, id: string)
    : map<string, ScheduleRecord>
  {
    if id in reverseIdx then mergedCache - (set key | key in reverseIdx[id]) else mergedCache
  }

  ghost predicate SameElsewhere(before: map<string, ScheduleRecord>, after: map<string, ScheduleRecord>, id: string) {
    forall other | other in before && other != id :: other in after && after[other] == before[other]
  }

  lemma EntrySurvives(
      before: map<string, ScheduleRecord>, after: map<string, ScheduleRecord>, composite: ScheduleRecord,
      reverseIdx: Index, key: string, ids: seq<string>, id: string)
    requires EntryValid(before, composite, reverseIdx, key, ids) && !Indexed(reverseIdx, id, key)
    requires SameElsewhere(before, after, id)
    ensures EntryValid(after, composite, reverseIdx - {id}, key, ids)
  {
    assert id !in ids;
    CompositeElsewhere(before, after, ids, id);
    forall other | other in ids ensures Indexed(reverseIdx - {id}, other, key) {
      assert Indexed(reverseIdx, other, key) && other != id;
    }
  }

  lemma CompositeElsewhere(
      before: map<string, ScheduleRecord>, after: map<string, ScheduleRecord>, ids: seq<string>, id: string)
    requires ids != [] && AllPresent(before, ids) && id !in ids && SameElsewhere(before, after, id)
    ensures BundleComposite(after, ids) == BundleComposite(before, ids)
  {
    assert AllPresent(after, ids);
    assert Resolve(after, ids) == Resolve(before, ids);
  }

  /** After an invalidation no cached bundle involves the schedule that changed. */
  lemma InvalidationKeepsCacheValid(
      before: map<string, ScheduleRecord>, after: map<string, ScheduleRecord>,
      mergedCache: map<string, ScheduleRecord>, reverseIdx: Index, origin: map<string, seq<string>>, id: string)
    requires CacheValid(before, mergedCache, reverseIdx, origin)
    requires SameElsewhere(before, after, id)
    ensures CacheValid(after, Invalidated(mergedCache, reverseIdx, id), reverseIdx - {id}, origin)
  {
    var kept := Invalidated(mergedCache, reverseIdx, id);
    forall key | key in kept
      ensures key in origin && EntryValid(after, kept[key], reverseIdx - {id}, key, origin[key])
    {
      assert !Indexed(reverseIdx, id, key);
      EntrySurvives(before, after, mergedCache[key], reverseIdx, key, origin[key], id);
    }
  }

  lemma EntryStays(
      schedules: map<string, ScheduleRecord>, composite: ScheduleRecord, reverseIdx: Index, extended: Index,
      key: string, ids: seq<string>)
    requires EntryValid(schedules, composite, reverseIdx, key, ids) && Extends(reverseIdx, extended)
    ensures EntryValid(schedules, composite, extended, key, ids)
  {
  }

  lemma RememberKeepsCacheValid(
      schedules: map<string, ScheduleRecord>, mergedCache: map<string, ScheduleRecord>,
      reverseIdx: Index, origin: map<string, seq<string>>, key: string, ids: seq<string>,
      composite: ScheduleRecord, extended: Index)
    requires CacheValid(schedules, mergedCache, reverseIdx, origin)
    requires EntryValid(schedules, composite, extended, key, ids) && Extends(reverseIdx, extended)
    ensures CacheValid(schedules, mergedCache[key := composite], extended, origin[key := ids])
  {
    var grown, origins := mergedCache[key := composite], origin[key := ids];
    forall other | other in grown
      ensures other in origins && EntryValid(schedules, grown[other], extended, other, origins[other])
    {
      if other != key {
        EntryStays(schedules, mergedCache[other], reverseIdx, extended, other, origin[other]);
      }
    }
  }

  /** What the cache holds for a key answers for every order of the bundle. */
  lemma CachedAnswer(
      zones: Zones, schedules: map<string, ScheduleRecord>, composite: ScheduleRecord, reverseIdx: Index,
      origin: seq<string>, ids: seq<string>, now: int)
    requires KeyedById(schedules) && ids != [] && Unambiguous(schedules, ids)
    requires EntryValid(schedules, composite, reverseIdx, BundleKey(ids), origin)
    ensures FreshAction(zones, schedules, ids, now) == EvaluateAt(zones, composite, now)
  {
    KeyIdentifiesBundle(origin, ids);
    Sorting.SameMembers(origin, ids);
    FreshActionIgnoresOrder(zones, schedules, origin, ids, now);
  }

  /** Whatever the ids and the rules, the action is the fresh one of a bundle with the same key. */
  ghost predicate SharesKey(
      zones: Zones, schedules: map<string, ScheduleRecord>, ids: seq<string>, now: int, action: Action)
  {
    exists other ::
      && BundleKey(other) == BundleKey(ids) && (other == ids || AllPresent(schedules, other))
      && action == FreshAction(zones, schedules, other, now)
  }

  ghost predicate EveryCacheFresh(zones: Zones, schedules: map<string, ScheduleRecord>, ids: seq<string>, now: int) {
    forall cache, index, origin | CacheValid(schedules, cache, index, origin) && BundleKey(ids) in cache ::
      EvaluateAt(zones, cache[BundleKey(ids)], now) == FreshAction(zones, schedules, ids, now)
  }

  ghost predicate OneActionPerKey(zones: Zones, schedules: map<string, ScheduleRecord>, ids: seq<string>, now: int) {
    forall other | MergesUnderKey(schedules, other, BundleKey(ids)) ::
      FreshAction(zones, schedules, other, now) == FreshAction(zones, schedules, ids, now)
  }

  /** Exactly when the key is enough: every cache that is right for the schedules answers for a bundle
      as a fresh merge does, if and only if all mergeable bundles with that key have its action. */
  lemma CacheAnswersFreshIff(zones: Zones, schedules: map<string, ScheduleRecord>, ids: seq<string>, now: int)
    requires ids != []
    ensures EveryCacheFresh(zones, schedules, ids, now) <==> OneActionPerKey(zones, schedules, ids, now)
  {
    if OneActionPerKey(zones, schedules, ids, now) {
      OneActionKeepsFresh(zones, schedules, ids, now);
    }
    if EveryCacheFresh(zones, schedules, ids, now) {
      forall other | MergesUnderKey(schedules, other, BundleKey(ids))
        ensures FreshAction(zones, schedules, other, now) == FreshAction(zones, schedules, ids, now)
      {
        FreshCacheMeansOneAction(zones, schedules, ids, other, now);
      }
    }
  }

  lemma FreshCacheMeansOneAction(
      zones: Zones, schedules: map<string, ScheduleRecord>, ids: seq<string>, other: seq<string>, now: int)
    requires EveryCacheFresh(zones, schedules, ids, now) && MergesUnderKey(schedules, other, BundleKey(ids))
    ensures FreshAction(zones, schedules, other, now) == FreshAction(zones, schedules, ids, now)
  {
    var key, composite := BundleKey(ids), BundleComposite(schedules, other).value;
    var cache := CacheOfOne(schedules, other, key, composite);
    assert EvaluateAt(zones, cache[key], now) == FreshAction(zones, schedules, ids, now);
  }

  lemma OneActionKeepsFresh(zones: Zones, schedules: map<string, ScheduleRecord>, ids: seq<string>, now: int)
    requires ids != [] && OneActionPerKey(zones, schedules, ids, now)
    ensures EveryCacheFresh(zones, schedules, ids, now)
  {
    forall cache, index, origin | CacheValid(schedules, cache, index, origin) && BundleKey(ids) in cache
      ensures EvaluateAt(zones, cache[BundleKey(ids)], now) == FreshAction(zones, schedules, ids, now)
    {
      assert MergesUnderKey(schedules, origin[BundleKey(ids)], BundleKey(ids));
    }
  }

  /** Any bundle that merges can be what the cache holds. */
  lemma CacheOfOne(schedules: map<string, ScheduleRecord>, ids: seq<string>, key: string, composite: ScheduleRecord)
    returns (cache: map<string, ScheduleRecord>)
    requires ids != [] && BundleKey(ids) == key && BundleComposite(schedules, ids) == Some(composite)
    ensures key in cache && cache[key] == composite
    ensures exists index, origin :: CacheValid(schedules, cache, index, origin)
  {
    cache := map[key := composite];
    var index := map id | id in ids :: [key];
    assert EntryValid(schedules, composite, index, key, ids);
    assert CacheValid(schedules, cache, index, map[key := ids]);
  }

  ghost predicate MergesUnderKey(schedules: map<string, ScheduleRecord>, ids: seq<string>, key: string) {
    ids != [] && BundleKey(ids) == key && BundleComposite(schedules, ids).Some?
  }

  // ----- the engine's state on values

  datatype Memory = Memory(schedules: map<string, ScheduleRecord>, cache: map<string, ScheduleRecord>, index: Index)

  datatype Call = Upsert(s: ScheduleRecord) | Delete(id: string) | EvaluateAll(ids: seq<string>, now: int)

  /** The key is appended to the entry of each id, once per occurrence. */
  ghost function IndexedUnder(index: Index, ids: seq<string>, key: string): Index {
    if ids == [] then index
    else
      var before, id := IndexedUnder(index, ids[..|ids| - 1], key), ids[|ids| - 1];
      before[id := (if id in before then before[id] else []) + [key]]
  }

  /** Only a bundle that merges and whose key is not there yet is remembered. */
  ghost function AfterEvaluate(m: Memory, ids: seq<string>): Memory {
    if ids == [] || BundleKey(ids) in m.cache || BundleComposite(m.schedules, ids).None? then m
    else
      var key := BundleKey(ids);
      m.(cache := m.cache[key := BundleComposite(m.schedules, ids).value], index := IndexedUnder(m.index, ids, key))
  }

  /** What is remembered under the key answers, whichever bundle it was stored for. */
  ghost function AnswerTo(zones: Zones, m: Memory, ids: seq<string>, now: int): Action {
    var cache := AfterEvaluate(m, ids).cache;
    if ids == [] then Allow
    else if BundleKey(ids) in cache then EvaluateAt(zones, cache[BundleKey(ids)], now)
    else Block
  }

  ghost function AfterCall(m: Memory, call: Call): Memory {
    match call
    case Upsert(s) => Memory(m.schedules[s.id := s], Invalidated(m.cache, m.index, s.id), m.index - {s.id})
    case Delete(id) => Memory(m.schedules - {id}, Invalidated(m.cache, m.index, id), m.index - {id})
    case EvaluateAll(ids, _) => AfterEvaluate(m, ids)
  }

  /** The answers of the caching engine. */
  ghost function CachedRun(zones: Zones, m: Memory, calls: seq<Call>): seq<Action>
    decreases |calls|
  {
    if calls == [] then []
    else
      var rest := CachedRun(zones, AfterCall(m, calls[0]), calls[1..]);
      if calls[0].EvaluateAll? then [AnswerTo(zones, m, calls[0].ids, calls[0].now)] + rest else rest
  }

  // ----- the engine

  class Engine {
    const zones: Zones
    var schedules: map<string, ScheduleRecord>
    var mergedCache: map<string, ScheduleRecord>
    var reverseIdx: Index

    /** The ids from which each cached composite was merged, in the order of that call. */
    ghost var origin: map<string, seq<string>>

    ghost predicate Valid()
      reads this
    {
      KeyedById(schedules) && CacheValid(schedules, mergedCache, reverseIdx, origin)
    }

    ghost function Memorised(): Memory
      reads this
    {
      Memory(schedules, mergedCache, reverseIdx)
    }

    constructor (zones: Zones)
      ensures Valid() && Memorised() == Memory(map[], map[], map[]) && this.zones == zones
    {
      this.zones := zones;
      schedules, mergedCache, reverseIdx := map[], map[], map[];
      origin := map[];
    }

    /** `before` are the schedules as they were before the one with this id changed. */
    method InvalidateCacheForSchedule(id: string, ghost before: map<string, ScheduleRecord>)
      requires CacheValid(before, mergedCache, reverseIdx, origin)
      requires SameElsewhere(before, schedules, id)
      modifies this`mergedCache, this`reverseIdx
      ensures CacheValid(schedules, mergedCache, reverseIdx, origin)
      ensures reverseIdx == old(reverseIdx) - {id}
      ensures mergedCache == Invalidated(old(mergedCache), old(reverseIdx), id)
    {
      InvalidationKeepsCacheValid(before, schedules, mergedCache, reverseIdx, origin, id);
      DropEntries(id);
    }

    method DropEntries(id: string)
      modifies this`mergedCache, this`reverseIdx
      ensures reverseIdx == old(reverseIdx) - {id}
      ensures mergedCache == Invalidated(old(mergedCache), old(reverseIdx), id)
    {
      if id in reverseIdx {
        var keys := reverseIdx[id];
        for i := 0 to |keys|
          invariant mergedCache == old(mergedCache) - (set key | key in keys[..i])
          invariant reverseIdx == old(reverseIdx)
        {
          assert keys[..i + 1] == keys[..i] + [keys[i]];
          mergedCache := mergedCache - {keys[i]};
        }
        assert keys[..|keys|] == keys;
        reverseIdx := reverseIdx - {id};
      }
    }

    method UpsertSchedule(s: ScheduleRecord)
      requires Valid()
      modifies this
      ensures Valid() && Memorised() == AfterCall(old(Memorised()), Upsert(s))
    {
      ghost var before := schedules;
      schedules := schedules[s.id := s];
      InvalidateCacheForSchedule(s.id, before);
    }

    method DeleteSchedule(id: string)
      requires Valid()
      modifies this
      ensures Valid() && Memorised() == AfterCall(old(Memorised()), Delete(id))
    {
      ghost var before := schedules;
      schedules := schedules - {id};
      InvalidateCacheForSchedule(id, before);
    }

    /** The composite of a bundle that is not in the cache: nothing if a schedule is missing or
        the bundle does not merge. */
    method MergeFresh(scheduleIds: seq<string>) returns (r: Option<ScheduleRecord>)
      requires scheduleIds != []
      ensures r == BundleComposite(schedules, scheduleIds)
    {
      var resolved: seq<ScheduleRecord> := [];
      for i := 0 to |scheduleIds|
        invariant AllPresent(schedules, scheduleIds[..i]) && resolved == Resolve(schedules, scheduleIds[..i])
      {
        assert scheduleIds[i] in scheduleIds;
        if scheduleIds[i] !in schedules {
          return None;
        }
        resolved := resolved + [schedules[scheduleIds[i]]];
      }
      assert scheduleIds[..|scheduleIds|] == scheduleIds;
      var outcome := MergeSchedules(resolved);
      return if outcome.Merged? then Some(outcome.composite) else None;
    }

    /** The action of a bundle, from the cache when its key is there, else from a merge that is then
        remembered.  With unambiguous keys it is that of a fresh merge in the order given. */
    method EvaluateBundle(scheduleIds: seq<string>, now: int) returns (action: Action)
      requires Valid()
      modifies this`mergedCache, this`reverseIdx, this`origin
      ensures Valid() && Memorised() == AfterEvaluate(old(Memorised()), scheduleIds)
      ensures action == AnswerTo(zones, old(Memorised()), scheduleIds, now)
      ensures Unambiguous(schedules, scheduleIds) ==> action == FreshAction(zones, schedules, scheduleIds, now)
      ensures SharesKey(zones, schedules, scheduleIds, now, action)
    {
      if |scheduleIds| == 0 {
        return Allow;
      }
      var key := BundleKey(scheduleIds);
      if key !in mergedCache {
        var comp := MergeFresh(scheduleIds);
        if comp.None? {
          assert Block == FreshAction(zones, schedules, scheduleIds, now);
          return Block;
        }
        Remember(scheduleIds, key, comp.value);
      } else if Unambiguous(schedules, scheduleIds) {
        CachedAnswer(zones, schedules, mergedCache[key], reverseIdx, origin[key], scheduleIds, now);
      }
      action := Evaluate(zones, mergedCache[key], now);
      assert EntryValid(schedules, mergedCache[key], reverseIdx, key, origin[key]);
    }

    /** Stores a composite under its key and indexes it under each of its ids. */
    method Remember(scheduleIds: seq<string>, key: string, composite: ScheduleRecord)
      requires Valid() && key == BundleKey(scheduleIds) && scheduleIds != []
      requires BundleComposite(schedules, scheduleIds) == Some(composite)
      modifies this`mergedCache, this`reverseIdx, this`origin
      ensures Valid() && mergedCache == old(mergedCache)[key := composite]
      ensures reverseIdx == IndexedUnder(old(reverseIdx), scheduleIds, key)
    {
      ghost var before := reverseIdx;
      IndexBundle(scheduleIds, key);
      RememberKeepsCacheValid(schedules, mergedCache, before, origin, key, scheduleIds, composite, reverseIdx);
      mergedCache := mergedCache[key := composite];
      origin := origin[key := scheduleIds];
    }

    method IndexBundle(scheduleIds: seq<string>, key: string)
      modifies this`reverseIdx
      ensures reverseIdx == IndexedUnder(old(reverseIdx), scheduleIds, key)
      ensures Extends(old(reverseIdx), reverseIdx)
      ensures forall id | id in scheduleIds :: Indexed(reverseIdx, id, key)
    {
      for i := 0 to |scheduleIds|
        invariant reverseIdx == IndexedUnder(old(reverseIdx), scheduleIds[..i], key)
        invariant Extends(old(reverseIdx), reverseIdx)
        invariant forall k | 0 <= k < i :: Indexed(reverseIdx, scheduleIds[k], key)
      {
        assert scheduleIds[..i + 1][..i] == scheduleIds[..i];
        var keys := if scheduleIds[i] in reverseIdx then reverseIdx[scheduleIds[i]] else [];
        reverseIdx := reverseIdx[scheduleIds[i] := keys + [key]];
      }
      assert scheduleIds[..|scheduleIds|] == scheduleIds;
    }

    method EvaluateNow(schedId: string, now: int) returns (action: Action)
      requires Valid()
      modifies this`mergedCache, this`reverseIdx, this`origin
      ensures Valid()
      ensures Memorised() == if schedId == "" then old(Memorised()) else AfterEvaluate(old(Memorised()), [schedId])
      ensures action == if schedId == "" then Allow else AnswerTo(zones, old(Memorised()), [schedId], now)
      ensures schedId != "" && Unambiguous(schedules, [schedId]) ==>
                action == FreshAction(zones, schedules, [schedId], now)
      ensures schedId != "" ==> SharesKey(zones, schedules, [schedId], now, action)
    {
      if schedId == "" {
        return Allow;
      }
      action := EvaluateBundle([schedId], now);
    }
  }

  // ----- whole runs

  /** The answers of an engine that keeps no cache. */
  ghost function ReferenceRun(zones: Zones, schedules: map<string, ScheduleRecord>, calls: seq<Call>): seq<Action>
    decreases |calls|
  {
    if calls == [] then []
    else
      match calls[0]
      case Upsert(s) => ReferenceRun(zones, schedules[s.id := s], calls[1..])
      case Delete(id) => ReferenceRun(zones, schedules - {id}, calls[1..])
      case EvaluateAll(ids, now) =>
        [FreshAction(zones, schedules, ids, now)] + ReferenceRun(zones, schedules, calls[1..])
  }

  ghost predicate CleanSchedule(s: ScheduleRecord) {
    '+' !in s.id && forall rule | rule in s.rules :: DistinctTimes(rule)
  }

  ghost predicate CleanCall(call: Call) {
    match call
    case Upsert(s) => CleanSchedule(s)
    case Delete(_) => true
    case EvaluateAll(ids, _) => PlusFree(ids)
  }

  ghost predicate CleanStore(schedules: map<string, ScheduleRecord>) {
    forall id | id in schedules :: '+' !in id && forall rule | rule in schedules[id].rules :: DistinctTimes(rule)
  }

  /** Whatever the ids and the rules: each answer is the fresh one, for the schedules of its time,
      of a bundle with the same key. */
  ghost predicate AnswersShareKeys(
      zones: Zones, schedules: map<string, ScheduleRecord>, calls: seq<Call>, answers: seq<Action>)
    decreases |calls|
  {
    if calls == [] then answers == []
    else
      match calls[0]
      case Upsert(s) => AnswersShareKeys(zones, schedules[s.id := s], calls[1..], answers)
      case Delete(id) => AnswersShareKeys(zones, schedules - {id}, calls[1..], answers)
      case EvaluateAll(ids, now) =>
        answers != [] && (ids == [] ==> answers[0] == Allow)
        && (ids != [] ==> SharesKey(zones, schedules, ids, now, answers[0]))
        && AnswersShareKeys(zones, schedules, calls[1..], answers[1..])
  }

  ghost predicate CleanRun(schedules: map<string, ScheduleRecord>, calls: seq<Call>) {
    CleanStore(schedules) && forall call | call in calls :: CleanCall(call)
  }

  lemma CleanNext(schedules: map<string, ScheduleRecord>, calls: seq<Call>)
    requires CleanRun(schedules, calls) && calls != []
    ensures match calls[0]
      case Upsert(s) => CleanRun(schedules[s.id := s], calls[1..])
      case Delete(id) => CleanRun(schedules - {id}, calls[1..])
      case EvaluateAll(ids, _) => CleanRun(schedules, calls[1..]) && Unambiguous(schedules, ids)
  {
    assert calls[0] in calls;
  }

  /** A schedule without rules. */
  ghost function Plain(id: string, mode: Mode): ScheduleRecord {
    ScheduleRecord(id, id, mode, "UTC", [])
  }

  ghost function PlainStore(): map<string, ScheduleRecord> {
    map["a" := Plain("a", Downtime), "b" := Plain("b", Downtime), "a+b" := Plain("a+b", Whitelist)]
  }

  lemma {:induction false} NoRules(bundle: seq<ScheduleRecord>)
    requires forall s | s in bundle :: s.rules == []
    ensures AllParse(bundle) && AllSegments(bundle) == [] && AllRules(bundle) == []
  {
    if bundle != [] {
      NoRules(bundle[..|bundle| - 1]);
      assert bundle[|bundle| - 1] in bundle;
    }
  }

  lemma PlainMerges(schedules: map<string, ScheduleRecord>, ids: seq<string>, mode: Mode)
    requires ids != [] && forall id | id in ids :: id in schedules && schedules[id] == Plain(id, mode)
    ensures BundleComposite(schedules, ids).Some?
    ensures var composite := BundleComposite(schedules, ids).value;
      composite.rules == [] && composite.mode == mode
  {
    var bundle := Resolve(schedules, ids);
    ResolvedMembers(schedules, ids);
    NoRules(bundle);
    assert bundle[0] in bundle;
  }

  lemma PlainAction(zones: Zones, schedules: map<string, ScheduleRecord>, ids: seq<string>, mode: Mode, now: int)
    requires ids != [] && forall id | id in ids :: id in schedules && schedules[id] == Plain(id, mode)
    ensures BundleComposite(schedules, ids).Some?
    ensures FreshAction(zones, schedules, ids, now) == DefaultAction(mode)
    ensures EvaluateAt(zones, BundleComposite(schedules, ids).value, now) == DefaultAction(mode)
  {
    PlainMerges(schedules, ids, mode);
  }

  lemma PlainPair(zones: Zones, now: int)
    ensures BundleComposite(PlainStore(), ["a", "b"]).Some?
    ensures FreshAction(zones, PlainStore(), ["a", "b"], now) == Allow
    ensures EvaluateAt(zones, BundleComposite(PlainStore(), ["a", "b"]).value, now) == Allow
  {
    assert PlainStore()["a"] == Plain("a", Downtime) && PlainStore()["b"] == Plain("b", Downtime);
    PlainAction(zones, PlainStore(), ["a", "b"], Downtime, now);
  }

  lemma PlainSingle(zones: Zones, now: int)
    ensures FreshAction(zones, PlainStore(), ["a+b"], now) == Block
  {
    assert PlainStore()["a+b"] == Plain("a+b", Whitelist);
    PlainAction(zones, PlainStore(), ["a+b"], Whitelist, now);
  }

  lemma PlainKeys()
    ensures BundleKey(["a", "b"]) == BundleKey(["a+b"])
  {
    assert Strings.Leq("a", "b") && "a" + "+" + "b" == "a+b";
    PlusMakesKeysCollide("a", "b");
  }

  /** What was merged for one bundle answers for the other. */
  lemma SharedKeySharesAnswer(
      zones: Zones, schedules: map<string, ScheduleRecord>, xs: seq<string>, ys: seq<string>, now: int)
    requires xs != [] && ys != [] && BundleKey(xs) == BundleKey(ys) && BundleComposite(schedules, xs).Some?
    ensures var m := Memory(schedules, map[], map[]);
      var action := EvaluateAt(zones, BundleComposite(schedules, xs).value, now);
      AnswerTo(zones, m, xs, now) == action && AnswerTo(zones, AfterEvaluate(m, xs), ys, now) == action
  {
  }

  /** The schedules "a", "b" and "a+b" are stored, and two bundles asked for. */
  ghost function PlusCalls(now: int): seq<Call> {
    [Upsert(Plain("a", Downtime)), Upsert(Plain("b", Downtime)), Upsert(Plain("a+b", Whitelist))]
    + [EvaluateAll(["a", "b"], now), EvaluateAll(["a+b"], now)]
  }

  lemma AfterUpserts(zones: Zones, calls: seq<Call>)
    ensures var a, b, ab := Plain("a", Downtime), Plain("b", Downtime), Plain("a+b", Whitelist);
      var upserts := [Upsert(a), Upsert(b), Upsert(ab)];
      && ReferenceRun(zones, map[], upserts + calls) == ReferenceRun(zones, PlainStore(), calls)
      && CachedRun(zones, Memory(map[], map[], map[]), upserts + calls)
         == CachedRun(zones, Memory(PlainStore(), map[], map[]), calls)
  {
    var a, b, ab := Plain("a", Downtime), Plain("b", Downtime), Plain("a+b", Whitelist);
    UpsertFirst(zones, map[], a, [Upsert(b), Upsert(ab)] + calls);
    UpsertFirst(zones, map["a" := a], b, [Upsert(ab)] + calls);
    UpsertFirst(zones, map["a" := a, "b" := b], ab, calls);
    assert [Upsert(a), Upsert(b), Upsert(ab)] + calls == [Upsert(a)] + ([Upsert(b), Upsert(ab)] + calls);
    assert [Upsert(b), Upsert(ab)] + calls == [Upsert(b)] + ([Upsert(ab)] + calls);
    assert map[]["a" := a] == map["a" := a] && map["a" := a]["b" := b] == map["a" := a, "b" := b];
    assert map["a" := a, "b" := b]["a+b" := ab] == PlainStore();
  }

  lemma UpsertFirst(zones: Zones, schedules: map<string, ScheduleRecord>, s: ScheduleRecord, calls: seq<Call>)
    ensures ReferenceRun(zones, schedules, [Upsert(s)] + calls) == ReferenceRun(zones, schedules[s.id := s], calls)
    ensures CachedRun(zones, Memory(schedules, map[], map[]), [Upsert(s)] + calls)
         == CachedRun(zones, Memory(schedules[s.id := s], map[], map[]), calls)
  {
    assert ([Upsert(s)] + calls)[1..] == calls;
    var none: Index := map[];
    assert none - {s.id} == none;
  }

  lemma EvaluateFirst(zones: Zones, m: Memory, ids: seq<string>, now: int, calls: seq<Call>)
    ensures ReferenceRun(zones, m.schedules, [EvaluateAll(ids, now)] + calls)
         == [FreshAction(zones, m.schedules, ids, now)] + ReferenceRun(zones, m.schedules, calls)
    ensures CachedRun(zones, m, [EvaluateAll(ids, now)] + calls)
         == [AnswerTo(zones, m, ids, now)] + CachedRun(zones, AfterEvaluate(m, ids), calls)
  {
    assert ([EvaluateAll(ids, now)] + calls)[1..] == calls;
  }

  lemma TwoAnswers(zones: Zones, m: Memory, xs: seq<string>, ys: seq<string>, now: int)
    ensures var calls := [EvaluateAll(xs, now), EvaluateAll(ys, now)];
      && ReferenceRun(zones, m.schedules, calls)
         == [FreshAction(zones, m.schedules, xs, now), FreshAction(zones, m.schedules, ys, now)]
      && CachedRun(zones, m, calls) == [AnswerTo(zones, m, xs, now), AnswerTo(zones, AfterEvaluate(m, xs), ys, now)]
  {
    EvaluateFirst(zones, m, xs, now, [EvaluateAll(ys, now)]);
    EvaluateFirst(zones, AfterEvaluate(m, xs), ys, now, []);
    assert [EvaluateAll(ys, now)] + [] == [EvaluateAll(ys, now)];
    assert [EvaluateAll(xs, now)] + [EvaluateAll(ys, now)] == [EvaluateAll(xs, now), EvaluateAll(ys, now)];
  }

  /** A wrong answer: once the bundle of "a" and "b" is remembered, "a+b" is answered from it. */
  lemma PlusGivesWrongAnswer(zones: Zones, now: int)
    ensures ReferenceRun(zones, map[], PlusCalls(now)) == [Allow, Block]
    ensures CachedRun(zones, Memory(map[], map[], map[]), PlusCalls(now)) == [Allow, Allow]
  {
    AfterUpserts(zones, [EvaluateAll(["a", "b"], now), EvaluateAll(["a+b"], now)]);
    TwoAnswers(zones, Memory(PlainStore(), map[], map[]), ["a", "b"], ["a+b"], now);
    PlainPair(zones, now);
    PlainSingle(zones, now);
    PlainKeys();
    SharedKeySharesAnswer(zones, PlainStore(), ["a", "b"], ["a+b"], now);
  }

  /** Any run of calls on the caching engine gives the answers of the engine without a cache, if no
      id has a plus sign and no rule identical clock texts; and always answers that are fresh up
      to the key. */
  method Run(e: Engine, calls: seq<Call>) returns (answers: seq<Action>)
    requires e.Valid()
    modifies e
    ensures e.Valid() && answers == CachedRun(e.zones, old(e.Memorised()), calls)
    ensures CleanRun(old(e.schedules), calls) ==> answers == ReferenceRun(e.zones, old(e.schedules), calls)
    ensures AnswersShareKeys(e.zones, old(e.schedules), calls, answers)
    decreases |calls|
  {
    if calls == [] {
      return [];
    }
    ghost var clean := CleanRun(e.schedules, calls);
    if clean {
      CleanNext(e.schedules, calls);
    }
    match calls[0]
    case Upsert(s) =>
      e.UpsertSchedule(s);
      answers := Run(e, calls[1..]);
    case Delete(id) =>
      e.DeleteSchedule(id);
      answers := Run(e, calls[1..]);
    case EvaluateAll(ids, now) =>
      var action := e.EvaluateBundle(ids, now);
      var rest := Run(e, calls[1..]);
      answers := [action] + rest;
      assert answers[1..] == rest;
  }
}
