/** A change of identity as LIAS carries it out: the store commits first, then the policies in
    memory are replaced by what was committed. */
module Coordinator {
  import opened Options
  import opened PolicyModel
  import opened PolicyMigration
  import opened IdentityMigration
  import Policies = PolicyEngine

  /** Replacing the policies of both PDIDs by the committed rows gives the committed table. */
  lemma MemoryFollowsStore(
      before: PolicyTable, after: PolicyTable, collisions: seq<Conflict>, rows: seq<Policy>,
      memory: PolicyTable, m: Move)
    requires PoliciesMoved(after, before, collisions, m) && KeyedPolicies(after)
    requires AreRowsOf(rows, after, TargetRows(after, m.newPdid).Keys)
    requires Policies.Reconciled(before, memory, rows, m.oldPdid, m.newPdid)
    ensures memory == after
  {
    MemoryAt(after, rows, m.newPdid, before, memory, m.oldPdid);
    forall id ensures id in memory <==> id in after
      ensures id in memory ==> memory[id] == after[id]
    {
      if !Targets(after, id, m.newPdid) {
        assert !Targets(after, id, m.oldPdid);
        if id in before && !Concerned(before[id], m) {
          assert id in after && after[id] == before[id];
        }
        if id in after {
          assert !Concerned(after[id], m);
        }
      }
    }
  }

  /** What memory holds once it is reconciled with the rows of a table. */
  lemma MemoryAt(table: PolicyTable, rows: seq<Policy>, newPdid: string, before: PolicyTable, memory: PolicyTable,
      oldPdid: string)
    requires AreRowsOf(rows, table, TargetRows(table, newPdid).Keys)
    requires Policies.Reconciled(before, memory, rows, oldPdid, newPdid)
    ensures forall id | Targets(table, id, newPdid) && table[id].id == id :: id in memory && memory[id] == table[id]
    ensures forall id | !Targets(table, id, newPdid) ::
              && (id in memory <==> id in before && !Policies.OwnedBy(before[id], oldPdid, newPdid))
              && (id in memory ==> memory[id] == before[id])
  {
    forall id
      ensures Targets(table, id, newPdid) && table[id].id == id ==> id in memory && memory[id] == table[id]
      ensures !Targets(table, id, newPdid) ==> Policies.LastWithId(rows, id) == None
    {
      if Targets(table, id, newPdid) && table[id].id == id {
        assert table[id] in rows && Policies.LastWithId(rows, id) == Some(table[id]);
      }
    }
  }

  class Coordinator {
    const store: Storage
    const policies: Policies.Engine

    constructor (store: Storage, policies: Policies.Engine)
      ensures this.store == store && this.policies == policies
    {
      this.store, this.policies := store, policies;
    }

    ghost predicate InSync()
      reads store, policies
    {
      policies.policies == store.db.policies
    }

    /** Memory and store stay equal, on success and on error; on a replay they do exactly when no
        stored policy has come to target the old PDID since. */
    method MigrateIdentity(oldPdid: string, newPdid: string, now: int, rowOrder: seq<string>) returns (r: Outcome)
      requires store.Keyed() && IsRowOrder(rowOrder, store.db.policies, Move(oldPdid, newPdid, now))
      modifies store`db, store`merges, policies
      ensures store.Keyed()
      ensures !r.Committed? ==> policies.policies == old(policies.policies) && store.db == old(store.db)
      ensures r.InvalidMigration? <==> oldPdid == "" || newPdid == "" || oldPdid == newPdid
      ensures r.TargetConflict? <==>
                && !r.InvalidMigration? && oldPdid in old(store.db).migrations
                && old(store.db).migrations[oldPdid] != newPdid
      ensures r.KeyTaken? <==>
                && !r.InvalidMigration? && oldPdid !in old(store.db).migrations
                && Stuck(old(store.db.policies), Move(oldPdid, newPdid, now), rowOrder)
      ensures r.Committed? ==>
                && Reports(r.report, store.db, newPdid) && (r.report.replayed <==> oldPdid in old(store.db).migrations)
                && Policies.Reconciled(old(policies.policies), policies.policies, r.report.policies, oldPdid, newPdid)
      ensures r.Committed? && r.report.replayed ==> store.db == old(store.db)
      ensures r.Committed? && !r.report.replayed ==>
                exists collisions, precedences ::
                  Migrated(old(store.db), store.db, Move(oldPdid, newPdid, now), collisions, precedences)
                  && r.report.conflicts == collisions + precedences
      ensures old(InSync()) && !(r.Committed? && r.report.replayed) ==> InSync()
      ensures old(InSync()) && r.Committed? && r.report.replayed ==>
                (InSync() <==> forall id :: !Targets(store.db.policies, id, oldPdid))
    {
      if oldPdid == "" || newPdid == "" || oldPdid == newPdid {
        return InvalidMigration;
      }
      ghost var before := store.db.policies;
      ghost var memory := policies.policies;
      r := store.MigrateIdentityState(oldPdid, newPdid, now, rowOrder);
      if !r.Committed? {
        return;
      }
      policies.ReconcileDeviceIdentity(oldPdid, newPdid, r.report.policies);
      ghost var m := Move(oldPdid, newPdid, now);
      if memory == before {
        if r.report.replayed {
          ReplayInSync(before, r.report.policies, policies.policies, m);
        } else {
          ghost var collisions, precedences :|
            Migrated(old(store.db), store.db, m, collisions, precedences)
                && r.report.conflicts == collisions + precedences;
          MemoryFollowsStore(before, store.db.policies, collisions, r.report.policies, policies.policies, m);
        }
      }
    }
  }

  lemma ReplayInSync(table: PolicyTable, rows: seq<Policy>, memory: PolicyTable, m: Move)
    requires KeyedPolicies(table) && m.oldPdid != m.newPdid
    requires AreRowsOf(rows, table, TargetRows(table, m.newPdid).Keys)
    requires Policies.Reconciled(table, memory, rows, m.oldPdid, m.newPdid)
    ensures memory == table <==> forall id :: !Targets(table, id, m.oldPdid)
  {
    MemoryAt(table, rows, m.newPdid, table, memory, m.oldPdid);
    forall id
      ensures Targets(table, id, m.oldPdid) ==> id !in memory
      ensures !Targets(table, id, m.oldPdid) ==>
                (id in memory <==> id in table) && (id in table ==> memory[id] == table[id])
    {
      assert Targets(table, id, m.newPdid) ==> table[id].id == id;
    }
    assert memory == table ==> forall id | id in table :: id in memory;
  }

  /** A policy that has come to target the old PDID since the migration: a replay takes it out of
      memory, and the store keeps it. */
  lemma ReplayDropsPolicy(p: Policy, memory: PolicyTable, m: Move)
    requires m.oldPdid != m.newPdid && p.ptype == DevicePolicy && p.targetId == m.oldPdid
    requires Policies.Reconciled(map[p.id := p], memory, [], m.oldPdid, m.newPdid)
    ensures AreRowsOf([], map[p.id := p], TargetRows(map[p.id := p], m.newPdid).Keys)
    ensures memory == map[]
  {
    var table := map[p.id := p];
    forall id ensures id !in memory {
      assert Policies.LastWithId([], id) == None;
    }
  }
}
