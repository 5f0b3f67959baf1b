/** Whether a migration of policies succeeds can depend on the order in which the database returns
    the rows of the old PDID: when it does, and when not. */
module MigrationOrder {
  import opened PolicyModel
  import opened PolicyMigration
  import Sorting
  import Engine = PolicyEngine

  /** Every order of the rows succeeds exactly when no renamed row finds its key in the table, other
      than with a policy of the target. */
  lemma EveryOrderSucceedsIff(policies: PolicyTable, m: Move)
    requires m.oldPdid != m.newPdid
    ensures (forall order | IsRowOrder(order, policies, m) :: !Stuck(policies, m, order)) <==>
            forall id :: !Blocked(policies, m, id)
  {
    if id :| Blocked(policies, m, id) {
      var rest := Engine.KeysCanBeListed(Sources(policies, m) - {id});
      var order := [id] + rest;
      assert IsRowOrder(order, policies, m) && order[0] == id;
      assert Held(policies, m, order[0], Visited(order, 0));
    }
  }

  /** Some order succeeds exactly when every such key is held by another row of the old PDID, which
      must then be read first. */
  lemma SomeOrderSucceedsIff(policies: PolicyTable, m: Move)
    requires m.oldPdid != m.newPdid
    ensures (exists order :: IsRowOrder(order, policies, m) && !Stuck(policies, m, order)) <==>
            forall id | Blocked(policies, m, id) :: Targets(policies, Retarget(id, m.oldPdid, m.newPdid), m.oldPdid)
  {
    if forall id | Blocked(policies, m, id) :: Targets(policies, Retarget(id, m.oldPdid, m.newPdid), m.oldPdid) {
      var order := KeptFirst(policies, m);
    } else {
      var id :| Blocked(policies, m, id) && !Targets(policies, Retarget(id, m.oldPdid, m.newPdid), m.oldPdid);
      forall order | IsRowOrder(order, policies, m) ensures Stuck(policies, m, order) {
        ForeignHolderSticks(policies, m, id, order);
      }
    }
  }

  /** A key held by a policy of neither PDID stops every order. */
  lemma ForeignHolderSticks(policies: PolicyTable, m: Move, id: string, order: seq<string>)
    requires Blocked(policies, m, id) && !Targets(policies, Retarget(id, m.oldPdid, m.newPdid), m.oldPdid)
    requires IsRowOrder(order, policies, m)
    ensures Stuck(policies, m, order)
  {
    var i :| 0 <= i < |order| && order[i] == id;
    assert Held(policies, m, order[i], Visited(order, i));
  }

  /** The rows that keep their ids first, then those that are renamed. */
  lemma KeptFirst(policies: PolicyTable, m: Move) returns (order: seq<string>)
    requires m.oldPdid != m.newPdid
    requires forall id | Blocked(policies, m, id) :: Targets(policies, Retarget(id, m.oldPdid, m.newPdid), m.oldPdid)
    ensures IsRowOrder(order, policies, m) && !Stuck(policies, m, order)
  {
    var sources := Sources(policies, m);
    var renamed := set id | id in sources && Retarget(id, m.oldPdid, m.newPdid) != id;
    var first := Engine.KeysCanBeListed(sources - renamed);
    var second := Engine.KeysCanBeListed(renamed);
    order := first + second;
    assert forall i | 0 <= i < |first| :: first[i] in first;
    assert forall i | 0 <= i < |second| :: second[i] in second;
    assert forall id :: id in order <==> id in sources;
    forall i | 0 <= i < |order| ensures !Held(policies, m, order[i], Visited(order, i)) {
      var id := order[i];
      if Blocked(policies, m, id) {
        var key := Retarget(id, m.oldPdid, m.newPdid);
        RetargetFacts(id, m.oldPdid, m.newPdid);
        assert id in renamed && key in sources - renamed;
        var k :| 0 <= k < |first| && first[k] == key;
        assert i >= |first|;
        assert order[..i][k] == key;
      }
    }
  }

  /** Two temporary policies of the old PDID, one of which has the id that the other is renamed to:
      read first, the renamed one is refused; read second, it is not. */
  lemma ClashDependsOnRowOrder(p: Policy, q: Policy, m: Move)
    requires m.oldPdid != m.newPdid && p.id == PAUSE + m.oldPdid && q.id == PAUSE + m.newPdid
    requires p.ptype == DevicePolicy == q.ptype && p.targetId == m.oldPdid == q.targetId
    ensures var policies := map[p.id := p, q.id := q];
      && IsRowOrder([p.id, q.id], policies, m) && Stuck(policies, m, [p.id, q.id])
      && IsRowOrder([q.id, p.id], policies, m) && !Stuck(policies, m, [q.id, p.id])
  {
    var policies := map[p.id := p, q.id := q];
    SamePrefix(PAUSE, m.oldPdid, m.newPdid);
    RetargetFacts(q.id, m.oldPdid, m.newPdid);
    assert Retarget(p.id, m.oldPdid, m.newPdid) == q.id;
    assert Held(policies, m, [p.id, q.id][0], Visited([p.id, q.id], 0));
    assert [q.id, p.id][..1] == [q.id];
  }
}
