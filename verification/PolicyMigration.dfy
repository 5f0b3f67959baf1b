/** How a migration moves the device policies of an old PDID to a new one, row by row, with
    the collisions its renaming can cause. */
module PolicyMigration {
  import opened Options
  import opened PolicyModel
  import Sorting
  import Strings

  const PAUSE := "pol_pause_"
  const EXTEND := "pol_extend_device_"

  /** Temporary policies carry the PDID in their id and are renamed with it. */
  function Retarget(id: string, oldPdid: string, newPdid: string): string {
    if id == PAUSE + oldPdid then PAUSE + newPdid
    else if id == EXTEND + oldPdid then EXTEND + newPdid
    else id
  }

  /** The other id that is renamed to this one, if there is one. */
  ghost function Mover(id: string, oldPdid: string, newPdid: string): Option<string> {
    if id == PAUSE + newPdid then Some(PAUSE + oldPdid)
    else if id == EXTEND + newPdid then Some(EXTEND + oldPdid)
    else None
  }

  lemma PrefixesApart(a: string, b: string)
    ensures PAUSE + a != EXTEND + b
  {
    assert (PAUSE + a)[4] == 'p' && (EXTEND + b)[4] == 'e';
  }

  lemma SamePrefix(prefix: string, a: string, b: string)
    ensures prefix + a == prefix + b <==> a == b
  {
    assert (prefix + a)[|prefix|..] == a && (prefix + b)[|prefix|..] == b;
  }

  lemma RetargetFacts(id: string, oldPdid: string, newPdid: string)
    requires oldPdid != newPdid
    ensures Retarget(id, oldPdid, newPdid) != id ==>
              && Mover(Retarget(id, oldPdid, newPdid), oldPdid, newPdid) == Some(id)
              && Mover(id, oldPdid, newPdid) == None
              && Retarget(Retarget(id, oldPdid, newPdid), oldPdid, newPdid) == Retarget(id, oldPdid, newPdid)
    ensures Mover(id, oldPdid, newPdid).Some? ==>
              var other := Mover(id, oldPdid, newPdid).value;
              other != id && Retarget(other, oldPdid, newPdid) == id
  {
    SamePrefix(PAUSE, oldPdid, newPdid);
    SamePrefix(EXTEND, oldPdid, newPdid);
    PrefixesApart(oldPdid, oldPdid);
    PrefixesApart(newPdid, newPdid);
    PrefixesApart(oldPdid, newPdid);
    PrefixesApart(newPdid, oldPdid);
  }

  datatype ConflictKind = Collision | Precedence

  datatype Conflict = Conflict(kind: ConflictKind, winner: Policy, loser: Policy)

  /** One migration: from which PDID to which, and when. */
  datatype Move = Move(oldPdid: string, newPdid: string, now: int)

  ghost predicate Targets(policies: PolicyTable, id: string, pdid: string) {
    id in policies && policies[id].ptype == DevicePolicy && policies[id].targetId == pdid
  }

  ghost predicate KeyedPolicies(policies: PolicyTable) {
    forall id | id in policies :: policies[id].id == id
  }

  function Moved(p: Policy, m: Move): Policy {
    p.(targetId := m.newPdid, id := Retarget(p.id, m.oldPdid, m.newPdid), updatedAt := m.now)
  }

  /** The row renamed onto a key, and the row that was there, once the source rows `processed`
      have been moved. */
  ghost function Arriving(policies: PolicyTable, processed: set<string>, m: Move, id: string): Option<Policy> {
    var mover := Mover(id, m.oldPdid, m.newPdid);
    if mover.Some? && mover.value in processed && mover.value in policies
    then Some(Moved(policies[mover.value], m)) else None
  }

  ghost function Staying(policies: PolicyTable, processed: set<string>, m: Move, id: string): Option<Policy> {
    if id !in policies then None
    else if id !in processed then Some(policies[id])
    else if Retarget(id, m.oldPdid, m.newPdid) == id then Some(Moved(policies[id], m))
    else None
  }

  /** Of two rows for one key the renamed one needs the higher priority. */
  ghost function RowAfter(policies: PolicyTable, processed: set<string>, m: Move, id: string): Option<Policy> {
    var arriving, staying := Arriving(policies, processed, m, id), Staying(policies, processed, m, id);
    if staying.None? then arriving
    else if arriving.None? then staying
    else if arriving.value.priority > staying.value.priority then arriving
    else staying
  }

  ghost predicate TableIs(table: PolicyTable, policies: PolicyTable, processed: set<string>, m: Move) {
    forall id :: (if id in table then Some(table[id]) else None) == RowAfter(policies, processed, m, id)
  }

  /** The key a row is renamed to is not held by an unrelated policy or by a source row that
      has not been moved yet. */
  ghost predicate NoKeyHeld(policies: PolicyTable, processed: set<string>, m: Move) {
    forall id | id in processed ::
      var key := Retarget(id, m.oldPdid, m.newPdid);
      key == id || key !in policies || Targets(policies, key, m.newPdid) || key in processed
  }

  ghost predicate SourceIds(policies: PolicyTable, ids: set<string>, m: Move) {
    forall id | id in ids :: Targets(policies, id, m.oldPdid)
  }

  /** Moving one source row: over a target row of the same key the higher priority wins, and
      onto any other row of that key the insert fails. */
  function MoveRow(table: PolicyTable, source: Policy, m: Move): Option<PolicyTable> {
    var moved := Moved(source, m);
    if moved.id in table && table[moved.id].ptype == DevicePolicy && table[moved.id].targetId == m.newPdid then
      var target := table[moved.id];
      Some((table - {source.id, target.id})[moved.id := if source.priority > target.priority then moved else target])
    else if moved.id in table - {source.id} then None
    else Some((table - {source.id})[moved.id := moved])
  }

  ghost predicate ValidMove(policies: PolicyTable, processed: set<string>, m: Move) {
    && m.oldPdid != m.newPdid && KeyedPolicies(policies)
    && SourceIds(policies, processed, m) && NoKeyHeld(policies, processed, m)
  }

  lemma RowOfUnmoved(table: PolicyTable, policies: PolicyTable, processed: set<string>, m: Move, id: string)
    requires ValidMove(policies, processed, m) && TableIs(table, policies, processed, m)
    requires Targets(policies, id, m.oldPdid) && id !in processed
    ensures id in table && table[id] == policies[id]
  {
    RetargetFacts(id, m.oldPdid, m.newPdid);
    assert RowAfter(policies, processed, m, id) == Some(policies[id]);
  }

  /** The row at one key after one more move. */
  lemma MoveRowAt(table: PolicyTable, policies: PolicyTable, processed: set<string>, m: Move, id: string, k: string)
    requires ValidMove(policies, processed, m) && TableIs(table, policies, processed, m)
    requires Targets(policies, id, m.oldPdid) && id !in processed
    requires MoveRow(table, policies[id], m).Some?
    ensures var after := MoveRow(table, policies[id], m).value;
      (if k in after then Some(after[k]) else None) == RowAfter(policies, processed + {id}, m, k)
  {
    RowOfUnmoved(table, policies, processed, m, id);
    OneMoreMoved(policies, processed, m, id, k);
    assert (if k in table then Some(table[k]) else None) == RowAfter(policies, processed, m, k);
  }

  lemma MoveStaysValid(table: PolicyTable, policies: PolicyTable, processed: set<string>, m: Move, id: string)
    requires ValidMove(policies, processed, m) && TableIs(table, policies, processed, m)
    requires Targets(policies, id, m.oldPdid) && id !in processed
    requires MoveRow(table, policies[id], m).Some?
    ensures ValidMove(policies, processed + {id}, m)
  {
    var key := Retarget(id, m.oldPdid, m.newPdid);
    RowOfUnmoved(table, policies, processed, m, id);
    OneMoreMoved(policies, processed, m, id, key);
    assert (if key in table then Some(table[key]) else None) == RowAfter(policies, processed, m, key);
  }

  lemma MoveRowIsRight(table: PolicyTable, policies: PolicyTable, processed: set<string>, m: Move, id: string)
    requires ValidMove(policies, processed, m) && TableIs(table, policies, processed, m)
    requires Targets(policies, id, m.oldPdid) && id !in processed
    requires MoveRow(table, policies[id], m).Some?
    ensures TableIs(MoveRow(table, policies[id], m).value, policies, processed + {id}, m)
    ensures ValidMove(policies, processed + {id}, m)
  {
    MoveStaysValid(table, policies, processed, m, id);
    forall k ensures
      var after := MoveRow(table, policies[id], m).value;
      (if k in after then Some(after[k]) else None) == RowAfter(policies, processed + {id}, m, k)
    {
      MoveRowAt(table, policies, processed, m, id, k);
    }
  }

  // ----- collisions

  /** Two rows meet at a key: the one that keeps it, and the one that is dropped. */
  ghost function CollisionAt(policies: PolicyTable, processed: set<string>, m: Move, id: string): Option<Conflict> {
    var arriving, staying := Arriving(policies, processed, m, id), Staying(policies, processed, m, id);
    if arriving.None? || staying.None? then None
    else if arriving.value.priority > staying.value.priority
    then Some(Conflict(Collision, arriving.value, staying.value))
    else Some(Conflict(Collision, staying.value, arriving.value))
  }

  /** The recorded conflicts are the collisions, one for each key. */
  ghost predicate CollisionsAre(conflicts: seq<Conflict>, policies: PolicyTable, processed: set<string>, m: Move) {
    && Sorting.Distinct(conflicts)
    && (forall c | c in conflicts :: CollisionAt(policies, processed, m, c.winner.id) == Some(c))
    && forall id | CollisionAt(policies, processed, m, id).Some? ::
         CollisionAt(policies, processed, m, id).value in conflicts
  }

  /** The conflict recorded while one row moves, if any. */
  ghost function AtRow(table: PolicyTable, source: Policy, m: Move): Option<Conflict> {
    var moved := Moved(source, m);
    if moved.id in table && table[moved.id].ptype == DevicePolicy && table[moved.id].targetId == m.newPdid then
      var target := table[moved.id];
      Some(if source.priority > target.priority then Conflict(Collision, moved, target)
           else Conflict(Collision, target, moved))
    else None
  }

  /** What moving one more row changes at a key. */
  lemma OneMoreMoved(policies: PolicyTable, processed: set<string>, m: Move, id: string, k: string)
    requires ValidMove(policies, processed, m) && Targets(policies, id, m.oldPdid) && id !in processed
    ensures var key := Retarget(id, m.oldPdid, m.newPdid);
            && Arriving(policies, processed + {id}, m, k) ==
               (if k == key != id then Some(Moved(policies[id], m)) else Arriving(policies, processed, m, k))
            && Staying(policies, processed + {id}, m, k) ==
               (if k != id then Staying(policies, processed, m, k)
                else if key == id then Some(Moved(policies[id], m)) else None)
            && (k == key ==> key == id || Arriving(policies, processed, m, k) == None)
            && (k == id ==> Arriving(policies, processed, m, k) == None)
  {
    RetargetFacts(k, m.oldPdid, m.newPdid);
    RetargetFacts(id, m.oldPdid, m.newPdid);
  }

  lemma OneMoreCollision(
      table: PolicyTable, policies: PolicyTable, processed: set<string>, m: Move, id: string, k: string)
    requires ValidMove(policies, processed, m) && TableIs(table, policies, processed, m)
    requires Targets(policies, id, m.oldPdid) && id !in processed
    requires MoveRow(table, policies[id], m).Some?
    ensures CollisionAt(policies, processed + {id}, m, k) ==
            if k == Retarget(id, m.oldPdid, m.newPdid) then AtRow(table, policies[id], m)
            else CollisionAt(policies, processed, m, k)
    ensures k == Retarget(id, m.oldPdid, m.newPdid) ==> CollisionAt(policies, processed, m, k) == None
    ensures AtRow(table, policies[id], m).Some? ==>
              AtRow(table, policies[id], m).value.winner.id == Retarget(id, m.oldPdid, m.newPdid)
  {
    RowOfUnmoved(table, policies, processed, m, id);
    OneMoreMoved(policies, processed, m, id, k);
    assert (if k in table then Some(table[k]) else None) == RowAfter(policies, processed, m, k);
    RowIdIsKey(table, policies, processed, m, Retarget(id, m.oldPdid, m.newPdid));
  }

  lemma RowIdIsKey(table: PolicyTable, policies: PolicyTable, processed: set<string>, m: Move, k: string)
    requires ValidMove(policies, processed, m) && TableIs(table, policies, processed, m)
    ensures k in table ==> table[k].id == k
  {
    RetargetFacts(k, m.oldPdid, m.newPdid);
    assert (if k in table then Some(table[k]) else None) == RowAfter(policies, processed, m, k);
  }

  function Listed(c: Option<Conflict>): seq<Conflict> {
    if c.Some? then [c.value] else []
  }

  lemma MoveRowCollides(
      table: PolicyTable, conflicts: seq<Conflict>, policies: PolicyTable, processed: set<string>, m: Move, id: string)
    requires ValidMove(policies, processed, m) && TableIs(table, policies, processed, m)
    requires CollisionsAre(conflicts, policies, processed, m)
    requires Targets(policies, id, m.oldPdid) && id !in processed
    requires MoveRow(table, policies[id], m).Some?
    ensures CollisionsAre(conflicts + Listed(AtRow(table, policies[id], m)), policies, processed + {id}, m)
  {
    var more := conflicts + Listed(AtRow(table, policies[id], m));
    forall c | c in more ensures CollisionAt(policies, processed + {id}, m, c.winner.id) == Some(c) {
      OneMoreCollision(table, policies, processed, m, id, c.winner.id);
    }
    forall k | CollisionAt(policies, processed + {id}, m, k).Some?
      ensures CollisionAt(policies, processed + {id}, m, k).value in more
    {
      OneMoreCollision(table, policies, processed, m, id, k);
    }
  }

  // ----- precedence among the retained policies

  /** The order of enforcement: the higher priority first, then by id. */
  predicate PolicyLeq(p: Policy, q: Policy) {
    p.priority > q.priority || (p.priority == q.priority && Strings.Leq(p.id, q.id))
  }

  lemma PolicyLeqIsOrder()
    ensures Sorting.TotalPreorder(PolicyLeq)
  {
    Strings.LeqIsOrder();
  }

  lemma PolicyLeqAntisymmetric(table: PolicyTable, rows: seq<Policy>)
    requires forall p | p in rows :: p.id in table && table[p.id] == p
    ensures Sorting.AntisymmetricOn(PolicyLeq, rows)
  {
    Strings.LeqIsOrder();
  }

  ghost predicate AreRowsOf(rows: seq<Policy>, table: PolicyTable, keep: set<string>) {
    && Sorting.Distinct(rows)
    && forall p :: p in rows <==> p.id in keep && p.id in table && table[p.id] == p
  }

  /** Some rows of the table in the order of enforcement. */
  method SortedRows(table: PolicyTable, keep: set<string>) returns (rows: seq<Policy>)
    requires keep <= table.Keys && KeyedPolicies(table)
    ensures AreRowsOf(rows, table, keep) && Sorting.IsSorted(PolicyLeq, rows)
  {
    var listed: seq<Policy> := [];
    var todo := keep;
    while todo != {}
      invariant todo <= keep
      invariant AreRowsOf(listed, table, keep - todo)
    {
      var id :| id in todo;
      listed := listed + [table[id]];
      todo := todo - {id};
    }
    rows := Sorting.Sort(PolicyLeq, listed);
    PolicyLeqIsOrder();
    Sorting.SortSorted(PolicyLeq, listed);
    Sorting.SortDistinct(PolicyLeq, listed);
    Sorting.SameMembers(listed, rows);
  }

  ghost predicate Active(table: PolicyTable, p: Policy) {
    p.enabled && p.id in table && table[p.id] == p
  }

  /** The active policy that is enforced before all others. */
  ghost predicate IsTop(table: PolicyTable, p: Policy) {
    Active(table, p) && forall q | Active(table, q) :: PolicyLeq(p, q)
  }

  /** Exactly the active policies that the top one overrules with another action. */
  ghost predicate PrecedencesAre(conflicts: seq<Conflict>, table: PolicyTable) {
    && Sorting.Distinct(conflicts)
    && forall c :: c in conflicts <==>
         && c.kind == Precedence && IsTop(table, c.winner)
         && Active(table, c.loser) && c.loser.action != c.winner.action
  }

  /** The conflicts of a winner with those rows that have another action. */
  function Overruled(winner: Policy, rows: seq<Policy>): seq<Conflict> {
    if rows == [] then []
    else
      var init, last := rows[..|rows| - 1], rows[|rows| - 1];
      Overruled(winner, init) + if last.action != winner.action then [Conflict(Precedence, winner, last)] else []
  }

  lemma {:induction false} OverruledMembers(winner: Policy, rows: seq<Policy>)
    requires Sorting.Distinct(rows)
    ensures Sorting.Distinct(Overruled(winner, rows))
    ensures forall c :: c in Overruled(winner, rows) <==>
              c.kind == Precedence && c.winner == winner && c.loser in rows && c.loser.action != winner.action
  {
    if rows != [] {
      var init, last := rows[..|rows| - 1], rows[|rows| - 1];
      OverruledMembers(winner, init);
      assert rows == init + [last] && last !in init;
    }
  }

  method RecordPrecedence(targetByID: PolicyTable) returns (conflicts: seq<Conflict>)
    requires KeyedPolicies(targetByID)
    ensures PrecedencesAre(conflicts, targetByID)
  {
    conflicts := [];
    var keep := set id | id in targetByID && targetByID[id].enabled;
    var active := SortedRows(targetByID, keep);
    ActiveRows(targetByID, keep, active);
    if |active| > 0 {
      var winner, others := active[0], active[1..];
      for i := 0 to |others|
        invariant conflicts == Overruled(winner, others[..i])
      {
        assert others[..i + 1][..i] == others[..i];
        if others[i].action != winner.action {
          conflicts := conflicts + [Conflict(Precedence, winner, others[i])];
        }
      }
      assert others[..|others|] == others;
      OverruledAreAll(targetByID, active);
    } else {
      NoneOverruled(targetByID, active);
    }
  }

  ghost predicate ListsActive(active: seq<Policy>, table: PolicyTable) {
    Sorting.Distinct(active) && forall p :: p in active <==> Active(table, p)
  }

  lemma ActiveRows(table: PolicyTable, keep: set<string>, active: seq<Policy>)
    requires KeyedPolicies(table) && keep == set id | id in table && table[id].enabled
    requires AreRowsOf(active, table, keep)
    ensures ListsActive(active, table)
  {
  }

  lemma OverruledAreAll(table: PolicyTable, active: seq<Policy>)
    requires active != [] && Sorting.IsSorted(PolicyLeq, active) && ListsActive(active, table)
    ensures PrecedencesAre(Overruled(active[0], active[1..]), table)
  {
    assert active == [active[0]] + active[1..];
    OverruledMembers(active[0], active[1..]);
    TopIsFirst(table, active);
  }

  lemma NoneOverruled(table: PolicyTable, active: seq<Policy>)
    requires active == [] && ListsActive(active, table)
    ensures PrecedencesAre([], table)
  {
    assert forall p :: !Active(table, p);
  }

  lemma TopIsFirst(table: PolicyTable, active: seq<Policy>)
    requires active != [] && Sorting.IsSorted(PolicyLeq, active)
    requires forall p :: p in active <==> Active(table, p)
    ensures forall p :: IsTop(table, p) <==> p == active[0]
  {
    PolicyLeqIsOrder();
    PolicyLeqAntisymmetric(table, active);
    assert active[0] in active;
    forall q | Active(table, q) ensures PolicyLeq(active[0], q) {
      var j :| 0 <= j < |active| && active[j] == q;
    }
  }

  /** The first of two policies is enforced before the second: it has the higher priority, or the same
      and the smaller id. */
  ghost predicate EnforcedBefore(p: Policy, q: Policy) {
    p.priority > q.priority || (p.priority == q.priority && Strings.Precedes(p.id, q.id))
  }

  lemma PolicyLeqMeans(p: Policy, q: Policy)
    ensures PolicyLeq(p, q) <==> EnforcedBefore(p, q) || (p.priority == q.priority && p.id == q.id)
  {
    Strings.LeqMeans(p.id, q.id);
  }

  /** Each recorded precedence has as its winner the enabled policy that is enforced before all others,
      and every other enabled policy with another action is recorded as a loser. */
  lemma PrecedenceMeaning(conflicts: seq<Conflict>, table: PolicyTable)
    requires KeyedPolicies(table) && PrecedencesAre(conflicts, table)
    ensures forall c | c in conflicts ::
              && c.winner.id in table && table[c.winner.id] == c.winner && c.winner.enabled
              && c.loser.id in table && table[c.loser.id] == c.loser && c.loser.enabled
              && c.winner.action != c.loser.action
              && forall id | id in table && table[id].enabled && id != c.winner.id ::
                   EnforcedBefore(c.winner, table[id])
    ensures forall top, id |
              && top in table && table[top].enabled
              && (forall other | other in table && table[other].enabled && other != top ::
                    EnforcedBefore(table[top], table[other]))
              && id in table && table[id].enabled && table[id].action != table[top].action ::
              Conflict(Precedence, table[top], table[id]) in conflicts
  {
    forall c | c in conflicts
      ensures forall id | id in table && table[id].enabled && id != c.winner.id :: EnforcedBefore(c.winner, table[id])
    {
      forall id | id in table && table[id].enabled && id != c.winner.id ensures EnforcedBefore(c.winner, table[id]) {
        assert Active(table, table[id]);
        PolicyLeqMeans(c.winner, table[id]);
      }
    }
    forall top | top in table && table[top].enabled
                 && forall other | other in table && table[other].enabled && other != top ::
                      EnforcedBefore(table[top], table[other])
      ensures IsTop(table, table[top])
    {
      forall q | Active(table, q) ensures PolicyLeq(table[top], q) {
        PolicyLeqMeans(table[top], q);
      }
    }
  }

  // ----- the whole step

  ghost function Sources(policies: PolicyTable, m: Move): set<string> {
    set id | id in policies && Targets(policies, id, m.oldPdid)
  }

  /** Another policy, not one of the target's, holds the key this row is renamed to. */
  ghost predicate Blocked(policies: PolicyTable, m: Move, id: string) {
    var key := Retarget(id, m.oldPdid, m.newPdid);
    Targets(policies, id, m.oldPdid) && key != id && key in policies && !Targets(policies, key, m.newPdid)
  }

  /** Its key is held when it is its turn, `moved` being the rows moved before it. */
  ghost predicate Held(policies: PolicyTable, m: Move, id: string, moved: set<string>) {
    Blocked(policies, m, id) && Retarget(id, m.oldPdid, m.newPdid) !in moved
  }

  /** An order in which the rows of the old PDID may be read. */
  ghost predicate IsRowOrder(order: seq<string>, policies: PolicyTable, m: Move) {
    Sorting.Distinct(order) && forall id :: id in order <==> Targets(policies, id, m.oldPdid)
  }

  ghost function Visited(order: seq<string>, i: nat): set<string>
    requires i <= |order|
  {
    set id | id in order[..i]
  }

  /** In this order some row finds its key held. */
  ghost predicate Stuck(policies: PolicyTable, m: Move, order: seq<string>) {
    exists i :: 0 <= i < |order| && Held(policies, m, order[i], Visited(order, i))
  }

  ghost predicate HoldsTargets(targetByID: PolicyTable, table: PolicyTable, pdid: string) {
    && (forall id :: id in targetByID <==> Targets(table, id, pdid))
    && forall id | id in targetByID :: targetByID[id] == table[id]
  }

  ghost function TargetRows(table: PolicyTable, pdid: string): PolicyTable {
    map id | id in table && Targets(table, id, pdid) :: table[id]
  }

  /** Table and collisions are those of the reference for the rows moved so far, in whatever order. */
  ghost predicate RowsMoved(
      after: PolicyTable, conflicts: seq<Conflict>, policies: PolicyTable, processed: set<string>, m: Move)
  {
    && ValidMove(policies, processed, m) && TableIs(after, policies, processed, m)
    && CollisionsAre(conflicts, policies, processed, m)
  }

  lemma StartOfMove(policies: PolicyTable, m: Move)
    requires m.oldPdid != m.newPdid && KeyedPolicies(policies)
    ensures RowsMoved(policies, [], policies, {}, m)
  {
    forall k ensures CollisionAt(policies, {}, m, k) == None
      ensures RowAfter(policies, {}, m, k) == if k in policies then Some(policies[k]) else None
    {
      RetargetFacts(k, m.oldPdid, m.newPdid);
    }
  }

  lemma StepOfMove(
      after: PolicyTable, conflicts: seq<Conflict>, policies: PolicyTable, processed: set<string>, m: Move, id: string)
    requires RowsMoved(after, conflicts, policies, processed, m)
    requires Targets(policies, id, m.oldPdid) && id !in processed
    ensures id in after && after[id] == policies[id]
    ensures MoveRow(after, policies[id], m).Some? ==>
              RowsMoved(MoveRow(after, policies[id], m).value, conflicts + Listed(AtRow(after, policies[id], m)),
                       policies, processed + {id}, m)
    ensures MoveRow(after, policies[id], m).None? <==> Held(policies, m, id, processed)
  {
    RowOfUnmoved(after, policies, processed, m, id);
    if MoveRow(after, policies[id], m).Some? {
      MoveRowIsRight(after, policies, processed, m, id);
      MoveRowCollides(after, conflicts, policies, processed, m, id);
    } else {
      var key := Retarget(id, m.oldPdid, m.newPdid);
      OneMoreMoved(policies, processed, m, id, key);
      assert (if key in after then Some(after[key]) else None) == RowAfter(policies, processed, m, key);
    }
  }

  lemma RowsAreKeyed(table: PolicyTable, policies: PolicyTable, processed: set<string>, m: Move)
    requires ValidMove(policies, processed, m) && TableIs(table, policies, processed, m)
    ensures KeyedPolicies(table)
  {
    forall k | k in table ensures table[k].id == k {
      RowIdIsKey(table, policies, processed, m, k);
    }
  }

  /** The body of the loop below: one source row against the target rows known so far. */
  method MoveOne(table: PolicyTable, targetByID: PolicyTable, row: Policy, m: Move)
    returns (r: Option<PolicyTable>, targets: PolicyTable, conflict: Option<Conflict>)
    requires m.oldPdid != m.newPdid && HoldsTargets(targetByID, table, m.newPdid)
    requires Targets(table, row.id, m.oldPdid) && table[row.id] == row
    requires forall id | id in targetByID :: targetByID[id].id == id
    ensures r == MoveRow(table, row, m)
    ensures r.Some? ==> HoldsTargets(targets, r.value, m.newPdid) && conflict == AtRow(table, row, m)
  {
    var oldId := row.id;
    var source := Moved(row, m);
    targets := targetByID;
    if source.id in targetByID {
      var target := targetByID[source.id];
      var winner, loser := target, source;
      if source.priority > target.priority {
        winner, loser := source, target;
      }
      conflict := Some(Conflict(Collision, winner, loser));
      var kept := table - {oldId, target.id};
      r := Some(kept[winner.id := winner]);
      targets := targets[winner.id := winner];
    } else {
      conflict := None;
      var kept := table - {oldId};
      if source.id in kept {
        return None, targets, None;
      }
      r := Some(kept[source.id := source]);
      targets := targets[source.id := source];
    }
  }

  /** Moves the device policies of the old PDID in the order in which the database returns its
      rows; `None` exactly when an insert runs into a key that is held, in which case the
      transaction is given up. */
  method MigratePolicies(policies: PolicyTable, m: Move, order: seq<string>)
    returns (after: Option<PolicyTable>, collisions: seq<Conflict>, precedences: seq<Conflict>)
    requires m.oldPdid != m.newPdid && KeyedPolicies(policies) && IsRowOrder(order, policies, m)
    ensures after.Some? ==> RowsMoved(after.value, collisions, policies, Sources(policies, m), m)
    ensures after.Some? ==> PoliciesMoved(after.value, policies, collisions, m)
    ensures after.Some? ==> PrecedencesAre(precedences, TargetRows(after.value, m.newPdid))
    ensures after.None? <==> Stuck(policies, m, order)
  {
    collisions, precedences := [], [];
    var targetByID := map id | id in policies && policies[id].ptype == DevicePolicy
                               && policies[id].targetId == m.newPdid :: policies[id];
    var table := policies;
    StartOfMove(policies, m);
    assert Visited(order, 0) == {};
    for i := 0 to |order|
      invariant RowsMoved(table, collisions, policies, Visited(order, i), m)
      invariant HoldsTargets(targetByID, table, m.newPdid)
      invariant forall k | 0 <= k < i :: !Held(policies, m, order[k], Visited(order, k))
    {
      NextVisited(order, i);
      StepOfMove(table, collisions, policies, Visited(order, i), m, order[i]);
      RowsAreKeyed(table, policies, Visited(order, i), m);
      var next, targets, conflict := MoveOne(table, targetByID, policies[order[i]], m);
      if next.None? {
        return None, collisions, precedences;
      }
      table, targetByID, collisions := next.value, targets, collisions + Listed(conflict);
    }
    RowsAreKeyed(table, policies, Visited(order, |order|), m);
    assert Visited(order, |order|) == Sources(policies, m);
    assert RowsMoved(table, collisions, policies, Sources(policies, m), m);
    PoliciesSurvive(table, policies, collisions, m);
    assert targetByID == TargetRows(table, m.newPdid);
    precedences := RecordPrecedence(targetByID);
    after := Some(table);
  }

  lemma NextVisited(order: seq<string>, i: nat)
    requires Sorting.Distinct(order) && i < |order|
    ensures order[i] in order && order[i] !in Visited(order, i)
    ensures Visited(order, i + 1) == Visited(order, i) + {order[i]}
  {
    assert order[..i + 1] == order[..i] + [order[i]];
  }

  // ----- what a finished step means

  /** The policy is in the table, or lost its key to a recorded winner that it does not outrank, and
      that outranks it if the policy was the target's own. */
  ghost predicate Survives(p: Policy, own: bool, after: PolicyTable, collisions: seq<Conflict>) {
    p.id in after && (after[p.id] == p || (&& Conflict(Collision, after[p.id], p) in collisions
                                           && after[p.id].priority >= p.priority
                                           && (own ==> after[p.id].priority > p.priority)))
  }

  /** Of the migrated policy only the target, the time and a temporary id are new. */
  ghost predicate IsMoveOf(p: Policy, q: Policy, m: Move) {
    && q.targetId == m.newPdid && q.updatedAt == m.now
    && q.name == p.name && q.ptype == p.ptype && q.action == p.action && q.enabled == p.enabled
    && q.scheduleIds == p.scheduleIds && q.scheduleId == p.scheduleId && q.priority == p.priority
    && q.id == (if p.id == "pol_pause_" + m.oldPdid then "pol_pause_" + m.newPdid
                else if p.id == "pol_extend_device_" + m.oldPdid then "pol_extend_device_" + m.newPdid
                else p.id)
  }

  ghost predicate MoveSurvives(p: Policy, after: PolicyTable, collisions: seq<Conflict>, m: Move) {
    exists q :: IsMoveOf(p, q, m) && Survives(q, false, after, collisions)
  }

  /** The policy was the target's before, or is the moved one of a policy of the old PDID. */
  ghost predicate ComesFrom(q: Policy, policies: PolicyTable, m: Move) {
    || (Targets(policies, q.id, m.newPdid) && policies[q.id] == q)
    || exists id :: Targets(policies, id, m.oldPdid) && IsMoveOf(policies[id], q, m)
  }

  predicate Concerned(p: Policy, m: Move) {
    p.ptype == DevicePolicy && (p.targetId == m.oldPdid || p.targetId == m.newPdid)
  }

  /** Nothing is left under the old PDID; every policy of either PDID is kept under the new one,
      except the lower in priority of two with one id; no other policy is touched or invented. */
  ghost predicate PoliciesMoved(after: PolicyTable, policies: PolicyTable, collisions: seq<Conflict>, m: Move) {
    && (forall id :: !Targets(after, id, m.oldPdid))
    && (forall id | Targets(policies, id, m.oldPdid) :: MoveSurvives(policies[id], after, collisions, m))
    && (forall id | Targets(policies, id, m.newPdid) :: Survives(policies[id], true, after, collisions))
    && (forall id | id in policies && !Concerned(policies[id], m) :: id in after && after[id] == policies[id])
    && (forall id | id in after && !Concerned(after[id], m) :: id in policies && policies[id] == after[id])
    && (forall id | id in after && Concerned(after[id], m) :: ComesFrom(after[id], policies, m))
    && (forall c | c in collisions ::
          && c.kind == Collision && c.winner.id == c.loser.id
          && c.winner.targetId == m.newPdid == c.loser.targetId
          && c.winner.id in after && after[c.winner.id] == c.winner
          && ComesFrom(c.winner, policies, m) && ComesFrom(c.loser, policies, m))
  }

  lemma MovedIsMoveOf(p: Policy, m: Move)
    ensures IsMoveOf(p, Moved(p, m), m)
  {
  }

  lemma PoliciesSurvive(after: PolicyTable, policies: PolicyTable, collisions: seq<Conflict>, m: Move)
    requires RowsMoved(after, collisions, policies, Sources(policies, m), m)
    ensures PoliciesMoved(after, policies, collisions, m)
  {
    forall k
      ensures Targets(policies, k, m.oldPdid) ==> MoveSurvives(policies[k], after, collisions, m)
      ensures Targets(policies, k, m.newPdid) ==> Survives(policies[k], true, after, collisions)
    {
      KeptAtKey(after, policies, collisions, m, k);
    }
    forall k
      ensures k in policies && !Concerned(policies[k], m) ==> k in after && after[k] == policies[k]
      ensures k in after && !Concerned(after[k], m) ==> k in policies && policies[k] == after[k]
      ensures k in after && Concerned(after[k], m) ==> ComesFrom(after[k], policies, m)
      ensures !Targets(after, k, m.oldPdid)
    {
      OriginAtKey(after, policies, collisions, m, k);
    }
    forall c | c in collisions
      ensures c.kind == Collision && c.winner.id == c.loser.id
      ensures c.winner.targetId == m.newPdid == c.loser.targetId
      ensures c.winner.id in after && after[c.winner.id] == c.winner
      ensures ComesFrom(c.winner, policies, m) && ComesFrom(c.loser, policies, m)
    {
      CollisionComesFrom(after, policies, collisions, m, c);
    }
  }

  lemma KeptAtKey(after: PolicyTable, policies: PolicyTable, collisions: seq<Conflict>, m: Move, k: string)
    requires RowsMoved(after, collisions, policies, Sources(policies, m), m)
    ensures Targets(policies, k, m.oldPdid) ==> MoveSurvives(policies[k], after, collisions, m)
    ensures Targets(policies, k, m.newPdid) ==> Survives(policies[k], true, after, collisions)
  {
    RowAtKey(after, policies, collisions, m, k);
    if Targets(policies, k, m.oldPdid) {
      RetargetFacts(k, m.oldPdid, m.newPdid);
      RowAtKey(after, policies, collisions, m, Retarget(k, m.oldPdid, m.newPdid));
      MovedIsMoveOf(policies[k], m);
      assert Survives(Moved(policies[k], m), false, after, collisions);
    }
  }

  /** Where the rows that meet at a key come from. */
  lemma RowsComeFrom(policies: PolicyTable, m: Move, k: string)
    requires m.oldPdid != m.newPdid && KeyedPolicies(policies)
    ensures var arriving := Arriving(policies, Sources(policies, m), m, k);
      arriving.Some? ==> arriving.value.id == k && ComesFrom(arriving.value, policies, m)
    ensures var staying := Staying(policies, Sources(policies, m), m, k);
      staying.Some? ==>
        staying.value.id == k && (Concerned(staying.value, m) ==> ComesFrom(staying.value, policies, m))
  {
    RetargetFacts(k, m.oldPdid, m.newPdid);
    var arriving := Arriving(policies, Sources(policies, m), m, k);
    var staying := Staying(policies, Sources(policies, m), m, k);
    if arriving.Some? {
      var other := Mover(k, m.oldPdid, m.newPdid).value;
      MovedIsMoveOf(policies[other], m);
      assert Targets(policies, other, m.oldPdid) && IsMoveOf(policies[other], arriving.value, m);
    }
    if staying.Some? && k in Sources(policies, m) {
      MovedIsMoveOf(policies[k], m);
      assert Targets(policies, k, m.oldPdid) && IsMoveOf(policies[k], staying.value, m);
    }
  }

  lemma OriginAtKey(after: PolicyTable, policies: PolicyTable, collisions: seq<Conflict>, m: Move, k: string)
    requires RowsMoved(after, collisions, policies, Sources(policies, m), m)
    ensures k in policies && !Concerned(policies[k], m) ==> k in after && after[k] == policies[k]
    ensures k in after && !Concerned(after[k], m) ==> k in policies && policies[k] == after[k]
    ensures k in after && Concerned(after[k], m) ==> ComesFrom(after[k], policies, m)
    ensures !Targets(after, k, m.oldPdid)
  {
    RowAtKey(after, policies, collisions, m, k);
    RowsComeFrom(policies, m, k);
    RetargetFacts(k, m.oldPdid, m.newPdid);
  }

  lemma CollisionComesFrom(
      after: PolicyTable, policies: PolicyTable, collisions: seq<Conflict>, m: Move, c: Conflict)
    requires RowsMoved(after, collisions, policies, Sources(policies, m), m) && c in collisions
    ensures c.kind == Collision && c.winner.id == c.loser.id
    ensures c.winner.targetId == m.newPdid == c.loser.targetId
    ensures c.winner.id in after && after[c.winner.id] == c.winner
    ensures ComesFrom(c.winner, policies, m) && ComesFrom(c.loser, policies, m)
  {
    assert CollisionAt(policies, Sources(policies, m), m, c.winner.id) == Some(c);
    RowAtKey(after, policies, collisions, m, c.winner.id);
    RowsComeFrom(policies, m, c.winner.id);
  }

  /** The row at one key once all sources have been moved. */
  lemma RowAtKey(after: PolicyTable, policies: PolicyTable, collisions: seq<Conflict>, m: Move, k: string)
    requires RowsMoved(after, collisions, policies, Sources(policies, m), m)
    ensures var arriving := Arriving(policies, Sources(policies, m), m, k);
            var staying := Staying(policies, Sources(policies, m), m, k);
            && (if k in after then Some(after[k]) else None) == RowAfter(policies, Sources(policies, m), m, k)
            && (arriving.Some? ==> arriving.value.id == k && Survives(arriving.value, false, after, collisions))
            && (staying.Some? ==> staying.value.id == k && Survives(staying.value, true, after, collisions))
            && (arriving.Some? && staying.Some? ==>
                staying.value.targetId == m.newPdid && staying.value.ptype == DevicePolicy)
  {
    RetargetFacts(k, m.oldPdid, m.newPdid);
    var sources := Sources(policies, m);
    assert (if k in after then Some(after[k]) else None) == RowAfter(policies, sources, m, k);
    var c := CollisionAt(policies, sources, m, k);
    assert c.Some? ==> c.value in collisions;
  }
}
