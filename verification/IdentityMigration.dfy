/** The LIAS store across a change of identity: one transaction moves every reference from an
    old PDID to a new one, and later writes follow the redirect it leaves. */
module IdentityMigration {
  import opened Options
  import opened ScheduleModel
  import opened PolicyModel
  import opened PolicyMigration
  import opened Redirects
  import Sorting
  import Strings

  datatype TagKey = TagKey(pdid: string, tag: string)

  datatype FlowLog = FlowLog(timestamp: int, pdid: string, action: Action, bytes: int)

  datatype ConflictRow = ConflictRow(oldPdid: string, newPdid: string, conflict: Conflict)

  datatype Database = Database(
    tags: map<TagKey, string>,        // device_tags: the MAC by PDID and tag
    overrides: map<string, string>,   // device_overrides: the friendly name
    users: map<string, string>,       // device_users
    policies: PolicyTable,
    flowLogs: seq<FlowLog>,
    redirects: Table,                 // identity_pdid_redirects
    migrations: map<string, string>,  // identity_migrations: the recorded target
    conflicts: seq<ConflictRow>)      // identity_migration_conflicts

  datatype Report = Report(
    tags: seq<string>, friendlyName: string, userId: string, policies: seq<Policy>,
    conflicts: seq<Conflict>, replayed: bool)

  datatype Outcome = Committed(report: Report) | InvalidMigration | TargetConflict | KeyTaken

  // ----- the tables, before and after

  function Cell<K, V>(table: map<K, V>, key: K): Option<V> {
    if key in table then Some(table[key]) else None
  }

  /** The target has the tags of both, its own MAC first, the old PDID has none, and the tags of
      other devices are as they were. */
  ghost predicate TagsMoved(before: map<TagKey, string>, after: map<TagKey, string>, m: Move) {
    forall pdid, tag ::
      Cell(after, TagKey(pdid, tag)) ==
      if pdid == m.oldPdid then None
      else if pdid == m.newPdid && TagKey(pdid, tag) !in before then Cell(before, TagKey(m.oldPdid, tag))
      else Cell(before, TagKey(pdid, tag))
  }

  /** The target keeps its own text unless it is missing or empty, and then takes the source's,
      if there is one. */
  ghost predicate TextMoved(before: map<string, string>, after: map<string, string>, m: Move) {
    forall pdid ::
      Cell(after, pdid) ==
      if pdid == m.oldPdid then None
      else if pdid != m.newPdid || m.oldPdid !in before then Cell(before, pdid)
      else if pdid in before && before[pdid] != "" then Some(before[pdid])
      else Some(before[m.oldPdid])
  }

  ghost predicate LogsMoved(before: seq<FlowLog>, after: seq<FlowLog>, m: Move) {
    && |after| == |before|
    && forall i | 0 <= i < |before| ::
         after[i] == if before[i].pdid == m.oldPdid then before[i].(pdid := m.newPdid) else before[i]
  }

  ghost predicate RowsAppended(before: seq<ConflictRow>, after: seq<ConflictRow>, m: Move, conflicts: seq<Conflict>) {
    && |after| == |before| + |conflicts| && after[..|before|] == before
    && forall i | 0 <= i < |conflicts| :: after[|before| + i] == ConflictRow(m.oldPdid, m.newPdid, conflicts[i])
  }

  /** Everything a committed migration does to the tables. */
  ghost predicate Migrated(before: Database, after: Database, m: Move, collisions: seq<Conflict>,
      precedences: seq<Conflict>) {
    && TagsMoved(before.tags, after.tags, m)
    && TextMoved(before.overrides, after.overrides, m)
    && TextMoved(before.users, after.users, m)
    && RowsMoved(after.policies, collisions, before.policies, Sources(before.policies, m), m)
    && PoliciesMoved(after.policies, before.policies, collisions, m)
    && PrecedencesAre(precedences, TargetRows(after.policies, m.newPdid))
    && LogsMoved(before.flowLogs, after.flowLogs, m)
    && after.redirects == Compress(before.redirects, m.oldPdid, m.newPdid)
    && after.migrations == before.migrations[m.oldPdid := m.newPdid]
    && RowsAppended(before.conflicts, after.conflicts, m, collisions + precedences)
  }

  // ----- what is reported

  ghost predicate IsTagList(tags: seq<string>, table: map<TagKey, string>, pdid: string) {
    && Sorting.Distinct(tags) && Sorting.IsSorted(Strings.Leq, tags)
    && forall tag :: tag in tags <==> TagKey(pdid, tag) in table
  }

  function TextOf(table: map<string, string>, pdid: string): string {
    if pdid in table then table[pdid] else ""
  }

  function RowsOf(rows: seq<ConflictRow>, m: Move): seq<Conflict> {
    if rows == [] then []
    else
      var init, last := rows[..|rows| - 1], rows[|rows| - 1];
      RowsOf(init, m) + if last.oldPdid == m.oldPdid && last.newPdid == m.newPdid then [last.conflict] else []
  }

  /** The report shows the state of the new PDID as it is in the database. */
  ghost predicate Reports(r: Report, db: Database, pdid: string) {
    && IsTagList(r.tags, db.tags, pdid)
    && r.friendlyName == (if pdid in db.overrides then db.overrides[pdid] else "")
    && r.userId == (if pdid in db.users then db.users[pdid] else "")
    && Sorting.IsSorted(PolicyLeq, r.policies)
    && AreRowsOf(r.policies, db.policies, TargetRows(db.policies, pdid).Keys)
  }

  /** The report lists the tags in byte order and the policies in the order of enforcement, each once
      and none that is not the device's. */
  lemma ReportMeaning(r: Report, db: Database, pdid: string)
    requires KeyedPolicies(db.policies) && Reports(r, db, pdid)
    ensures forall tag :: tag in r.tags <==> TagKey(pdid, tag) in db.tags
    ensures forall i, j | 0 <= i < j < |r.tags| :: Strings.Precedes(r.tags[i], r.tags[j])
    ensures forall p :: p in r.policies <==>
              p.id in db.policies && db.policies[p.id] == p && p.ptype == DevicePolicy && p.targetId == pdid
    ensures forall i, j | 0 <= i < j < |r.policies| :: EnforcedBefore(r.policies[i], r.policies[j])
  {
    forall i, j | 0 <= i < j < |r.tags| ensures Strings.Precedes(r.tags[i], r.tags[j]) {
      Strings.LeqMeans(r.tags[i], r.tags[j]);
    }
    forall i, j | 0 <= i < j < |r.policies| ensures EnforcedBefore(r.policies[i], r.policies[j]) {
      assert r.policies[i] in r.policies && r.policies[j] in r.policies;
      PolicyLeqMeans(r.policies[i], r.policies[j]);
    }
  }

  /** The database determines its report up to the conflicts. */
  lemma ReportsAgree(r: Report, s: Report, db: Database, pdid: string)
    requires Reports(r, db, pdid) && Reports(s, db, pdid)
    ensures r.(conflicts := s.conflicts, replayed := s.replayed) == s
  {
    Strings.LeqIsOrder();
    Sorting.SortedListingUnique(Strings.Leq, r.tags, s.tags);
    PolicyLeqAntisymmetric(db.policies, r.policies);
    Sorting.SortedListingUnique(PolicyLeq, r.policies, s.policies);
  }

  lemma {:induction false} RowsOfAppended(before: seq<ConflictRow>, after: seq<ConflictRow>, m: Move,
      conflicts: seq<Conflict>)
    requires RowsAppended(before, after, m, conflicts)
    requires forall row | row in before :: row.oldPdid != m.oldPdid
    ensures RowsOf(after, m) == conflicts
  {
    if conflicts == [] {
      assert after == before;
      NoRowsOf(before, m);
    } else {
      var n := |conflicts| - 1;
      RowsOfAppended(before, after[..|after| - 1], m, conflicts[..n]);
      assert conflicts == conflicts[..n] + [conflicts[n]];
    }
  }

  lemma {:induction false} NoRowsOf(rows: seq<ConflictRow>, m: Move)
    requires forall row | row in rows :: row.oldPdid != m.oldPdid
    ensures RowsOf(rows, m) == []
  {
    if rows != [] {
      NoRowsOf(rows[..|rows| - 1], m);
    }
  }

  // ----- the histories of a store

  /** The store has lived through these merges, and these log entries have been written to it:
      each is kept, and stands under the survivor of the PDID it was written for. */
  ghost predicate Historic(db: Database, merges: seq<Merge>, written: seq<FlowLog>) {
    && ValidHistory(merges) && db.redirects == CompressedTable(merges)
    && (forall pdid :: pdid in db.migrations <==> WasMergedAway(merges, pdid))
    && (forall row | row in db.conflicts :: row.oldPdid in db.migrations)
    && LogsSurvive(db.flowLogs, merges, written)
  }

  ghost predicate LogsSurvive(logs: seq<FlowLog>, merges: seq<Merge>, written: seq<FlowLog>) {
    && |logs| == |written|
    && forall i | 0 <= i < |written| :: logs[i] == written[i].(pdid := Survivor(merges, written[i].pdid))
  }

  lemma AppendedRowsAreRecorded(
      before: seq<ConflictRow>, after: seq<ConflictRow>, m: Move, conflicts: seq<Conflict>,
      migrations: map<string, string>)
    requires RowsAppended(before, after, m, conflicts)
    requires forall row | row in before :: row.oldPdid in migrations
    ensures forall row | row in after :: row.oldPdid in migrations[m.oldPdid := m.newPdid]
  {
    assert after == after[..|before|] + after[|before|..];
    forall i | |before| <= i < |after| ensures after[i].oldPdid == m.oldPdid {
      var k := i - |before|;
      assert after[|before| + k] == ConflictRow(m.oldPdid, m.newPdid, conflicts[k]);
    }
  }

  lemma ExtendedHistory(merges: seq<Merge>, last: Merge)
    requires ValidHistory(merges) && last.source != last.target && !WasMergedAway(merges, last.source)
    ensures ValidHistory(merges + [last]) <==> !WasMergedAway(merges, last.target)
    ensures CompressedTable(merges + [last]) == Compress(CompressedTable(merges), last.source, last.target)
    ensures forall pdid :: WasMergedAway(merges + [last], pdid) <==> WasMergedAway(merges, pdid) || pdid == last.source
    ensures forall pdid :: Survivor(merges + [last], pdid) ==
              if Survivor(merges, pdid) == last.source then last.target else Survivor(merges, pdid)
  {
    var more := merges + [last];
    assert more[..|more| - 1] == merges && more[|more| - 1] == last;
    assert forall x :: x in more <==> x in merges || x == last;
  }

  /** A migration continues the history exactly when its target is live. */
  lemma MigrationIsHistoric(
      before: Database, after: Database, m: Move, collisions: seq<Conflict>, precedences: seq<Conflict>,
      merges: seq<Merge>, written: seq<FlowLog>)
    requires Historic(before, merges, written) && Migrated(before, after, m, collisions, precedences)
    requires m.oldPdid != m.newPdid && m.oldPdid !in before.migrations
    ensures Historic(after, merges + [Merge(m.oldPdid, m.newPdid)], written) <==> m.newPdid !in before.migrations
  {
    ExtendedHistory(merges, Merge(m.oldPdid, m.newPdid));
    MovedLogsSurvive(before.flowLogs, after.flowLogs, m, merges, written);
    AppendedRowsAreRecorded(before.conflicts, after.conflicts, m, collisions + precedences, before.migrations);
  }

  lemma MovedLogsSurvive(before: seq<FlowLog>, after: seq<FlowLog>, m: Move, merges: seq<Merge>, written: seq<FlowLog>)
    requires LogsSurvive(before, merges, written) && LogsMoved(before, after, m)
    ensures LogsSurvive(after, merges + [Merge(m.oldPdid, m.newPdid)], written)
  {
    var more := merges + [Merge(m.oldPdid, m.newPdid)];
    assert more[..|more| - 1] == merges && more[|more| - 1] == Merge(m.oldPdid, m.newPdid);
    forall i | 0 <= i < |written| ensures after[i] == written[i].(pdid := Survivor(more, written[i].pdid)) {
      assert before[i] == written[i].(pdid := Survivor(merges, written[i].pdid));
    }
  }

  /** Whether the targets were live or not: each log entry ever written is kept, and stands where a
      lookup of the PDID it was written for leads today. */
  ghost predicate FollowsLookup(db: Database, written: seq<FlowLog>) {
    && db.redirects.Keys == db.migrations.Keys && |db.flowLogs| == |written|
    && forall i | 0 <= i < |written| ::
         db.flowLogs[i] == written[i].(pdid := Lookup(db.redirects, written[i].pdid))
  }

  lemma MigrationFollowsLookup(
      before: Database, after: Database, m: Move, collisions: seq<Conflict>, precedences: seq<Conflict>,
      written: seq<FlowLog>)
    requires FollowsLookup(before, written) && Migrated(before, after, m, collisions, precedences)
    requires m.oldPdid !in before.migrations
    ensures FollowsLookup(after, written)
  {
    forall i | 0 <= i < |written|
      ensures after.flowLogs[i] == written[i].(pdid := Lookup(after.redirects, written[i].pdid))
    {
      assert before.flowLogs[i] == written[i].(pdid := Lookup(before.redirects, written[i].pdid));
    }
  }

  // ----- the statements of the transaction

  /** `INSERT OR IGNORE ... SELECT`, then `DELETE`. */
  method MoveTags(tags: map<TagKey, string>, m: Move) returns (after: map<TagKey, string>)
    requires m.oldPdid != m.newPdid
    ensures TagsMoved(tags, after, m)
  {
    after := (map k | k in tags && k.pdid == m.oldPdid :: TagKey(m.newPdid, k.tag) := tags[k]) + tags;
    after := map k | k in after && k.pdid != m.oldPdid :: after[k];
  }

  /** `INSERT ... ON CONFLICT DO UPDATE`, then `DELETE`. */
  method MoveText(table: map<string, string>, m: Move) returns (after: map<string, string>)
    requires m.oldPdid != m.newPdid
    ensures TextMoved(table, after, m)
  {
    after := table;
    if m.oldPdid in after {
      after := after[m.newPdid := if m.newPdid in after && after[m.newPdid] != "" then after[m.newPdid]
                                  else after[m.oldPdid]];
    }
    after := after - {m.oldPdid};
  }

  method MoveLogs(logs: seq<FlowLog>, m: Move) returns (after: seq<FlowLog>)
    ensures LogsMoved(logs, after, m)
  {
    after := seq(|logs|, i requires 0 <= i < |logs| =>
      if logs[i].pdid == m.oldPdid then logs[i].(pdid := m.newPdid) else logs[i]);
  }

  method AppendConflicts(rows: seq<ConflictRow>, m: Move, conflicts: seq<Conflict>) returns (after: seq<ConflictRow>)
    ensures RowsAppended(rows, after, m, conflicts)
  {
    after := rows;
    for i := 0 to |conflicts|
      invariant RowsAppended(rows, after, m, conflicts[..i])
    {
      after := after + [ConflictRow(m.oldPdid, m.newPdid, conflicts[i])];
    }
    assert conflicts[..|conflicts|] == conflicts;
  }

  /** The statements of the transaction from the tags to the recorded conflicts. */
  method MoveEverything(db: Database, m: Move, rowOrder: seq<string>)
    returns (after: Option<Database>, collisions: seq<Conflict>, precedences: seq<Conflict>)
    requires m.oldPdid != m.newPdid && KeyedPolicies(db.policies) && IsRowOrder(rowOrder, db.policies, m)
    ensures after.None? <==> Stuck(db.policies, m, rowOrder)
    ensures after.Some? ==>
              && Migrated(db, after.value, m, collisions, precedences) && KeyedPolicies(after.value.policies)
              && NoKeyHeld(db.policies, Sources(db.policies, m), m)
  {
    var tags := MoveTags(db.tags, m);
    var overrides := MoveText(db.overrides, m);
    var users := MoveText(db.users, m);
    var policies;
    policies, collisions, precedences := MigratePolicies(db.policies, m, rowOrder);
    if policies.None? {
      return None, collisions, precedences;
    }
    RowsAreKeyed(policies.value, db.policies, Sources(db.policies, m), m);
    var logs := MoveLogs(db.flowLogs, m);
    var redirects := Compress(db.redirects, m.oldPdid, m.newPdid);
    var rows := AppendConflicts(db.conflicts, m, collisions + precedences);
    var migrations := db.migrations[m.oldPdid := m.newPdid];
    after := Some(Database(tags, overrides, users, policies.value, logs, redirects, migrations, rows));
  }

  /** Reads the state of the new PDID back, in the order of the report. */
  method LoadState(db: Database, pdid: string) returns (r: Report)
    requires KeyedPolicies(db.policies)
    ensures Reports(r, db, pdid) && !r.replayed
  {
    var held := set k | k in db.tags && k.pdid == pdid :: k.tag;
    var tags := Strings.Listing(held);
    assert forall tag :: tag in held <==> TagKey(pdid, tag) in db.tags;
    var keep := set id | id in db.policies && db.policies[id].ptype == DevicePolicy && db.policies[id].targetId == pdid;
    assert keep == TargetRows(db.policies, pdid).Keys;
    var policies := SortedRows(db.policies, keep);
    r := Report(tags, TextOf(db.overrides, pdid), TextOf(db.users, pdid), policies, [], false);
  }

  class Storage {
    var db: Database

    /** The merges the store has seen, and the log entries as they were handed to it. */
    ghost var merges: seq<Merge>
    ghost var written: seq<FlowLog>

    ghost predicate Keyed()
      reads this
    {
      KeyedPolicies(db.policies)
    }

    ghost predicate ValidLookups()
      reads this
    {
      FollowsLookup(db, written)
    }

    ghost predicate ValidHistoric()
      reads this
    {
      Historic(db, merges, written)
    }

    constructor ()
      ensures Keyed() && ValidHistoric() && ValidLookups() && merges == [] && written == []
    {
      db := Database(map[], map[], map[], map[], [], map[], map[], []);
      merges, written := [], [];
    }

    /** Moves everything in one transaction: on an error the database is as before, on a replay
        too.  `rowOrder` is the order in which the database returns the policies of the old PDID. */
    method MigrateIdentityState(oldPdid: string, newPdid: string, now: int, rowOrder: seq<string>) returns (r: Outcome)
      requires Keyed() && IsRowOrder(rowOrder, db.policies, Move(oldPdid, newPdid, now))
      modifies this`db, this`merges
      ensures Keyed()
      ensures r.InvalidMigration? <==> oldPdid == "" || newPdid == "" || oldPdid == newPdid
      ensures r.TargetConflict? <==>
                !r.InvalidMigration? && oldPdid in old(db).migrations && old(db).migrations[oldPdid] != newPdid
      ensures !r.Committed? ==> db == old(db) && merges == old(merges)
      ensures r.KeyTaken? <==>
                && oldPdid != "" && newPdid != "" && oldPdid != newPdid && oldPdid !in old(db).migrations
                && Stuck(old(db).policies, Move(oldPdid, newPdid, now), rowOrder)
      ensures r.Committed? ==>
                Reports(r.report, db, newPdid) && (r.report.replayed <==> oldPdid in old(db).migrations)
      ensures r.Committed? && r.report.replayed ==>
                db == old(db) && merges == old(merges)
                && r.report.conflicts == RowsOf(db.conflicts, Move(oldPdid, newPdid, now))
      ensures r.Committed? && !r.report.replayed ==>
                exists collisions, precedences ::
                  Migrated(old(db), db, Move(oldPdid, newPdid, now), collisions, precedences)
                  && r.report.conflicts == collisions + precedences
      ensures r.Committed? && !r.report.replayed ==>
                var m := Move(oldPdid, newPdid, now);
                NoKeyHeld(old(db).policies, Sources(old(db).policies, m), m)
      ensures r.Committed? && !r.report.replayed ==> merges == old(merges) + [Merge(oldPdid, newPdid)]
      ensures old(ValidLookups()) ==> ValidLookups()
      ensures old(ValidHistoric()) && newPdid !in old(db).redirects ==> ValidHistoric()
    {
      if oldPdid == "" || newPdid == "" || oldPdid == newPdid {
        return InvalidMigration;
      }
      var m := Move(oldPdid, newPdid, now);
      var tx := db;
      if oldPdid in tx.migrations {
        if tx.migrations[oldPdid] != newPdid {
          return TargetConflict;
        }
        var state := LoadState(tx, newPdid);
        return Committed(state.(replayed := true, conflicts := RowsOf(tx.conflicts, m)));
      }
      var moved, collisions, precedences := MoveEverything(tx, m, rowOrder);
      if moved.None? {
        return KeyTaken;
      }
      tx := moved.value;
      var state := LoadState(tx, newPdid);
      r := Committed(state.(conflicts := collisions + precedences));
      FollowHistory(db, tx, m, collisions, precedences, merges, written);
      db, merges := tx, merges + [Merge(oldPdid, newPdid)];
    }

    /** A late write is redirected: it lands on the survivor of the PDID it was written for. */
    method SaveFlowLog(pdid: string, action: Action, bytes: int, now: int)
      requires Keyed()
      modifies this`db, this`written
      ensures Keyed()
      ensures db == old(db).(flowLogs := old(db).flowLogs
                                         + [FlowLog(now, Lookup(old(db).redirects, pdid), action, bytes)])
      ensures written == old(written) + [FlowLog(now, pdid, action, bytes)]
      ensures old(ValidLookups()) ==> ValidLookups()
      ensures old(ValidHistoric()) ==> ValidHistoric() && !WasMergedAway(merges, db.flowLogs[|db.flowLogs| - 1].pdid)
    {
      LogIsRedirected(db, merges, written, FlowLog(now, pdid, action, bytes));
      db := db.(flowLogs := db.flowLogs + [FlowLog(now, Lookup(db.redirects, pdid), action, bytes)]);
      written := written + [FlowLog(now, pdid, action, bytes)];
    }
  }

  function Redirected(db: Database, log: FlowLog): Database {
    db.(flowLogs := db.flowLogs + [log.(pdid := Lookup(db.redirects, log.pdid))])
  }

  lemma LogIsRedirected(db: Database, merges: seq<Merge>, written: seq<FlowLog>, log: FlowLog)
    ensures FollowsLookup(db, written) ==> FollowsLookup(Redirected(db, log), written + [log])
    ensures Historic(db, merges, written) ==>
              Historic(Redirected(db, log), merges, written + [log])
              && !WasMergedAway(merges, Lookup(db.redirects, log.pdid))
  {
    if Historic(db, merges, written) {
      OneLookupGivesSurvivor(merges);
      var _ := ChainEndsAtSurvivor(merges, log.pdid);
    }
  }

  lemma FollowHistory(
      before: Database, after: Database, m: Move, collisions: seq<Conflict>, precedences: seq<Conflict>,
      merges: seq<Merge>, written: seq<FlowLog>)
    requires Migrated(before, after, m, collisions, precedences)
    requires m.oldPdid != m.newPdid && m.oldPdid !in before.migrations
    ensures FollowsLookup(before, written) ==> FollowsLookup(after, written)
    ensures Historic(before, merges, written) && m.newPdid !in before.redirects ==>
              Historic(after, merges + [Merge(m.oldPdid, m.newPdid)], written)
  {
    if FollowsLookup(before, written) {
      MigrationFollowsLookup(before, after, m, collisions, precedences, written);
    }
    if Historic(before, merges, written) && m.newPdid !in before.redirects {
      OneLookupGivesSurvivor(merges);
      MigrationIsHistoric(before, after, m, collisions, precedences, merges, written);
    }
  }

  // ----- what it amounts to

  /** Nothing in the store refers to the PDID: no tag, name, user, device policy or log entry. */
  ghost predicate Unreferenced(db: Database, pdid: string) {
    && (forall tag :: TagKey(pdid, tag) !in db.tags)
    && pdid !in db.overrides && pdid !in db.users
    && (forall id :: !Targets(db.policies, id, pdid))
    && forall log | log in db.flowLogs :: log.pdid != pdid
  }

  /** The target has its own text if that is not empty, else that of the old PDID, if there is one. */
  ghost predicate TextInherited(before: map<string, string>, after: map<string, string>, m: Move) {
    if m.newPdid in before && before[m.newPdid] != "" then
      m.newPdid in after && after[m.newPdid] == before[m.newPdid]
    else if m.oldPdid in before then m.newPdid in after && after[m.newPdid] == before[m.oldPdid]
    else m.newPdid in after <==> m.newPdid in before
  }

  /** Nothing of any other device changes. */
  ghost predicate Untouched(before: Database, after: Database, pdid: string) {
    && (forall tag :: Cell(after.tags, TagKey(pdid, tag)) == Cell(before.tags, TagKey(pdid, tag)))
    && Cell(after.overrides, pdid) == Cell(before.overrides, pdid)
    && Cell(after.users, pdid) == Cell(before.users, pdid)
    && (forall id :: Targets(after.policies, id, pdid) <==> Targets(before.policies, id, pdid))
    && (forall id | Targets(before.policies, id, pdid) :: after.policies[id] == before.policies[id])
    && forall i | 0 <= i < |before.flowLogs| && before.flowLogs[i].pdid == pdid ::
         i < |after.flowLogs| && after.flowLogs[i] == before.flowLogs[i]
  }

  lemma OthersUntouched(
      before: Database, after: Database, m: Move, collisions: seq<Conflict>, precedences: seq<Conflict>, pdid: string)
    requires Migrated(before, after, m, collisions, precedences)
    requires pdid != m.oldPdid && pdid != m.newPdid
    ensures Untouched(before, after, pdid)
  {
    forall id ensures Targets(after.policies, id, pdid) <==> Targets(before.policies, id, pdid) {
      assert Targets(after.policies, id, pdid) ==> !Concerned(after.policies[id], m);
      assert Targets(before.policies, id, pdid) ==> !Concerned(before.policies[id], m);
    }
  }

  /** A committed migration leaves nothing under the old PDID, and gives the target the tags of
      both and its own text where that is not empty. */
  lemma NothingLeftBehind(
      before: Database, after: Database, m: Move, collisions: seq<Conflict>, precedences: seq<Conflict>)
    requires m.oldPdid != m.newPdid && Migrated(before, after, m, collisions, precedences)
    ensures Unreferenced(after, m.oldPdid)
    ensures forall tag :: TagKey(m.newPdid, tag) in after.tags <==>
              TagKey(m.newPdid, tag) in before.tags || TagKey(m.oldPdid, tag) in before.tags
    ensures forall tag :: TagKey(m.newPdid, tag) in after.tags ==>
              after.tags[TagKey(m.newPdid, tag)] ==
              if TagKey(m.newPdid, tag) in before.tags then before.tags[TagKey(m.newPdid, tag)]
              else if TagKey(m.oldPdid, tag) in before.tags then before.tags[TagKey(m.oldPdid, tag)]
              else ""
    ensures TextInherited(before.overrides, after.overrides, m) && TextInherited(before.users, after.users, m)
  {
    forall tag
      ensures TagKey(m.oldPdid, tag) !in after.tags
      ensures TagKey(m.newPdid, tag) in after.tags <==>
                TagKey(m.newPdid, tag) in before.tags || TagKey(m.oldPdid, tag) in before.tags
      ensures TagKey(m.newPdid, tag) in after.tags ==>
                after.tags[TagKey(m.newPdid, tag)] ==
                if TagKey(m.newPdid, tag) in before.tags then before.tags[TagKey(m.newPdid, tag)]
                else if TagKey(m.oldPdid, tag) in before.tags then before.tags[TagKey(m.oldPdid, tag)]
                else ""
    {
      assert Cell(after.tags, TagKey(m.oldPdid, tag)) == None;
      var _ := Cell(after.tags, TagKey(m.newPdid, tag));
    }
    assert Cell(after.overrides, m.oldPdid) == None && Cell(after.users, m.oldPdid) == None;
    var _ := (Cell(after.overrides, m.newPdid), Cell(after.users, m.newPdid));
  }

  /** Asking for the same migration again reports what the first time reported, conflicts in
      the same order. */
  lemma ReplayReportsTheSame(
      before: Database, after: Database, m: Move, collisions: seq<Conflict>, precedences: seq<Conflict>,
      merges: seq<Merge>, written: seq<FlowLog>, first: Report, again: Report)
    requires Historic(before, merges, written) && m.oldPdid !in before.migrations
    requires Migrated(before, after, m, collisions, precedences)
    requires Reports(first, after, m.newPdid) && first.conflicts == collisions + precedences
    requires Reports(again, after, m.newPdid) && again.conflicts == RowsOf(after.conflicts, m)
    ensures again == first.(replayed := again.replayed)
  {
    RowsOfAppended(before.conflicts, after.conflicts, m, collisions + precedences);
    ReportsAgree(first, again, after, m.newPdid);
  }

  /** Log entries stand under PDIDs that were not migrated away, and stay so exactly when the
      target of the migration was not or there was nothing to move. */
  ghost predicate LogsOnSurvivors(db: Database) {
    forall log | log in db.flowLogs :: log.pdid !in db.redirects
  }

  lemma LogsStayOnSurvivors(
      before: Database, after: Database, m: Move, collisions: seq<Conflict>, precedences: seq<Conflict>)
    requires m.oldPdid != m.newPdid && LogsOnSurvivors(before) && Migrated(before, after, m, collisions, precedences)
    ensures LogsOnSurvivors(after) <==>
              m.newPdid !in before.redirects || forall log | log in before.flowLogs :: log.pdid != m.oldPdid
  {
    if exists log :: log in before.flowLogs && log.pdid == m.oldPdid {
      var i :| 0 <= i < |before.flowLogs| && before.flowLogs[i].pdid == m.oldPdid;
      assert after.flowLogs[i] in after.flowLogs;
    }
  }
}
