/** The enrichment orchestrator as atomic steps of its callers and workers: a request is
    reserved, queued or dropped, taken, read, run and cleared. */
module Orchestrator {
  import opened Options

  const DEFAULT_WORKERS := 2
  const DEFAULT_QUEUE_SIZE := 128
  /** One hour, in seconds. */
  const COOLDOWN := 3600

  /** Where a caller of `TriggerEnrichment` is: past admission, past the reservation, or about to
      give the reservation back. */
  datatype Caller = Admitted(pdid: string, force: bool) | Reserved(pdid: string) | Dropping(pdid: string)

  /** Where a worker is with the request it took. */
  datatype Worker =
    | Idle | Returned
    | Got(pdid: string)
    | Looked(pdid: string, force: bool)
    | Checked(pdid: string, force: bool)
    | Finishing(pdid: string)

  /** Where the clean-up loop is: between two rounds, in a round, or about to delete the attempt of
      a PDID whose value it found older than the cutoff of the round. */
  datatype Cleaner = Resting | Sweeping(cutoff: int) | Doomed(cutoff: int, pdid: string)

  datatype Place = WithCaller(caller: nat) | InQueue | WithWorker(worker: nat)

  /** What happened, in the order of the steps. */
  datatype Event =
    | Requested(pdid: string, force: bool)
    | ReadBy(pdid: string, force: bool)
    | Started(pdid: string, force: bool, at: int)
    | Cleared(pdid: string)
    | Judged(pdid: string, at: int)
    | Forgotten(pdid: string)

  function CallerHolds(c: Caller): Option<string> {
    if c.Admitted? then None else Some(c.pdid)
  }

  function WorkerHolds(w: Worker): Option<string> {
    if w.Idle? || w.Returned? then None else Some(w.pdid)
  }

  // ----- the steps

  /** Everything the steps read and write, with the place of each pending PDID and the trace. */
  datatype State = State(
    queueSize: nat, pending: map<string, bool>, queue: seq<string>, callers: map<nat, Caller>, workers: seq<Worker>,
    lastAttempt: map<string, int>, cleaner: Cleaner, clock: int, cancelled: bool,
    place: map<string, Place>, log: seq<Event>)

  /** One atomic step of a caller, of a worker, of the clean-up, or of the surroundings. */
  datatype Step =
    | Admit(caller: nat, pdid: string, force: bool, known: bool)
    | Enter(caller: nat)
    | Offer(caller: nat, preferDone: bool)
    | GiveBack(caller: nat)
    | Take(worker: nat)
    | Look(worker: nat)
    | Check(worker: nat, known: bool)
    | Start(worker: nat)
    | Finish(worker: nat)
    | Leave(worker: nat)
    | BeginSweep
    | Judge(pdid: string)
    | Forget
    | EndSweep
    | Tick(seconds: nat)
    | Cancel

  predicate CoolingDown(lastAttempt: map<string, int>, clock: int, pdid: string) {
    pdid in lastAttempt && clock - lastAttempt[pdid] < COOLDOWN
  }

  ghost predicate Enabled(s: State, step: Step) {
    match step
    case Admit(c, _, _, _) => c !in s.callers
    case Enter(c) => c in s.callers && s.callers[c].Admitted?
    case Offer(c, _) => c in s.callers && s.callers[c].Reserved?
    case GiveBack(c) => c in s.callers && s.callers[c].Dropping?
    case Take(w) => w < |s.workers| && s.workers[w].Idle? && s.queue != []
    case Look(w) => w < |s.workers| && s.workers[w].Got?
    case Check(w, _) => w < |s.workers| && s.workers[w].Looked?
    case Start(w) => w < |s.workers| && s.workers[w].Checked?
    case Finish(w) => w < |s.workers| && s.workers[w].Finishing?
    case Leave(w) => w < |s.workers| && s.workers[w].Idle? && s.cancelled
    case BeginSweep => s.cleaner.Resting?
    case Judge(p) => s.cleaner.Sweeping? && p in s.lastAttempt
    case Forget => s.cleaner.Doomed?
    case EndSweep => s.cleaner.Sweeping?
    case Tick(_) => true
    case Cancel => true
  }

  /** Unknown devices are ignored, and unforced requests during the cooldown. */
  ghost function AfterAdmit(s: State, c: nat, pdid: string, force: bool, known: bool): State {
    if pdid == "" || !known || (!force && CoolingDown(s.lastAttempt, s.clock, pdid)) then s
    else s.(callers := s.callers[c := Admitted(pdid, force)])
  }

  /** A pending PDID takes the request in, otherwise the caller reserves it. */
  ghost function AfterEnter(s: State, c: nat): State
    requires Enabled(s, Enter(c))
  {
    var Admitted(p, force) := s.callers[c];
    var t := s.(pending := s.pending[p := force || (p in s.pending && s.pending[p])],
                log := s.log + [Requested(p, force)]);
    if p in s.pending then t.(callers := s.callers - {c})
    else t.(callers := s.callers[c := Reserved(p)], place := s.place[p := WithCaller(c)])
  }

  /** Queued while there is room; a cancelled orchestrator may also turn the caller away. */
  ghost function AfterOffer(s: State, c: nat, preferDone: bool): State
    requires Enabled(s, Offer(c, preferDone))
  {
    var p := s.callers[c].pdid;
    if |s.queue| < s.queueSize && !(s.cancelled && preferDone)
    then s.(queue := s.queue + [p], callers := s.callers - {c}, place := s.place[p := InQueue])
    else s.(callers := s.callers[c := Dropping(p)])
  }

  ghost function AfterGiveBack(s: State, c: nat): State
    requires Enabled(s, GiveBack(c))
  {
    var p := s.callers[c].pdid;
    s.(pending := s.pending - {p}, place := s.place - {p}, callers := s.callers - {c}, log := s.log + [Cleared(p)])
  }

  ghost function AfterTake(s: State, w: nat): State
    requires Enabled(s, Take(w))
  {
    s.(queue := s.queue[1..], workers := s.workers[w := Got(s.queue[0])], place := s.place[s.queue[0] := WithWorker(w)])
  }

  ghost function AfterLook(s: State, w: nat): State
    requires Enabled(s, Look(w))
  {
    var p := s.workers[w].pdid;
    if p in s.pending
    then s.(workers := s.workers[w := Looked(p, s.pending[p])], log := s.log + [ReadBy(p, s.pending[p])])
    else s.(workers := s.workers[w := Finishing(p)])
  }

  /** The device may be gone by now, and the cooldown is checked again. */
  ghost function AfterCheck(s: State, w: nat, known: bool): State
    requires Enabled(s, Check(w, known))
  {
    var Looked(p, force) := s.workers[w];
    s.(workers := s.workers[w :=
         if !known || (!force && CoolingDown(s.lastAttempt, s.clock, p)) then Finishing(p) else Checked(p, force)])
  }

  ghost function AfterStart(s: State, w: nat): State
    requires Enabled(s, Start(w))
  {
    var Checked(p, force) := s.workers[w];
    s.(lastAttempt := s.lastAttempt[p := s.clock], workers := s.workers[w := Finishing(p)],
       log := s.log + [Started(p, force, s.clock)])
  }

  ghost function AfterFinish(s: State, w: nat): State
    requires Enabled(s, Finish(w))
  {
    var p := s.workers[w].pdid;
    s.(pending := s.pending - {p}, place := s.place - {p}, workers := s.workers[w := Idle], log := s.log + [Cleared(p)])
  }

  /** The clean-up tests the value it has loaded; attempts more than two cooldowns old go. */
  ghost function AfterJudge(s: State, p: string): State
    requires Enabled(s, Judge(p))
  {
    if s.lastAttempt[p] < s.cleaner.cutoff
    then s.(cleaner := Doomed(s.cleaner.cutoff, p), log := s.log + [Judged(p, s.clock)])
    else s
  }

  /** Later it deletes whatever is stored by then. */
  ghost function AfterForget(s: State): State
    requires Enabled(s, Forget)
  {
    var p := s.cleaner.pdid;
    s.(cleaner := Sweeping(s.cleaner.cutoff), lastAttempt := s.lastAttempt - {p}, log := s.log + [Forgotten(p)])
  }

  ghost function Next(s: State, step: Step): State
    requires Enabled(s, step)
  {
    match step
    case Admit(c, p, force, known) => AfterAdmit(s, c, p, force, known)
    case Enter(c) => AfterEnter(s, c)
    case Offer(c, preferDone) => AfterOffer(s, c, preferDone)
    case GiveBack(c) => AfterGiveBack(s, c)
    case Take(w) => AfterTake(s, w)
    case Look(w) => AfterLook(s, w)
    case Check(w, known) => AfterCheck(s, w, known)
    case Start(w) => AfterStart(s, w)
    case Finish(w) => AfterFinish(s, w)
    case Leave(w) => s.(workers := s.workers[w := Returned])
    case BeginSweep => s.(cleaner := Sweeping(s.clock - 2 * COOLDOWN))
    case Judge(p) => AfterJudge(s, p)
    case Forget => AfterForget(s)
    case EndSweep => s.(cleaner := Resting)
    case Tick(n) => s.(clock := s.clock + n)
    case Cancel => s.(cancelled := true)
  }

  function Initially(queueSize: nat, workers: nat, now: int): State {
    State(queueSize, map[], [], map[], seq(workers, i => Idle), map[], Resting, now, false, map[], [])
  }

  // ----- the program

  /** Each method is what happens under one hold of a lock, in one channel operation, or in one
      operation on the concurrent map of attempts. */
  class Orchestrator {
    const queueSize: nat
    var pending: map<string, bool>
    var queue: seq<string>
    var callers: map<nat, Caller>
    var workers: seq<Worker>
    var lastAttempt: map<string, int>
    var cleaner: Cleaner
    var clock: int
    var cancelled: bool

    ghost var place: map<string, Place>
    ghost var log: seq<Event>

    ghost function Now(): State
      reads this
    {
      State(queueSize, pending, queue, callers, workers, lastAttempt, cleaner, clock, cancelled, place, log)
    }

    /** The options fall back to defaults and are capped. */
    constructor (workerCount: int, queueLimit: int, now: int)
      ensures Now() == Initially(queueSize, |workers|, now)
      ensures |workers| == if workerCount <= 0 then 2 else if workerCount > 8 then 8 else workerCount
      ensures queueSize == if queueLimit <= 0 then 128 else if queueLimit > 4096 then 4096 else queueLimit
    {
      var n := if workerCount <= 0 then DEFAULT_WORKERS else if workerCount > 8 then 8 else workerCount;
      queueSize := if queueLimit <= 0 then DEFAULT_QUEUE_SIZE else if queueLimit > 4096 then 4096 else queueLimit;
      pending, queue, callers, lastAttempt, clock, cancelled := map[], [], map[], map[], now, false;
      workers, cleaner := seq(n, i => Idle), Resting;
      place, log := map[], [];
    }

    /** `TriggerEnrichment` up to the lock. */
    method AdmitRequest(caller: nat, pdid: string, force: bool, known: bool)
      requires Enabled(Now(), Admit(caller, pdid, force, known))
      modifies this`callers
      ensures Now() == Next(old(Now()), Admit(caller, pdid, force, known))
      ensures if pdid != "" && known && (force || pdid !in lastAttempt || clock - lastAttempt[pdid] >= 3600)
              then caller in callers && callers[caller] == Admitted(pdid, force) else caller !in callers
    {
      if pdid == "" || !known {
        return;
      }
      if !force {
        if CoolingDown(lastAttempt, clock, pdid) {
          return;
        }
      }
      callers := callers[caller := Admitted(pdid, force)];
    }

    /** The locked part: coalesce or reserve. */
    method EnterPending(caller: nat)
      requires Enabled(Now(), Enter(caller))
      modifies this`pending, this`callers, this`place, this`log
      ensures Now() == Next(old(Now()), Enter(caller))
    {
      var Admitted(pdid, force) := callers[caller];
      log := log + [Requested(pdid, force)];
      if pdid in pending {
        pending := pending[pdid := pending[pdid] || force];
        callers := callers - {caller};
        return;
      }
      pending := pending[pdid := force];
      callers := callers[caller := Reserved(pdid)];
      place := place[pdid := WithCaller(caller)];
    }

    /** The select on the queue; `preferDone` is its free choice once the context is done. */
    method OfferToQueue(caller: nat, preferDone: bool)
      requires Enabled(Now(), Offer(caller, preferDone))
      modifies this`queue, this`callers, this`place
      ensures Now() == Next(old(Now()), Offer(caller, preferDone))
    {
      var pdid := callers[caller].pdid;
      if |queue| >= queueSize || (cancelled && preferDone) {
        callers := callers[caller := Dropping(pdid)];
      } else {
        queue := queue + [pdid];
        callers := callers - {caller};
        place := place[pdid := InQueue];
      }
    }

    method ClearDropped(caller: nat)
      requires Enabled(Now(), GiveBack(caller))
      modifies this`pending, this`callers, this`place, this`log
      ensures Now() == Next(old(Now()), GiveBack(caller))
    {
      var pdid := callers[caller].pdid;
      pending := pending - {pdid};
      callers := callers - {caller};
      place, log := place - {pdid}, log + [Cleared(pdid)];
    }

    method TakeRequest(worker: nat)
      requires Enabled(Now(), Take(worker))
      modifies this`queue, this`workers, this`place
      ensures Now() == Next(old(Now()), Take(worker))
    {
      var pdid := queue[0];
      queue := queue[1..];
      workers := workers[worker := Got(pdid)];
      place := place[pdid := WithWorker(worker)];
    }

    method ReadForce(worker: nat)
      requires Enabled(Now(), Look(worker))
      modifies this`workers, this`log
      ensures Now() == Next(old(Now()), Look(worker))
    {
      var pdid := workers[worker].pdid;
      if pdid in pending {
        var force := pending[pdid];
        log := log + [ReadBy(pdid, force)];
        workers := workers[worker := Looked(pdid, force)];
      } else {
        workers := workers[worker := Finishing(pdid)];
      }
    }

    /** The guards of `execute`. */
    method CheckCooldown(worker: nat, known: bool)
      requires Enabled(Now(), Check(worker, known))
      modifies this`workers
      ensures Now() == Next(old(Now()), Check(worker, known))
      ensures var Looked(pdid, force) := old(workers)[worker];
        if known && (force || pdid !in lastAttempt || clock - lastAttempt[pdid] >= 3600)
        then workers[worker] == Checked(pdid, force) else workers[worker] == Finishing(pdid)
    {
      var Looked(pdid, force) := workers[worker];
      if !known {
        workers := workers[worker := Finishing(pdid)];
        return;
      }
      if !force {
        if CoolingDown(lastAttempt, clock, pdid) {
          workers := workers[worker := Finishing(pdid)];
          return;
        }
      }
      workers := workers[worker := Checked(pdid, force)];
    }

    /** The attempt is noted, and the enrichers run. */
    method StartEnrichment(worker: nat)
      requires Enabled(Now(), Start(worker))
      modifies this`workers, this`lastAttempt, this`log
      ensures Now() == Next(old(Now()), Start(worker))
    {
      var Checked(pdid, force) := workers[worker];
      lastAttempt := lastAttempt[pdid := clock];
      log := log + [Started(pdid, force, clock)];
      workers := workers[worker := Finishing(pdid)];
    }

    method ClearFinished(worker: nat)
      requires Enabled(Now(), Finish(worker))
      modifies this`pending, this`workers, this`place, this`log
      ensures Now() == Next(old(Now()), Finish(worker))
    {
      var pdid := workers[worker].pdid;
      pending := pending - {pdid};
      workers := workers[worker := Idle];
      place, log := place - {pdid}, log + [Cleared(pdid)];
    }

    method ReturnFromWorker(worker: nat)
      requires Enabled(Now(), Leave(worker))
      modifies this`workers
      ensures Now() == Next(old(Now()), Leave(worker))
    {
      workers := workers[worker := Returned];
    }

    /** A tick of the clean-up loop fixes the cutoff of a round. */
    method StartRound()
      requires Enabled(Now(), BeginSweep)
      modifies this`cleaner
      ensures Now() == Next(old(Now()), BeginSweep)
    {
      cleaner := Sweeping(clock - 2 * COOLDOWN);
    }

    /** The test of the callback for one key, of the keys in any order. */
    method TestAttempt(pdid: string)
      requires Enabled(Now(), Judge(pdid))
      modifies this`cleaner, this`log
      ensures Now() == Next(old(Now()), Judge(pdid))
    {
      var value := lastAttempt[pdid];
      if value < cleaner.cutoff {
        cleaner := Doomed(cleaner.cutoff, pdid);
        log := log + [Judged(pdid, clock)];
      }
    }

    /** The deletion of the callback, which does not test again. */
    method DeleteAttempt()
      requires Enabled(Now(), Forget)
      modifies this`cleaner, this`lastAttempt, this`log
      ensures Now() == Next(old(Now()), Forget)
    {
      var pdid := cleaner.pdid;
      lastAttempt := lastAttempt - {pdid};
      log := log + [Forgotten(pdid)];
      cleaner := Sweeping(cleaner.cutoff);
    }

    method FinishRound()
      requires Enabled(Now(), EndSweep)
      modifies this`cleaner
      ensures Now() == Next(old(Now()), EndSweep)
    {
      cleaner := Resting;
    }

    method Stop()
      modifies this`cancelled
      ensures Now() == Next(old(Now()), Cancel)
    {
      cancelled := true;
    }

    method PassTime(seconds: nat)
      modifies this`clock
      ensures Now() == Next(old(Now()), Tick(seconds))
    {
      clock := clock + seconds;
    }
  }
}
