/** What holds in every state that any interleaving of the orchestrator's steps reaches: where the
    pending PDIDs are, and what the trace says about their flags and attempts. */
module OrchestratorRuns {
  import opened Options
  import opened O = Orchestrator

  // ----- traces

  /** Since the PDID was last cleared: was force asked for, and what did the worker read. */
  ghost predicate ForceWanted(log: seq<Event>, pdid: string) {
    log != [] &&
    var init, last := log[..|log| - 1], log[|log| - 1];
    if last == Cleared(pdid) then false
    else last == Requested(pdid, true) || ForceWanted(init, pdid)
  }

  ghost function WasRead(log: seq<Event>, pdid: string): Option<bool> {
    if log == [] then None
    else
      var init, last := log[..|log| - 1], log[|log| - 1];
      if last == Cleared(pdid) then None
      else if last.ReadBy? && last.pdid == pdid then Some(last.force)
      else WasRead(init, pdid)
  }

  /** The last start of the PDID that has not been forgotten. */
  ghost function LastAttempt(log: seq<Event>, pdid: string): Option<int> {
    if log == [] then None
    else
      var init, last := log[..|log| - 1], log[|log| - 1];
      if last.Started? && last.pdid == pdid then Some(last.at)
      else if last == Forgotten(pdid) then None
      else LastAttempt(init, pdid)
  }

  /** The PDID that the clean-up has judged and not yet forgotten. */
  ghost function DoomedIn(log: seq<Event>): Option<string> {
    if log == [] then None
    else
      var init, last := log[..|log| - 1], log[|log| - 1];
      if last.Judged? then Some(last.pdid) else if last.Forgotten? then None else DoomedIn(init)
  }

  ghost predicate TimedBy(log: seq<Event>, latest: int) {
    forall e | e in log && (e.Started? || e.Judged?) :: e.at <= latest
  }

  /** No start that is still remembered lies within the cooldown. */
  ghost predicate CooledDown(log: seq<Event>, pdid: string, now: int) {
    LastAttempt(log, pdid).None? || now - LastAttempt(log, pdid).value >= COOLDOWN
  }

  ghost predicate EventOk(log: seq<Event>, e: Event) {
    match e
    case Requested(_, _) => true
    case ReadBy(pdid, force) => WasRead(log, pdid) == None && (force <==> ForceWanted(log, pdid))
    case Started(pdid, force, at) =>
      WasRead(log, pdid) == Some(force) && TimedBy(log, at) && (force || CooledDown(log, pdid, at))
    case Cleared(pdid) => true
    case Judged(pdid, at) =>
      TimedBy(log, at) && LastAttempt(log, pdid).Some? && LastAttempt(log, pdid).value < at - 2 * COOLDOWN
    case Forgotten(pdid) => DoomedIn(log) == Some(pdid)
  }

  ghost predicate GoodLog(log: seq<Event>) {
    log == [] || (GoodLog(log[..|log| - 1]) && EventOk(log[..|log| - 1], log[|log| - 1]))
  }

  // ----- the invariant

  /** Callers, the queue and workers each hold exactly the PDIDs placed with them. */
  ghost predicate CallersPlaced(callers: map<nat, Caller>, place: map<string, Place>) {
    && (forall c | c in callers && CallerHolds(callers[c]).Some? ::
          callers[c].pdid in place && place[callers[c].pdid] == WithCaller(c))
    && forall p | p in place && place[p].WithCaller? ::
         place[p].caller in callers && CallerHolds(callers[place[p].caller]) == Some(p)
  }

  ghost predicate QueuePlaced(queue: seq<string>, place: map<string, Place>) {
    && (forall i, j | 0 <= i < j < |queue| :: queue[i] != queue[j])
    && forall p :: p in queue <==> p in place && place[p] == InQueue
  }

  ghost predicate WorkersPlaced(workers: seq<Worker>, place: map<string, Place>) {
    && (forall w: nat | w < |workers| && WorkerHolds(workers[w]).Some? ::
          workers[w].pdid in place && place[workers[w].pdid] == WithWorker(w))
    && forall p | p in place && place[p].WithWorker? ::
         place[p].worker < |workers| && WorkerHolds(workers[place[p].worker]) == Some(p)
  }

  /** Each pending PDID is in exactly one place, and every place is accounted for. */
  ghost predicate Placed(s: State) {
    && s.place.Keys == s.pending.Keys && |s.queue| <= s.queueSize
    && CallersPlaced(s.callers, s.place) && QueuePlaced(s.queue, s.place) && WorkersPlaced(s.workers, s.place)
  }

  /** The pending flags are what the trace asks for. */
  ghost predicate FlagsTraced(log: seq<Event>, pending: map<string, bool>) {
    forall p :: ForceWanted(log, p) <==> p in pending && pending[p]
  }

  /** The workers' notes are what they read, and only they have read anything. */
  ghost predicate ReadsTraced(log: seq<Event>, workers: seq<Worker>, place: map<string, Place>) {
    && (forall w: nat | w < |workers| && (workers[w].Looked? || workers[w].Checked?) ::
          WasRead(log, workers[w].pdid) == Some(workers[w].force))
    && forall p | WasRead(log, p).Some? ::
         p in place && place[p].WithWorker? && place[p].worker < |workers| && !workers[place[p].worker].Got?
  }

  /** The recorded attempts are the latest starts that were not forgotten. */
  ghost predicate AttemptsTraced(log: seq<Event>, lastAttempt: map<string, int>) {
    forall p :: (if p in lastAttempt then Some(lastAttempt[p]) else None) == LastAttempt(log, p)
  }

  /** A worker that passed the cooldown check still passes it. */
  ghost predicate ChecksHold(log: seq<Event>, workers: seq<Worker>, clock: int) {
    forall w: nat | w < |workers| && workers[w].Checked? && !workers[w].force :: CooledDown(log, workers[w].pdid, clock)
  }

  /** The clean-up is about to delete what it judged last. */
  ghost predicate CleanerTraced(log: seq<Event>, cleaner: Cleaner, clock: int) {
    && DoomedIn(log) == (if cleaner.Doomed? then Some(cleaner.pdid) else None)
    && (!cleaner.Resting? ==> cleaner.cutoff <= clock - 2 * COOLDOWN)
  }

  ghost predicate Traced(s: State) {
    GoodLog(s.log) && FlagsTraced(s.log, s.pending) && ReadsTraced(s.log, s.workers, s.place)
  }

  ghost predicate Timed(s: State) {
    && TimedBy(s.log, s.clock) && AttemptsTraced(s.log, s.lastAttempt)
    && ChecksHold(s.log, s.workers, s.clock) && CleanerTraced(s.log, s.cleaner, s.clock)
  }

  ghost predicate Valid(s: State) {
    Placed(s) && Traced(s) && Timed(s)
  }

  // ----- how single events and moves change the parts

  lemma Extend(log: seq<Event>, e: Event)
    ensures GoodLog(log + [e]) <==> GoodLog(log) && EventOk(log, e)
    ensures forall p :: ForceWanted(log + [e], p) <==>
              e != Cleared(p) && (e == Requested(p, true) || ForceWanted(log, p))
    ensures forall p :: WasRead(log + [e], p) ==
              if e == Cleared(p) then None else if e.ReadBy? && e.pdid == p then Some(e.force) else WasRead(log, p)
    ensures forall p :: LastAttempt(log + [e], p) ==
              if e.Started? && e.pdid == p then Some(e.at) else if e == Forgotten(p) then None else LastAttempt(log, p)
    ensures DoomedIn(log + [e]) == if e.Judged? then Some(e.pdid) else if e.Forgotten? then None else DoomedIn(log)
    ensures forall t :: TimedBy(log + [e], t) <==> TimedBy(log, t) && (e.Started? || e.Judged? ==> e.at <= t)
  {
    assert (log + [e])[..|log|] == log;
    assert forall x :: x in log + [e] <==> x in log || x == e;
  }

  /** The events of requests leave the attempts alone. */
  lemma OtherEventTimed(s: State, e: Event)
    requires Timed(s) && (e.Requested? || e.ReadBy? || e.Cleared?)
    ensures TimedBy(s.log + [e], s.clock) && AttemptsTraced(s.log + [e], s.lastAttempt)
    ensures ChecksHold(s.log + [e], s.workers, s.clock) && CleanerTraced(s.log + [e], s.cleaner, s.clock)
  {
    Extend(s.log, e);
  }

  /** The events of the clean-up leave the requests alone. */
  lemma CleanerEventTraced(s: State, e: Event)
    requires Traced(s) && (e.Judged? || e.Forgotten?) && EventOk(s.log, e)
    ensures GoodLog(s.log + [e]) && FlagsTraced(s.log + [e], s.pending) && ReadsTraced(s.log + [e], s.workers, s.place)
  {
    Extend(s.log, e);
  }

  lemma FlagsFollow(log: seq<Event>, pending: map<string, bool>, p: string, force: bool)
    requires FlagsTraced(log, pending)
    ensures FlagsTraced(log + [Requested(p, force)], pending[p := force || (p in pending && pending[p])])
    ensures FlagsTraced(log + [Cleared(p)], pending - {p})
  {
    Extend(log, Requested(p, force));
    Extend(log, Cleared(p));
  }

  /** Nobody but the worker that holds a PDID has read it. */
  lemma ReadsElsewhere(log: seq<Event>, e: Event, workers: seq<Worker>, place: map<string, Place>, q: Option<Place>)
    requires ReadsTraced(log, workers, place) && WorkersPlaced(workers, place)
    requires e.Requested? || e.Cleared?
    requires !(e.pdid in place && place[e.pdid].WithWorker?)
    ensures ReadsTraced(log + [e], workers, place) && ReadsTraced(log + [e], workers, Put(place, e.pdid, q))
  {
    Extend(log, e);
    forall w: nat | w < |workers| && (workers[w].Looked? || workers[w].Checked?) ensures workers[w].pdid != e.pdid {
      assert WorkerHolds(workers[w]) == Some(workers[w].pdid);
    }
  }

  // ----- how single moves change the places

  ghost function Put(place: map<string, Place>, p: string, q: Option<Place>): map<string, Place> {
    if q.Some? then place[p := q.value] else place - {p}
  }

  lemma CallersElsewhere(callers: map<nat, Caller>, place: map<string, Place>, p: string, q: Option<Place>)
    requires CallersPlaced(callers, place)
    requires !(p in place && place[p].WithCaller?) && !(q.Some? && q.value.WithCaller?)
    ensures CallersPlaced(callers, Put(place, p, q))
  {
  }

  lemma QueueElsewhere(queue: seq<string>, place: map<string, Place>, p: string, q: Option<Place>)
    requires QueuePlaced(queue, place)
    requires !(p in place && place[p].InQueue?) && !(q.Some? && q.value.InQueue?)
    ensures QueuePlaced(queue, Put(place, p, q))
  {
  }

  lemma WorkersElsewhere(workers: seq<Worker>, place: map<string, Place>, p: string, q: Option<Place>)
    requires WorkersPlaced(workers, place)
    requires !(p in place && place[p].WithWorker?) && !(q.Some? && q.value.WithWorker?)
    ensures WorkersPlaced(workers, Put(place, p, q))
  {
  }

  lemma CallerTakes(callers: map<nat, Caller>, place: map<string, Place>, c: nat, p: string)
    requires CallersPlaced(callers, place) && c in callers && callers[c].Admitted? && p !in place
    ensures CallersPlaced(callers[c := Reserved(p)], place[p := WithCaller(c)])
  {
  }

  lemma CallerReleases(callers: map<nat, Caller>, place: map<string, Place>, c: nat, p: string, q: Option<Place>)
    requires CallersPlaced(callers, place) && c in callers && CallerHolds(callers[c]) == Some(p)
    requires !(q.Some? && q.value.WithCaller?)
    ensures CallersPlaced(callers - {c}, Put(place, p, q))
  {
  }

  lemma QueueTakes(queue: seq<string>, place: map<string, Place>, p: string)
    requires QueuePlaced(queue, place) && !(p in place && place[p].InQueue?)
    ensures QueuePlaced(queue + [p], place[p := InQueue])
  {
  }

  lemma QueueReleases(queue: seq<string>, place: map<string, Place>, q: Place)
    requires QueuePlaced(queue, place) && queue != [] && !q.InQueue?
    ensures QueuePlaced(queue[1..], place[queue[0] := q])
  {
    assert queue == [queue[0]] + queue[1..];
  }

  lemma WorkerTakes(workers: seq<Worker>, place: map<string, Place>, w: nat, p: string)
    requires WorkersPlaced(workers, place) && w < |workers| && workers[w].Idle? && !(p in place && place[p].WithWorker?)
    ensures WorkersPlaced(workers[w := Got(p)], place[p := WithWorker(w)])
  {
  }

  lemma WorkerReleases(workers: seq<Worker>, place: map<string, Place>, w: nat, p: string)
    requires WorkersPlaced(workers, place) && w < |workers| && WorkerHolds(workers[w]) == Some(p)
    ensures WorkersPlaced(workers[w := Idle], place - {p})
  {
  }

  lemma WorkerProceeds(workers: seq<Worker>, place: map<string, Place>, w: nat, next: Worker)
    requires WorkersPlaced(workers, place) && w < |workers| && WorkerHolds(next) == WorkerHolds(workers[w])
    ensures WorkersPlaced(workers[w := next], place)
  {
  }

  // ----- every step keeps the invariant

  lemma ReservePlaced(s: State, c: nat)
    requires Placed(s) && Enabled(s, Enter(c)) && s.callers[c].pdid !in s.pending
    ensures Placed(AfterEnter(s, c))
  {
    var p := s.callers[c].pdid;
    CallerTakes(s.callers, s.place, c, p);
    QueueElsewhere(s.queue, s.place, p, Some(WithCaller(c)));
    WorkersElsewhere(s.workers, s.place, p, Some(WithCaller(c)));
  }

  lemma CoalescePlaced(s: State, c: nat)
    requires Placed(s) && Enabled(s, Enter(c)) && s.callers[c].pdid in s.pending
    ensures Placed(AfterEnter(s, c))
  {
  }

  lemma EnterTraced(s: State, c: nat)
    requires Placed(s) && Traced(s) && Enabled(s, Enter(c))
    ensures Traced(AfterEnter(s, c))
  {
    var Admitted(p, force) := s.callers[c];
    FlagsFollow(s.log, s.pending, p, force);
    RequestUnread(s.log, Requested(p, force), s.workers, s.place);
    if p !in s.pending {
      ReadsElsewhere(s.log, Requested(p, force), s.workers, s.place, Some(WithCaller(c)));
    }
  }

  lemma RequestUnread(log: seq<Event>, e: Event, workers: seq<Worker>, place: map<string, Place>)
    requires GoodLog(log) && ReadsTraced(log, workers, place) && e.Requested?
    ensures GoodLog(log + [e]) && ReadsTraced(log + [e], workers, place)
  {
    Extend(log, e);
  }

  lemma EnterTimed(s: State, c: nat)
    requires Timed(s) && Enabled(s, Enter(c))
    ensures Timed(AfterEnter(s, c))
  {
    OtherEventTimed(s, Requested(s.callers[c].pdid, s.callers[c].force));
  }

  lemma OfferPlaced(s: State, c: nat, preferDone: bool)
    requires Placed(s) && Enabled(s, Offer(c, preferDone))
    ensures Placed(AfterOffer(s, c, preferDone))
  {
    var p := s.callers[c].pdid;
    assert CallerHolds(s.callers[c]) == Some(p);
    CallerReleases(s.callers, s.place, c, p, Some(InQueue));
    QueueTakes(s.queue, s.place, p);
    WorkersElsewhere(s.workers, s.place, p, Some(InQueue));
  }

  lemma OfferTraced(s: State, c: nat, preferDone: bool)
    requires Placed(s) && Traced(s) && Enabled(s, Offer(c, preferDone))
    ensures Traced(AfterOffer(s, c, preferDone))
  {
    assert CallerHolds(s.callers[c]) == Some(s.callers[c].pdid);
  }

  lemma GiveBackPlaced(s: State, c: nat)
    requires Placed(s) && Enabled(s, GiveBack(c))
    ensures Placed(AfterGiveBack(s, c))
  {
    var p := s.callers[c].pdid;
    assert CallerHolds(s.callers[c]) == Some(p);
    CallerReleases(s.callers, s.place, c, p, None);
    QueueElsewhere(s.queue, s.place, p, None);
    WorkersElsewhere(s.workers, s.place, p, None);
  }

  lemma GiveBackTraced(s: State, c: nat)
    requires Placed(s) && Traced(s) && Enabled(s, GiveBack(c))
    ensures Traced(AfterGiveBack(s, c))
  {
    var p := s.callers[c].pdid;
    assert CallerHolds(s.callers[c]) == Some(p);
    Extend(s.log, Cleared(p));
    FlagsFollow(s.log, s.pending, p, false);
    ReadsElsewhere(s.log, Cleared(p), s.workers, s.place, None);
  }

  lemma GiveBackTimed(s: State, c: nat)
    requires Timed(s) && Enabled(s, GiveBack(c))
    ensures Timed(AfterGiveBack(s, c))
  {
    OtherEventTimed(s, Cleared(s.callers[c].pdid));
  }

  lemma TakePlaced(s: State, w: nat)
    requires Placed(s) && Enabled(s, Take(w))
    ensures Placed(AfterTake(s, w))
  {
    var p := s.queue[0];
    assert p in s.queue;
    CallersElsewhere(s.callers, s.place, p, Some(WithWorker(w)));
    QueueReleases(s.queue, s.place, WithWorker(w));
    WorkerTakes(s.workers, s.place, w, p);
  }

  lemma TakeTraced(s: State, w: nat)
    requires Placed(s) && Traced(s) && Enabled(s, Take(w))
    ensures Traced(AfterTake(s, w))
  {
    assert s.queue[0] in s.queue;
  }

  lemma LookKeepsValid(s: State, w: nat)
    requires Valid(s) && Enabled(s, Look(w))
    ensures Placed(AfterLook(s, w)) && Timed(AfterLook(s, w))
  {
    var p := s.workers[w].pdid;
    assert WorkerHolds(s.workers[w]) == Some(p);
    WorkerProceeds(s.workers, s.place, w, Looked(p, s.pending[p]));
    OtherEventTimed(s, ReadBy(p, s.pending[p]));
  }

  /** The worker always finds its request, and is the first to read it. */
  lemma LookTraced(s: State, w: nat)
    requires Placed(s) && Traced(s) && Enabled(s, Look(w))
    ensures Traced(AfterLook(s, w))
  {
    var p := s.workers[w].pdid;
    assert WorkerHolds(s.workers[w]) == Some(p);
    assert p in s.pending && s.place[p] == WithWorker(w);
    ReadIsFirst(s.log, s.pending, s.workers, s.place, w, p);
  }

  lemma ReadIsFirst(
      log: seq<Event>, pending: map<string, bool>, workers: seq<Worker>, place: map<string, Place>, w: nat, p: string)
    requires GoodLog(log) && FlagsTraced(log, pending) && ReadsTraced(log, workers, place)
    requires w < |workers| && workers[w] == Got(p) && p in pending && p in place && place[p] == WithWorker(w)
    ensures var more := log + [ReadBy(p, pending[p])];
      GoodLog(more) && FlagsTraced(more, pending) && ReadsTraced(more, workers[w := Looked(p, pending[p])], place)
  {
    Extend(log, ReadBy(p, pending[p]));
  }

  lemma CheckPlaced(s: State, w: nat, known: bool)
    requires Placed(s) && Enabled(s, Check(w, known))
    ensures Placed(AfterCheck(s, w, known))
  {
    WorkerProceeds(s.workers, s.place, w, AfterCheck(s, w, known).workers[w]);
  }

  lemma CheckTracedAndTimed(s: State, w: nat, known: bool)
    requires Placed(s) && Traced(s) && Timed(s) && Enabled(s, Check(w, known))
    ensures Traced(AfterCheck(s, w, known)) && Timed(AfterCheck(s, w, known))
  {
  }

  lemma StartPlaced(s: State, w: nat)
    requires Placed(s) && Enabled(s, Start(w))
    ensures Placed(AfterStart(s, w))
  {
    WorkerProceeds(s.workers, s.place, w, Finishing(s.workers[w].pdid));
  }

  lemma StartTraced(s: State, w: nat)
    requires Valid(s) && Enabled(s, Start(w))
    ensures Traced(AfterStart(s, w))
  {
    Extend(s.log, Started(s.workers[w].pdid, s.workers[w].force, s.clock));
  }

  /** No other worker has passed the check for the PDID that starts now. */
  lemma StartTimed(s: State, w: nat)
    requires Placed(s) && Timed(s) && Enabled(s, Start(w))
    ensures Timed(AfterStart(s, w))
  {
    var p := s.workers[w].pdid;
    Extend(s.log, Started(p, s.workers[w].force, s.clock));
    forall v: nat | v < |s.workers| && v != w && s.workers[v].Checked? ensures s.workers[v].pdid != p {
      assert WorkerHolds(s.workers[v]) == Some(s.workers[v].pdid);
    }
  }

  lemma FinishPlaced(s: State, w: nat)
    requires Placed(s) && Enabled(s, Finish(w))
    ensures Placed(AfterFinish(s, w))
  {
    var p := s.workers[w].pdid;
    assert WorkerHolds(s.workers[w]) == Some(p);
    CallersElsewhere(s.callers, s.place, p, None);
    QueueElsewhere(s.queue, s.place, p, None);
    WorkerReleases(s.workers, s.place, w, p);
  }

  lemma FinishTraced(s: State, w: nat)
    requires Placed(s) && Traced(s) && Enabled(s, Finish(w))
    ensures Traced(AfterFinish(s, w))
  {
    var p := s.workers[w].pdid;
    ClearingIsGood(s.log, p);
    FlagsFollow(s.log, s.pending, p, false);
    ReadsAfterFinish(s.log, s.workers, s.place, w);
  }

  lemma ClearingIsGood(log: seq<Event>, p: string)
    requires GoodLog(log)
    ensures GoodLog(log + [Cleared(p)])
  {
    assert (log + [Cleared(p)])[..|log|] == log;
  }

  lemma ReadsAfterFinish(log: seq<Event>, workers: seq<Worker>, place: map<string, Place>, w: nat)
    requires ReadsTraced(log, workers, place) && WorkersPlaced(workers, place)
    requires w < |workers| && workers[w].Finishing?
    ensures ReadsTraced(log + [Cleared(workers[w].pdid)], workers[w := Idle], place - {workers[w].pdid})
  {
    var p := workers[w].pdid;
    Extend(log, Cleared(p));
    assert WorkerHolds(workers[w]) == Some(p);
    forall v: nat | v < |workers| && (workers[v].Looked? || workers[v].Checked?) ensures workers[v].pdid != p {
      assert WorkerHolds(workers[v]) == Some(workers[v].pdid);
    }
  }

  lemma FinishTimed(s: State, w: nat)
    requires Timed(s) && Enabled(s, Finish(w))
    ensures Timed(AfterFinish(s, w))
  {
    OtherEventTimed(s, Cleared(s.workers[w].pdid));
  }

  lemma AdmitKeepsValid(s: State, c: nat, pdid: string, force: bool, known: bool)
    requires Valid(s) && Enabled(s, Admit(c, pdid, force, known))
    ensures Valid(AfterAdmit(s, c, pdid, force, known))
  {
  }

  lemma LeaveKeepsValid(s: State, w: nat)
    requires Valid(s) && Enabled(s, Leave(w))
    ensures Valid(Next(s, Leave(w)))
  {
    WorkerProceeds(s.workers, s.place, w, Returned);
  }

  lemma JudgeKeepsValid(s: State, p: string)
    requires Valid(s) && Enabled(s, Judge(p))
    ensures Valid(AfterJudge(s, p))
  {
    if s.lastAttempt[p] < s.cleaner.cutoff {
      CleanerEventTraced(s, Judged(p, s.clock));
      JudgeTimed(s, p);
    }
  }

  lemma JudgeTimed(s: State, p: string)
    requires Timed(s) && Enabled(s, Judge(p)) && s.lastAttempt[p] < s.cleaner.cutoff
    ensures Timed(AfterJudge(s, p))
  {
    Extend(s.log, Judged(p, s.clock));
  }

  lemma ForgetKeepsValid(s: State)
    requires Valid(s) && Enabled(s, Forget)
    ensures Valid(AfterForget(s))
  {
    CleanerEventTraced(s, Forgotten(s.cleaner.pdid));
    ForgetTimed(s);
  }

  lemma ForgetTimed(s: State)
    requires Timed(s) && Enabled(s, Forget)
    ensures Timed(AfterForget(s))
  {
    Extend(s.log, Forgotten(s.cleaner.pdid));
  }

  lemma CleanerStepKeepsValid(s: State, step: Step)
    requires Valid(s) && Enabled(s, step)
    requires step.BeginSweep? || step.Judge? || step.Forget? || step.EndSweep?
    ensures Valid(Next(s, step))
  {
    match step
    case BeginSweep =>
    case Judge(p) => JudgeKeepsValid(s, p);
    case Forget => ForgetKeepsValid(s);
    case EndSweep =>
  }

  lemma SurroundingsKeepValid(s: State, step: Step)
    requires Valid(s) && (step.Tick? || step.Cancel?)
    ensures Valid(Next(s, step))
  {
  }

  lemma EnterKeepsValid(s: State, c: nat)
    requires Valid(s) && Enabled(s, Enter(c))
    ensures Valid(AfterEnter(s, c))
  {
    if s.callers[c].pdid in s.pending {
      CoalescePlaced(s, c);
    } else {
      ReservePlaced(s, c);
    }
    EnterTraced(s, c);
    EnterTimed(s, c);
  }

  lemma CallerStepKeepsValid(s: State, step: Step)
    requires Valid(s) && Enabled(s, step)
    requires step.Admit? || step.Enter? || step.Offer? || step.GiveBack?
    ensures Valid(Next(s, step))
  {
    match step
    case Admit(c, p, force, known) => AdmitKeepsValid(s, c, p, force, known);
    case Enter(c) => EnterKeepsValid(s, c);
    case Offer(c, preferDone) =>
      OfferPlaced(s, c, preferDone);
      OfferTraced(s, c, preferDone);
    case GiveBack(c) =>
      GiveBackPlaced(s, c);
      GiveBackTraced(s, c);
      GiveBackTimed(s, c);
  }

  lemma WorkerStepKeepsValid(s: State, step: Step)
    requires Valid(s) && Enabled(s, step)
    requires step.Take? || step.Look? || step.Check? || step.Start? || step.Finish? || step.Leave?
    ensures Valid(Next(s, step))
  {
    match step
    case Take(w) =>
      TakePlaced(s, w);
      TakeTraced(s, w);
    case Look(w) =>
      LookKeepsValid(s, w);
      LookTraced(s, w);
    case Check(w, known) =>
      CheckPlaced(s, w, known);
      CheckTracedAndTimed(s, w, known);
    case Start(w) =>
      StartPlaced(s, w);
      StartTraced(s, w);
      StartTimed(s, w);
    case Finish(w) =>
      FinishPlaced(s, w);
      FinishTraced(s, w);
      FinishTimed(s, w);
    case Leave(w) => LeaveKeepsValid(s, w);
  }

  lemma StepKeepsValid(s: State, step: Step)
    requires Valid(s) && Enabled(s, step)
    ensures Valid(Next(s, step))
  {
    if step.Admit? || step.Enter? || step.Offer? || step.GiveBack? {
      CallerStepKeepsValid(s, step);
    } else if step.BeginSweep? || step.Judge? || step.Forget? || step.EndSweep? {
      CleanerStepKeepsValid(s, step);
    } else if step.Tick? || step.Cancel? {
      SurroundingsKeepValid(s, step);
    } else {
      WorkerStepKeepsValid(s, step);
    }
  }

  // ----- whole runs

  /** `t` is reached from `s` by these steps, in whatever interleaving they stand for. */
  ghost predicate Run(s: State, steps: seq<Step>, t: State)
    decreases |steps|
  {
    if steps == [] then s == t
    else Enabled(s, steps[0]) && Run(Next(s, steps[0]), steps[1..], t)
  }

  lemma InitiallyValid(queueSize: nat, workers: nat, now: int)
    ensures Valid(Initially(queueSize, workers, now))
  {
  }

  lemma {:induction false} RunKeepsValid(s: State, steps: seq<Step>, t: State)
    requires Valid(s) && Run(s, steps, t)
    ensures Valid(t)
    decreases |steps|
  {
    if steps != [] {
      StepKeepsValid(s, steps[0]);
      RunKeepsValid(Next(s, steps[0]), steps[1..], t);
    }
  }

  lemma ReachableIsValid(queueSize: nat, workers: nat, now: int, steps: seq<Step>, s: State)
    requires Run(Initially(queueSize, workers, now), steps, s)
    ensures Valid(s)
  {
    InitiallyValid(queueSize, workers, now);
    RunKeepsValid(Initially(queueSize, workers, now), steps, s);
  }

  lemma {:induction false} RunKeepsSizes(s: State, steps: seq<Step>, t: State)
    requires Run(s, steps, t)
    ensures t.queueSize == s.queueSize && |t.workers| == |s.workers|
    decreases |steps|
  {
    if steps != [] {
      RunKeepsSizes(Next(s, steps[0]), steps[1..], t);
    }
  }

  ghost function ReservedPdids(s: State): set<string> {
    set c | c in s.callers && CallerHolds(s.callers[c]).Some? :: s.callers[c].pdid
  }

  ghost function QueuedPdids(s: State): set<string> {
    set p | p in s.queue
  }

  ghost function HeldPdids(workers: seq<Worker>): set<string> {
    set w | 0 <= w < |workers| && WorkerHolds(workers[w]).Some? :: workers[w].pdid
  }

  lemma {:induction false} HeldAtMostWorkers(workers: seq<Worker>)
    ensures |HeldPdids(workers)| <= |workers|
  {
    if workers == [] {
      assert HeldPdids(workers) == {};
    } else {
      var init, last := workers[..|workers| - 1], workers[|workers| - 1];
      HeldAtMostWorkers(init);
      var more := if WorkerHolds(last).Some? then {last.pdid} else {};
      assert HeldPdids(workers) <= HeldPdids(init) + more;
      SubsetSmaller(HeldPdids(workers), HeldPdids(init) + more);
      assert |HeldPdids(init) + more| <= |HeldPdids(init)| + |more|;
    }
  }

  lemma SubsetSmaller<T>(a: set<T>, b: set<T>)
    requires a <= b
    ensures |a| <= |b|
  {
    assert b == a + (b - a);
  }

  /** In every state that any interleaving reaches, the pending PDIDs are the disjoint union of
      those reserved by a caller, queued and held by a worker; no PDID is queued twice, reserved
      by two callers or held by two workers; and queued and held work is bounded. */
  lemma PendingIsDisjointUnion(queueSize: nat, workers: nat, now: int, steps: seq<Step>, s: State)
    requires Run(Initially(queueSize, workers, now), steps, s)
    ensures s.pending.Keys == ReservedPdids(s) + QueuedPdids(s) + HeldPdids(s.workers)
    ensures ReservedPdids(s) !! QueuedPdids(s) !! HeldPdids(s.workers)
    ensures forall i, j | 0 <= i < j < |s.queue| :: s.queue[i] != s.queue[j]
    ensures forall v, w | 0 <= v < w < |s.workers| && WorkerHolds(s.workers[v]).Some? ::
              WorkerHolds(s.workers[v]) != WorkerHolds(s.workers[w])
    ensures forall c, d | c in s.callers && d in s.callers && c != d && CallerHolds(s.callers[c]).Some? ::
              CallerHolds(s.callers[c]) != CallerHolds(s.callers[d])
    ensures |s.queue| + |HeldPdids(s.workers)| <= queueSize + workers
  {
    ReachableIsValid(queueSize, workers, now, steps, s);
    RunKeepsSizes(Initially(queueSize, workers, now), steps, s);
    HeldAtMostWorkers(s.workers);
    UnionOfPlaces(s);
    OneHolder(s);
  }

  lemma UnionOfPlaces(s: State)
    requires Placed(s)
    ensures s.pending.Keys == ReservedPdids(s) + QueuedPdids(s) + HeldPdids(s.workers)
    ensures ReservedPdids(s) !! QueuedPdids(s) !! HeldPdids(s.workers)
  {
    forall p ensures p in s.pending.Keys <==> p in ReservedPdids(s) + QueuedPdids(s) + HeldPdids(s.workers) {
      WhereIs(s, p);
    }
    forall p
      ensures !(p in ReservedPdids(s) && p in QueuedPdids(s))
      ensures !(p in HeldPdids(s.workers) && p in ReservedPdids(s) + QueuedPdids(s))
    {
      WhereIs(s, p);
    }
  }

  lemma OneHolder(s: State)
    requires Placed(s)
    ensures forall v, w | 0 <= v < w < |s.workers| && WorkerHolds(s.workers[v]).Some? ::
              WorkerHolds(s.workers[v]) != WorkerHolds(s.workers[w])
    ensures forall c, d | c in s.callers && d in s.callers && c != d && CallerHolds(s.callers[c]).Some? ::
              CallerHolds(s.callers[c]) != CallerHolds(s.callers[d])
  {
  }

  lemma WhereIs(s: State, p: string)
    requires Placed(s)
    ensures p in ReservedPdids(s) <==> p in s.place && s.place[p].WithCaller?
    ensures p in QueuedPdids(s) <==> p in s.place && s.place[p].InQueue?
    ensures p in HeldPdids(s.workers) <==> p in s.place && s.place[p].WithWorker?
  {
  }

  lemma {:induction false} GoodAt(log: seq<Event>, i: nat)
    requires GoodLog(log) && i < |log|
    ensures EventOk(log[..i], log[i])
    decreases |log|
  {
    var init := log[..|log| - 1];
    if i < |init| {
      GoodAt(init, i);
      assert init[..i] == log[..i];
    }
  }

  lemma Before(s: State, step: Step, rest: seq<Step>, t: State) returns (steps: seq<Step>)
    requires Enabled(s, step) && Run(Next(s, step), rest, t)
    ensures steps == [step] + rest && Run(s, steps, t)
  {
    steps := [step] + rest;
    assert steps[1..] == rest;
  }

  // ----- one unforced request, followed through

  /** Nothing is pending; the callers, the queue and the one worker are at rest. */
  ghost function Quiet(attempts: map<string, int>, cleaner: Cleaner, clock: int, log: seq<Event>): State {
    State(1, map[], [], map[], [Idle], attempts, cleaner, clock, false, map[], log)
  }

  ghost function Cycle(clock: int): seq<Event> {
    [Requested("a", false), ReadBy("a", false), Started("a", false, clock), Cleared("a")]
  }

  /** The worker has read an unforced request. */
  ghost function HalfWay(attempts: map<string, int>, cleaner: Cleaner, clock: int, log: seq<Event>): State {
    State(1, map["a" := false], [], map[], [Looked("a", false)], attempts, cleaner, clock, false,
          map["a" := WithWorker(0)], log)
  }

  /** An unforced request is queued. */
  ghost function Queued(attempts: map<string, int>, cleaner: Cleaner, clock: int, log: seq<Event>): State {
    State(1, map["a" := false], ["a"], map[], [Idle], attempts, cleaner, clock, false, map["a" := InQueue], log)
  }

  lemma UntilQueued(
      attempts: map<string, int>, cleaner: Cleaner, clock: int, log: seq<Event>, rest: seq<Step>, t: State)
    returns (steps: seq<Step>)
    requires !CoolingDown(attempts, clock, "a")
    requires Run(Queued(attempts, cleaner, clock, log + [Requested("a", false)]), rest, t)
    ensures Run(Quiet(attempts, cleaner, clock, log), steps, t)
  {
    var s0 := Quiet(attempts, cleaner, clock, log);
    var s1 := s0.(callers := map[0 := Admitted("a", false)]);
    assert Next(s0, Admit(0, "a", false, true)) == s1;
    var more := log + [Requested("a", false)];
    var s2 := s0.(callers := map[0 := Reserved("a")], pending := map["a" := false], place := map["a" := WithCaller(0)],
                  log := more);
    assert Next(s1, Enter(0)) == s2;
    assert Next(s2, Offer(0, false)) == Queued(attempts, cleaner, clock, more);
    steps := Before(s2, Offer(0, false), rest, t);
    steps := Before(s1, Enter(0), steps, t);
    steps := Before(s0, Admit(0, "a", false, true), steps, t);
  }

  lemma UntilRead(attempts: map<string, int>, cleaner: Cleaner, clock: int, log: seq<Event>, rest: seq<Step>, t: State)
    returns (steps: seq<Step>)
    requires Run(HalfWay(attempts, cleaner, clock, log + [ReadBy("a", false)]), rest, t)
    ensures Run(Queued(attempts, cleaner, clock, log), steps, t)
  {
    var s3 := Queued(attempts, cleaner, clock, log);
    var s4 := s3.(place := map["a" := WithWorker(0)], queue := [], workers := [Got("a")]);
    assert Next(s3, Take(0)) == s4;
    assert Next(s4, Look(0)) == HalfWay(attempts, cleaner, clock, log + [ReadBy("a", false)]);
    steps := Before(s4, Look(0), rest, t);
    steps := Before(s3, Take(0), steps, t);
  }

  lemma UntilCleared(
      attempts: map<string, int>, cleaner: Cleaner, clock: int, log: seq<Event>, rest: seq<Step>, t: State)
    returns (steps: seq<Step>)
    requires !CoolingDown(attempts, clock, "a")
    requires Run(Quiet(attempts["a" := clock], cleaner, clock, log + [Started("a", false, clock)] + [Cleared("a")]),
                 rest, t)
    ensures Run(HalfWay(attempts, cleaner, clock, log), steps, t)
  {
    var s5 := HalfWay(attempts, cleaner, clock, log);
    var s6 := s5.(workers := [Checked("a", false)]);
    assert Next(s5, Check(0, true)) == s6;
    var s7 := s5.(workers := [Finishing("a")], lastAttempt := attempts["a" := clock],
                  log := log + [Started("a", false, clock)]);
    assert Next(s6, Start(0)) == s7;
    assert Next(s7, Finish(0)) == Quiet(attempts["a" := clock], cleaner, clock, s7.log + [Cleared("a")]);
    steps := Before(s7, Finish(0), rest, t);
    steps := Before(s6, Start(0), steps, t);
    steps := Before(s5, Check(0, true), steps, t);
  }

  /** One unforced request from its admission to its end. */
  lemma WholeCycle(attempts: map<string, int>, cleaner: Cleaner, clock: int, log: seq<Event>, rest: seq<Step>, t: State)
    returns (steps: seq<Step>)
    requires !CoolingDown(attempts, clock, "a")
    requires Run(Quiet(attempts["a" := clock], cleaner, clock, log + Cycle(clock)), rest, t)
    ensures Run(Quiet(attempts, cleaner, clock, log), steps, t)
  {
    var more := log + [Requested("a", false)] + [ReadBy("a", false)];
    assert more + [Started("a", false, clock)] + [Cleared("a")] == log + Cycle(clock);
    steps := UntilCleared(attempts, cleaner, clock, more, rest, t);
    steps := UntilRead(attempts, cleaner, clock, log + [Requested("a", false)], steps, t);
    steps := UntilQueued(attempts, cleaner, clock, log, steps, t);
  }
}
