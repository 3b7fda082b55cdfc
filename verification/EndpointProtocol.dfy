/** The job protocol of a USB endpoint as usbb_device.c offers it: at most one job at a time, either a
    transfer or a wait for the endpoint's halt to be cleared, and what their callbacks report. */
module EndpointProtocol {
  datatype Mode = Running | StallPending | Halted

  // Requests are numbered in the order of their acceptance; a job is the number of its request.
  datatype Job = NoJob | Transfer(id: nat) | Waiter(id: nat)

  datatype Request = TransferRequest(hasCallback: bool) | WaitRequest

  datatype Event = TransferDone(id: nat, size: nat) | HaltCleared(id: nat)

  datatype State = State(mode: Mode, job: Job, accepted: seq<Request>, log: seq<Event>)

  const INITIAL := State(Running, NoJob, [], [])

  datatype Step =
    | RunStep(hasCallback: bool, ended: bool, size: nat)  // a transfer request, possibly over at once
    | EndStep(size: nat)                                  // the current transfer ends
    | SetHaltStep(delayed: bool)
    | ClearHaltStep
    | WaitStep
    | BankEmptyStep                                       // a pending stall takes effect

  predicate Accepts(s: State, step: Step) {
    match step
    case RunStep(_, _, _) => s.mode == Running && s.job == NoJob
    case WaitStep => s.job == NoJob
    case SetHaltStep(_) => s.mode != Running || s.job == NoJob
    case _ => true
  }

  function Finished(s: State, size: nat): State
    requires s.job.Transfer? && s.job.id < |s.accepted|
  {
    s.(job := NoJob,
       log := if s.accepted[s.job.id] == TransferRequest(true) then s.log + [TransferDone(s.job.id, size)] else s.log)
  }

  function Next(s: State, step: Step): State {
    if !Accepts(s, step) then s
    else match step
      case RunStep(hasCallback, ended, size) =>
        var t := s.(job := Transfer(|s.accepted|), accepted := s.accepted + [TransferRequest(hasCallback)]);
        if ended then Finished(t, size) else t
      case EndStep(size) =>
        if s.job.Transfer? && s.job.id < |s.accepted| then Finished(s, size) else s
      case SetHaltStep(delayed) =>
        if s.mode != Running then s else s.(mode := if delayed then StallPending else Halted)
      case ClearHaltStep =>
        if s.mode == Running then s
        else if s.job.Waiter? then s.(mode := Running, job := NoJob, log := s.log + [HaltCleared(s.job.id)])
        else s.(mode := Running, job := NoJob)
      case WaitStep =>
        var t := s.(accepted := s.accepted + [WaitRequest]);
        if s.mode == Running then t.(log := s.log + [HaltCleared(|s.accepted|)]) else t.(job := Waiter(|s.accepted|))
      case BankEmptyStep =>
        if s.mode == StallPending then s.(mode := Halted) else s
  }

  function Runs(s: State, steps: seq<Step>): State {
    if steps == [] then s else Next(Runs(s, steps[..|steps| - 1]), steps[|steps| - 1])
  }

  // A request that must be reported: every wait, and every transfer with a callback.
  predicate Notifies(r: Request) { r == WaitRequest || r == TransferRequest(true) }

  predicate Current(job: Job, id: nat) { !job.NoJob? && job.id == id }

  ghost predicate Delivered(log: seq<Event>, id: nat) {
    exists i :: 0 <= i < |log| && log[i].id == id
  }

  // A job is a waiter exactly on an endpoint that is halted or about to be.
  predicate JobFitsMode(s: State) {
    (s.job.Waiter? ==> s.mode != Running) && (s.job.Transfer? ==> s.mode == Running)
  }

  // The job and the reports are those of accepted requests of their kinds.
  ghost predicate Typed(s: State) {
    && (s.job.Transfer? ==> s.job.id < |s.accepted| && s.accepted[s.job.id].TransferRequest?)
    && (s.job.Waiter? ==> s.job.id < |s.accepted| && s.accepted[s.job.id].WaitRequest?)
    && forall i :: 0 <= i < |s.log| ==> s.log[i].id < |s.accepted| && Reports(s.log[i], s.accepted[s.log[i].id])
  }

  predicate Reports(e: Event, r: Request) {
    if e.TransferDone? then r == TransferRequest(true) else r == WaitRequest
  }

  // Reports come in the order of acceptance, none twice, and none for the job still going on.
  ghost predicate Ordered(s: State) {
    (forall i, j :: 0 <= i < j < |s.log| ==> s.log[i].id < s.log[j].id) &&
    (!s.job.NoJob? ==> forall i :: 0 <= i < |s.log| ==> s.log[i].id < s.job.id)
  }

  // Only the latest request can be the current job; all other requests that ask for a report have theirs.
  ghost predicate Complete(s: State) {
    && (!s.job.NoJob? ==> s.job.id + 1 == |s.accepted|)
    && forall id: nat {:trigger Delivered(s.log, id)} ::
      id < |s.accepted| && Notifies(s.accepted[id]) && !Current(s.job, id) ==> Delivered(s.log, id)
  }

  ghost predicate Good(s: State) {
    JobFitsMode(s) && Typed(s) && Ordered(s) && Complete(s)
  }

  // ------------------------------------------------------------------ every step keeps the protocol

  lemma FitsNext(s: State, step: Step)
    requires Good(s)
    ensures JobFitsMode(Next(s, step)) && Typed(Next(s, step))
  {
  }

  lemma OrderedNext(s: State, step: Step)
    requires Good(s)
    ensures Ordered(Next(s, step))
  {
  }

  lemma CompleteNext(s: State, step: Step)
    requires Good(s)
    ensures Complete(Next(s, step))
  {
    var t := Next(s, step);
    LogGrows(s, step);
    forall id: nat | id < |t.accepted| && Notifies(t.accepted[id]) && !Current(t.job, id)
      ensures Delivered(t.log, id)
    {
      if id < |s.accepted| && !Current(s.job, id) {
        assert Delivered(s.log, id);
        var i :| 0 <= i < |s.log| && s.log[i].id == id;
        assert t.log[i].id == id;
      } else {
        assert t.log[|t.log| - 1].id == id;
      }
    }
  }

  // Reports are never withdrawn, and a step adds at most one.
  lemma LogGrows(s: State, step: Step)
    ensures s.log <= Next(s, step).log && |Next(s, step).log| <= |s.log| + 1
    ensures s.accepted <= Next(s, step).accepted
  {
  }

  lemma {:induction false} GoodRuns(steps: seq<Step>)
    ensures Good(Runs(INITIAL, steps))
  {
    if steps != [] {
      var before, step := steps[..|steps| - 1], steps[|steps| - 1];
      GoodRuns(before);
      hide Next, Good;
      var s := Runs(INITIAL, before);
      GoodNext(s, step);
    }
  }

  lemma GoodNext(s: State, step: Step)
    requires Good(s)
    ensures Good(Next(s, step))
  {
    hide Next, JobFitsMode, Typed, Ordered, Complete;
    FitsNext(s, step);
    OrderedNext(s, step);
    CompleteNext(s, step);
  }

  // ------------------------------------------------------------------ interrupted requests
  //
  // Requests test first and store later. Only the test for a running job in a transfer request shares a
  // critical section with its store; every other test may be out of date when the store happens, because an
  // interrupt took a step in between. These are the stores.

  datatype Store = RunStore(hasCallback: bool) | WaitStore | HaltStore(delayed: bool)

  function Stored(s: State, store: Store): State {
    match store
    case RunStore(hasCallback) =>
      s.(job := Transfer(|s.accepted|), accepted := s.accepted + [TransferRequest(hasCallback)])
    case WaitStore =>
      s.(job := Waiter(|s.accepted|), accepted := s.accepted + [WaitRequest])
    case HaltStore(delayed) =>
      s.(mode := if delayed && s.mode != Halted then StallPending else Halted)
  }

  // What the request had tested still holds.
  predicate Fresh(s: State, store: Store) {
    match store
    case RunStore(_) => s.mode == Running && s.job == NoJob
    case WaitStore => s.mode != Running && s.job == NoJob
    case HaltStore(_) => !s.job.Transfer?
  }

  /** A transfer request keeps the protocol exactly when no halt has been set since its test. */
  lemma RunStoreKeepsIff(s: State, hasCallback: bool)
    requires Good(s) && s.job == NoJob
    ensures Good(Stored(s, RunStore(hasCallback))) <==> s.mode == Running
    ensures s.mode == Running ==> Stored(s, RunStore(hasCallback)) == Next(s, RunStep(hasCallback, false, 0))
  {
    if s.mode == Running {
      GoodNext(s, RunStep(hasCallback, false, 0));
    }
  }

  /** A wait keeps the protocol exactly when the halt it had seen is still there and no job has come up. */
  lemma WaitStoreKeepsIff(s: State)
    requires Good(s)
    ensures Good(Stored(s, WaitStore)) <==> s.mode != Running && s.job == NoJob
    ensures s.mode != Running && s.job == NoJob ==> Stored(s, WaitStore) == Next(s, WaitStep)
  {
    if s.mode != Running && s.job == NoJob {
      GoodNext(s, WaitStep);
    } else if s.job.Waiter? {
      var t, id := Stored(s, WaitStore), s.job.id;
      assert Notifies(t.accepted[id]) && !Current(t.job, id) && !Delivered(t.log, id);
    }
  }

  /** A halt keeps the protocol exactly when no transfer has come up since its test. */
  lemma HaltStoreKeepsIff(s: State, delayed: bool)
    requires Good(s)
    ensures Good(Stored(s, HaltStore(delayed))) <==> !s.job.Transfer?
    ensures s.mode == Running && s.job == NoJob ==>
      Stored(s, HaltStore(delayed)) == Next(s, SetHaltStep(delayed))
  {
    forall id: nat | id < |s.accepted| && Delivered(s.log, id)
      ensures Delivered(Stored(s, HaltStore(delayed)).log, id)
    {
    }
  }

  // Runs in which some stores come late.
  datatype Move = AtOnce(step: Step) | Late(store: Store)

  function Moved(s: State, move: Move): State {
    match move
    case AtOnce(step) => Next(s, step)
    case Late(store) => Stored(s, store)
  }

  function Moves(s: State, moves: seq<Move>): State {
    if moves == [] then s else Moved(Moves(s, moves[..|moves| - 1]), moves[|moves| - 1])
  }

  // At every late store what had been tested still holds.
  ghost predicate AllFresh(moves: seq<Move>) {
    forall i :: 0 <= i < |moves| && moves[i].Late? ==> Fresh(Moves(INITIAL, moves[..i]), moves[i].store)
  }

  /** Interrupted requests do no harm in any run as long as every store comes while its test still holds. */
  lemma {:induction false} GoodMoves(moves: seq<Move>)
    requires AllFresh(moves)
    ensures Good(Moves(INITIAL, moves))
  {
    if moves != [] {
      var n := |moves| - 1;
      var before := moves[..n];
      forall i | 0 <= i < n && before[i].Late?
        ensures Fresh(Moves(INITIAL, before[..i]), before[i].store)
      {
        assert before[..i] == moves[..i] && before[i] == moves[i];
      }
      GoodMoves(before);
      hide Good, Next, Stored;
      var s := Moves(INITIAL, before);
      match moves[n] {
        case AtOnce(step) => GoodNext(s, step);
        case Late(RunStore(hasCallback)) => RunStoreKeepsIff(s, hasCallback);
        case Late(WaitStore) => WaitStoreKeepsIff(s);
        case Late(HaltStore(delayed)) => HaltStoreKeepsIff(s, delayed);
      }
    }
  }

  // Runs whose requests are never interrupted are such runs.
  function AtOnces(steps: seq<Step>): (moves: seq<Move>)
    ensures |moves| == |steps|
  {
    seq(|steps|, i requires 0 <= i < |steps| => AtOnce(steps[i]))
  }

  lemma {:induction false} StepsAreMoves(steps: seq<Step>)
    ensures AllFresh(AtOnces(steps)) && Moves(INITIAL, AtOnces(steps)) == Runs(INITIAL, steps)
  {
    hide Next;
    if steps != [] {
      var n := |steps| - 1;
      StepsAreMoves(steps[..n]);
      assert AtOnces(steps)[..n] == AtOnces(steps[..n]);
    }
  }

  /** In every such run, a busy endpoint holds a waiter exactly when it is halted or a stall is pending. */
  lemma {:induction false} BusyIsWaiterIffHalted(moves: seq<Move>)
    requires AllFresh(moves)
    ensures var s := Moves(INITIAL, moves); s.job != NoJob ==> (s.job.Waiter? <==> s.mode != Running)
  {
    GoodMoves(moves);
  }

  /** In every such run, each accepted request that asks for a report gets exactly one report once it is no longer
      the current job, none before, and a request without a callback gets none. */
  lemma {:induction false} ReportedExactlyOnce(moves: seq<Move>, id: nat)
    requires AllFresh(moves)
    requires id < |Moves(INITIAL, moves).accepted|
    ensures var s := Moves(INITIAL, moves);
            && (Delivered(s.log, id) <==> Notifies(s.accepted[id]) && !Current(s.job, id))
            && forall i, j :: 0 <= i < |s.log| && 0 <= j < |s.log| && s.log[i].id == id && s.log[j].id == id ==> i == j
  {
    hide Next;
    GoodMoves(moves);
  }

  /** Clearing a halt reports no transfer, and at most the waiter that it ends. */
  lemma {:induction false} ClearHaltReports(moves: seq<Move>)
    requires AllFresh(moves)
    ensures var s := Moves(INITIAL, moves); var t := Next(s, ClearHaltStep);
            && t.mode == Running && (s.mode != Running ==> t.job == NoJob)
            && (s.job.Transfer? ==> t == s)
            && t.log == if s.mode != Running && s.job.Waiter? then s.log + [HaltCleared(s.job.id)] else s.log
  {
    GoodMoves(moves);
  }

  // A transfer request is refused on a halted endpoint, and a halt is refused during a transfer.
  lemma {:induction false} RefusedIff(moves: seq<Move>, hasCallback: bool, ended: bool, size: nat, delayed: bool)
    requires AllFresh(moves)
    ensures var s := Moves(INITIAL, moves);
            && (Accepts(s, RunStep(hasCallback, ended, size)) <==> s.job == NoJob && s.mode == Running)
            && (Accepts(s, SetHaltStep(delayed)) <==> !s.job.Transfer?)
            && (s.job.Transfer? ==> Next(s, SetHaltStep(delayed)) == s)
  {
    GoodMoves(moves);
  }

  /** A stall that is requested while banks are still busy takes effect when they are empty and not before, and a halt
      stays until it is cleared: no other step of any run lifts it or starts a transfer. */
  lemma {:induction false} StallTakesEffect(s: State, steps: seq<Step>)
    requires s.mode != Running && s.job == NoJob
    requires ClearHaltStep !in steps
    ensures Runs(s, steps).mode == if s.mode == StallPending && BankEmptyStep !in steps then StallPending else Halted
    ensures !Runs(s, steps).job.Transfer?
  {
    if steps != [] {
      StallTakesEffect(s, steps[..|steps| - 1]);
    }
  }

  /** A wait whose halt was cleared in between blocks the endpoint until it is aborted or freed: no step of the protocol
      changes anything, so that neither the waiter is called nor any other request is accepted. */
  lemma {:induction false} LostWaiter(s: State, steps: seq<Step>)
    requires s.mode == Running && s.job == NoJob
    ensures Runs(Stored(s, WaitStore), steps) == Stored(s, WaitStore)
  {
    if steps != [] {
      LostWaiter(s, steps[..|steps| - 1]);
    }
  }

  // It happens: a halt is seen, cleared by an interrupt, and only then the waiter is stored.
  lemma WaiterCanBeLost()
    ensures var halted := Runs(INITIAL, [SetHaltStep(false)]);
            && Fresh(halted, WaitStore)
            && !Good(Stored(Next(halted, ClearHaltStep), WaitStore))
  {
    assert [SetHaltStep(false)][..0] == [];
    var halted := Runs(INITIAL, [SetHaltStep(false)]);
    assert halted == Next(Runs(INITIAL, []), SetHaltStep(false));
  }

  lemma RunsNone(s: State)
    ensures Runs(s, []) == s
  {
  }

  lemma RunsOne(s: State, step: Step)
    ensures Runs(s, [step]) == Next(s, step)
  {
    assert [step][..0] == [];
  }

  lemma {:induction false} RunsAppend(s: State, a: seq<Step>, b: seq<Step>)
    ensures Runs(s, a + b) == Runs(Runs(s, a), b)
  {
    hide Next;
    if b == [] {
      assert a + b == a;
    } else {
      var n := |b| - 1;
      assert (a + b)[..|a| + n] == a + b[..n];
      RunsAppend(s, a, b[..n]);
    }
  }
}
