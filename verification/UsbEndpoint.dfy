/** One endpoint of the driver usbb_device.c: its job record, its registers, and the DMA chunks of a transfer. */
module UsbEndpoint {
  import opened Arith
  import opened Bytes
  import opened EndpointProtocol

  // usbb_device.h
  const UDD_ENDPOINT_MAX_TRANS: nat := 0x1_0000

  // The two callbacks share one word of the job record; this is what was last stored there.
  datatype Callback = Null | CallTrans | CallNohalt

  // Part of the buffer that one DMA transfer covers.
  datatype Chunk = Chunk(off: nat, len: nat)

  // What the hardware shows to the interrupt handler.
  datatype Hardware = Hardware(
    dmaInterrupt: bool,   // the DMA interrupt is raised
    channelEnabled: bool, // the DMA channel still runs
    left: nat,            // bytes of the current chunk that were not moved
    inSend: bool,         // the IN bank is free
    busyBanks: nat,       // IN banks still to be sent
    zlpReceived: bool)    // an end of transfer is already recorded for the next chunk

  // The 16-bit length field of the DMA control word: zero stands for the maximum.
  function LengthField(len: nat): nat { len % 0x1_0000 }

  function FieldLength(field: nat): nat { if field == 0 then UDD_ENDPOINT_MAX_TRANS else field }

  // The 16-bit counter of bytes not moved.
  function ByteCount(left: nat): nat { left % 0x1_0000 }

  function ChunksEnd(chunks: seq<Chunk>): nat {
    if chunks == [] then 0 else chunks[|chunks| - 1].off + chunks[|chunks| - 1].len
  }

  // Chunks that follow one another from the start of the buffer, none empty or too long.
  ghost predicate Contiguous(chunks: seq<Chunk>) {
    forall i :: 0 <= i < |chunks| ==>
      chunks[i].off == ChunksEnd(chunks[..i]) && 0 < chunks[i].len <= UDD_ENDPOINT_MAX_TRANS
  }

  predicate Whole(len: nat, epSize: nat)
    requires epSize > 0
  {
    len % epSize == 0
  }

  // No chunk ends with a short packet.
  ghost predicate AllWhole(chunks: seq<Chunk>, epSize: nat)
    requires epSize > 0
  {
    forall i :: 0 <= i < |chunks| ==> Whole(chunks[i].len, epSize)
  }

  // The DMA channel's address, as an offset into the buffer, and its control word.
  datatype DmaControl = DmaControl(offset: nat, length: nat, endEnabled: bool, eotEnabled: bool)

  // What really happens to a transfer: the buffer and the short packet asked for, the chunks started, the
  // bytes moved by those that are over, how many full-size chunks ended without moving any, and the length of a
  // chunk that was prepared and then not started, because an end of transfer had been recorded.
  datatype Trip = Trip(asked: nat, askedShort: bool, chunks: seq<Chunk>, moved: nat, silent: nat, dropped: nat) {
    function Last(): Chunk
      requires chunks != []
    {
      chunks[|chunks| - 1]
    }

    // The size that the driver's counters show.
    function Shown(): nat { moved + UDD_ENDPOINT_MAX_TRANS * silent }
  }

  // What calls the driver: the API and the interrupt.
  datatype Call =
    | CallSetHalt(busyBanks: nat)
    | CallClearHalt
    | CallWait
    | CallRun(short: bool, size: nat, hasCallback: bool, hw: Hardware)
    | CallInterrupt(hw: Hardware)

  // The steps of the protocol that a call makes: the protocol may refuse them, and an interrupt may find nothing to do.
  ghost predicate Answers(call: Call, steps: seq<Step>, dirIn: bool, enabled: bool) {
    match call
    case CallSetHalt(busyBanks) => steps == [SetHaltStep(dirIn && busyBanks != 0)]
    case CallClearHalt => steps == [ClearHaltStep]
    case CallWait => steps == if enabled then [WaitStep] else []
    case CallRun(_, _, hasCallback, _) =>
      if enabled then exists ended :: steps == [RunStep(hasCallback, ended, 0)] else steps == []
    case CallInterrupt(_) => steps == [] || steps == [BankEmptyStep] || (|steps| == 1 && steps[0].EndStep?)
  }

  datatype Jobs = Jobs(job: Job, accepted: seq<Request>, log: seq<Event>)

  // A transfer between two chunks: either its counters have met, or the next chunk follows the last one.
  ghost predicate Between(trip: Trip, nbTrans: nat, bufSize: nat) {
    && nbTrans <= bufSize <= trip.asked && nbTrans == trip.Shown()
    && Contiguous(trip.chunks) && ChunksEnd(trip.chunks) <= trip.asked
    && (nbTrans != bufSize ==> bufSize == trip.asked && nbTrans == ChunksEnd(trip.chunks) && trip.dropped == 0)
    && (trip.asked < UDD_ENDPOINT_MAX_TRANS ==> trip.silent == 0)
  }

  // A chunk is under way: it is the last one, the registers describe it, and the counter includes it.
  ghost predicate Moving(trip: Trip, nbTrans: nat, bufSize: nat, dma: DmaControl) {
    && nbTrans <= bufSize == trip.asked && trip.chunks != [] && trip.dropped == 0
    && nbTrans == ChunksEnd(trip.chunks) == trip.Shown() + trip.Last().len
    && Contiguous(trip.chunks)
    && dma.offset == trip.Last().off && FieldLength(dma.length) == trip.Last().len
    && (trip.asked < UDD_ENDPOINT_MAX_TRANS ==> trip.silent == 0)
  }

  // On an IN endpoint: a zero-length packet is still to be sent, since no chunk that was prepared ends with a short
  // packet, whether it was started or not.
  ghost predicate ZlpDue(trip: Trip, epSize: nat)
    requires epSize > 0
  {
    trip.askedShort && AllWhole(trip.chunks, epSize) && Whole(trip.dropped, epSize)
  }

  class Endpoint {
    // Configuration: direction, type and packet size.
    const dirIn: bool
    const isochronous: bool
    const epSize: nat

    // The job record.
    var busy: bool
    var shortPacket: bool
    var stallRequested: bool
    var bufSize: nat
    var nbTrans: nat
    var callback: Callback

    // Registers.
    var enabled: bool
    var stallHandshake: bool
    var endpointInterrupt: bool
    var inSendInterrupt: bool
    var bankInterrupt: bool
    var dmaInterrupt: bool
    var dma: DmaControl

    // The protocol state without its mode, which the registers show, and the current transfer.
    ghost var jobs: Jobs
    ghost var trip: Trip

    ghost function Protocol(): State
      reads `stallHandshake, `stallRequested, `jobs
    {
      State(if stallHandshake then Halted else if stallRequested then StallPending else Running,
            jobs.job, jobs.accepted, jobs.log)
    }

    ghost predicate Valid()
      reads this
    {
      && epSize > 0
      && Good(Protocol())
      && Registers()
      && (jobs.job.Transfer? ==> Transferring())
    }

    ghost predicate Registers()
      reads `busy, `jobs, `dmaInterrupt, `inSendInterrupt, `endpointInterrupt, `bankInterrupt, `stallHandshake,
            `stallRequested, `callback
    {
      && busy == (jobs.job != NoJob)
      && (jobs.job.Transfer? <==> dmaInterrupt || inSendInterrupt)
      && (inSendInterrupt ==> dirIn && !dmaInterrupt && endpointInterrupt)
      && !(stallHandshake && stallRequested)
      && bankInterrupt == stallRequested
      && (stallRequested ==> endpointInterrupt)
      && Holds(callback, jobs)
    }

    ghost predicate Transferring()
      requires epSize > 0
      reads `nbTrans, `bufSize, `trip, `dmaInterrupt, `shortPacket, `dma
    {
      && (if dmaInterrupt then Moving(trip, nbTrans, bufSize, dma)
          else Between(trip, nbTrans, bufSize) && nbTrans == bufSize)
      && (dirIn ==> shortPacket == ZlpDue(trip, epSize))
    }

    constructor (dirIn: bool, isochronous: bool, epSize: nat)
      requires epSize > 0
      ensures Valid() && Protocol() == INITIAL && enabled
      ensures this.dirIn == dirIn && this.isochronous == isochronous && this.epSize == epSize
    {
      this.dirIn, this.isochronous, this.epSize := dirIn, isochronous, epSize;
      busy, shortPacket, stallRequested, callback := false, false, false, Null;
      enabled, stallHandshake := true, false;
      endpointInterrupt, inSendInterrupt, bankInterrupt, dmaInterrupt := false, false, false, false;
      jobs := Jobs(NoJob, [], []);
    }

    // udd_ep_set_halt
    method SetHalt(busyBanks: nat) returns (ok: bool)
      requires Valid()
      modifies `stallRequested, `bankInterrupt, `endpointInterrupt, `stallHandshake
      ensures Valid()
      ensures ok == Accepts(old(Protocol()), SetHaltStep(dirIn && busyBanks != 0))
      ensures Protocol() == Next(old(Protocol()), SetHaltStep(dirIn && busyBanks != 0))
    {
      hide Good, Endpoint.Transferring;
      GoodNext(Protocol(), SetHaltStep(dirIn && busyBanks != 0));
      JobFits(Protocol());
      if stallHandshake || stallRequested {
        return true;
      }
      if busy {
        return false;
      }
      if dirIn && busyBanks != 0 {
        stallRequested, bankInterrupt, endpointInterrupt := true, true, true;
        return true;
      }
      stallHandshake := true;
      ok := true;
    }

    // udd_ep_clear_halt
    method ClearHalt() returns (ok: bool)
      requires Valid()
      modifies `stallRequested, `bankInterrupt, `endpointInterrupt, `stallHandshake, `busy, `jobs
      ensures Valid() && ok
      ensures Protocol() == Next(old(Protocol()), ClearHaltStep)
      ensures old(stallRequested) ==> !bankInterrupt && !endpointInterrupt
    {
      hide Good, Endpoint.Transferring;
      GoodNext(Protocol(), ClearHaltStep);
      JobFits(Protocol());
      var cleared := false;
      if stallRequested {
        stallRequested, bankInterrupt, endpointInterrupt, cleared := false, false, false, true;
      }
      if stallHandshake {
        stallHandshake, cleared := false, true;
      }
      if cleared && busy {
        busy := false;
        CallNohaltCallback();
      }
      ok := true;
    }

    // The call through the shared word, which must hold a halt-cleared callback.
    method CallNohaltCallback()
      requires callback == CallNohalt && jobs.job.Waiter?
      modifies `jobs
      ensures jobs == Jobs(NoJob, old(jobs.accepted), old(jobs.log) + [HaltCleared(old(jobs.job.id))])
    {
      jobs := Jobs(NoJob, jobs.accepted, jobs.log + [HaltCleared(jobs.job.id)]);
    }

    // udd_ep_wait_stall_clear
    method WaitStallClear() returns (ok: bool)
      requires Valid()
      modifies `busy, `callback, `jobs
      ensures Valid()
      ensures ok == (enabled && Accepts(old(Protocol()), WaitStep))
      ensures Protocol() == if enabled then Next(old(Protocol()), WaitStep) else old(Protocol())
    {
      hide Good, Endpoint.Transferring;
      GoodNext(Protocol(), WaitStep);
      if !enabled {
        return false;
      }
      if busy {
        return false;
      }
      ghost var id := |jobs.accepted|;
      if stallHandshake || stallRequested {
        busy, callback := true, CallNohalt;
        jobs := Jobs(Waiter(id), jobs.accepted + [WaitRequest], jobs.log);
      } else {
        jobs := Jobs(NoJob, jobs.accepted + [WaitRequest], jobs.log + [HaltCleared(id)]);
      }
      ok := true;
    }

    // udd_ep_finish_job without an abort
    method FinishJob()
      requires busy == (jobs.job != NoJob) && Holds(callback, jobs) && !jobs.job.Waiter?
      modifies `busy, `jobs
      ensures !busy && jobs.job == NoJob
      ensures Protocol() == if old(jobs.job).Transfer? then Finished(old(Protocol()), bufSize) else old(Protocol())
    {
      if !busy {
        return;
      }
      busy := false;
      if callback == Null {
        jobs := jobs.(job := NoJob);
        return;
      }
      CallTransCallback();
    }

    // The call through the shared word, which must hold a transfer callback.
    method CallTransCallback()
      requires callback == CallTrans && jobs.job.Transfer?
      modifies `jobs
      ensures jobs == Jobs(NoJob, old(jobs.accepted), old(jobs.log) + [TransferDone(old(jobs.job.id), bufSize)])
    {
      jobs := Jobs(NoJob, jobs.accepted, jobs.log + [TransferDone(jobs.job.id, bufSize)]);
    }

    // Prepares one DMA chunk and starts it, unless an end of transfer is recorded (udd_ep_trans_done, while there is
    // something left to move).
    method StartChunk(zlpReceived: bool)
      requires epSize > 0 && Between(trip, nbTrans, bufSize) && nbTrans != bufSize && !dmaInterrupt
      requires dirIn ==> shortPacket == ZlpDue(trip, epSize)
      modifies `nbTrans, `bufSize, `shortPacket, `dma, `dmaInterrupt, `trip
      ensures dmaInterrupt == !zlpReceived && Transferring()
      ensures trip == if dmaInterrupt then NextChunk(old(trip), old(nbTrans), old(bufSize))
                      else Dropped(old(trip), old(nbTrans), old(bufSize))
      ensures dmaInterrupt ==> nbTrans > old(nbTrans) && bufSize == old(bufSize)
      ensures dmaInterrupt && dirIn ==> (dma.endEnabled <==> trip.Last().len % epSize != 0)
      ensures dmaInterrupt && !dirIn ==> dma.eotEnabled == (!isochronous || trip.Last().len <= epSize)
      ensures !dmaInterrupt ==> bufSize == nbTrans == old(nbTrans)
    {
      hide Between, Moving, ZlpDue, Whole, LengthField;
      ChunkStarts(trip, nbTrans, bufSize, epSize);
      WholeMeans(Min(UDD_ENDPOINT_MAX_TRANS, bufSize - nbTrans), epSize);
      var nextTrans: nat := bufSize - nbTrans;
      var length := 0;
      if UDD_ENDPOINT_MAX_TRANS < nextTrans {
        nextTrans := UDD_ENDPOINT_MAX_TRANS;
      } else {
        length := LengthField(nextTrans);
      }
      var dmaEnd, dmaEot := false, false;
      if dirIn {
        if !Whole(nextTrans, epSize) {
          dmaEnd, shortPacket := true, false;
        }
      } else if !isochronous || nextTrans <= epSize {
        dmaEot := true;
      }
      if !zlpReceived {
        dma := DmaControl(nbTrans, length, dmaEnd, dmaEot);
        trip := NextChunk(trip, nbTrans, bufSize);
        nbTrans := nbTrans + nextTrans;
        dmaInterrupt := true;
        return;
      }
      trip := Dropped(trip, nbTrans, bufSize);
      bufSize := nbTrans;
    }

    // udd_ep_trans_done
    method TransDone(zlpReceived: bool)
      requires epSize > 0 && Good(Protocol()) && jobs.job.Transfer? && busy && Holds(callback, jobs)
      requires Between(trip, nbTrans, bufSize) && (dirIn ==> shortPacket == ZlpDue(trip, epSize))
      requires !dmaInterrupt && !inSendInterrupt && !bankInterrupt && !stallRequested && !stallHandshake
      modifies `nbTrans, `bufSize, `shortPacket, `dma, `dmaInterrupt, `trip, `inSendInterrupt, `endpointInterrupt,
               `busy, `jobs
      ensures Valid()
      ensures Protocol() == if jobs.job != NoJob then old(Protocol())
                            else Next(old(Protocol()), EndStep(old(trip.Shown())))
      ensures dmaInterrupt <==> old(nbTrans != bufSize) && !zlpReceived
      ensures trip == if dmaInterrupt then NextChunk(old(trip), old(nbTrans), old(bufSize))
                      else Dropped(old(trip), old(nbTrans), old(bufSize))
      ensures dmaInterrupt ==> nbTrans > old(nbTrans) && bufSize == old(bufSize)
      ensures !dmaInterrupt ==> (jobs.job != NoJob <==> dirIn && ZlpDue(trip, epSize))
    {
      hide Good, Moving, ZlpDue, NextChunk, Next;
      if nbTrans != bufSize {
        StartChunk(zlpReceived);
        if dmaInterrupt {
          return;
        }
      }
      if dirIn {
        if shortPacket {
          inSendInterrupt, endpointInterrupt := true, true;
          return;
        }
      }
      TransferEnds(Protocol(), bufSize);
      FinishJob();
    }

    // The end of a DMA chunk in udd_ep_interrupt.
    method DmaDone(hw: Hardware)
      requires Valid() && dmaInterrupt && trip.chunks != [] && hw.left <= trip.Last().len
      modifies `nbTrans, `bufSize, `shortPacket, `dma, `dmaInterrupt, `trip, `inSendInterrupt, `endpointInterrupt,
               `busy, `jobs
      ensures Valid()
      ensures ChunksEnd(old(trip.chunks)) <= old(trip.asked)
      ensures trip == AfterChunk(old(trip), hw.left, hw.zlpReceived)
      ensures dmaInterrupt <==> Continues(old(trip), hw.left, hw.zlpReceived)
      ensures Protocol() == if jobs.job != NoJob then old(Protocol())
                            else Next(old(Protocol()), EndStep(trip.Shown()))
      ensures dmaInterrupt ==> bufSize - nbTrans < old(bufSize - nbTrans)
      ensures !dmaInterrupt ==> (jobs.job != NoJob <==> dirIn && ZlpDue(trip, epSize))
    {
      hide Good, Next, Between, ZlpDue, NextChunk, ChunkOver, ByteCount;
      JobFits(Protocol());
      ChunkEnds(trip, nbTrans, bufSize, dma, hw.left, epSize);
      trip := ChunkOver(trip, hw.left);
      dmaInterrupt := false;
      var remaining := ByteCount(hw.left);
      if remaining != 0 {
        nbTrans := nbTrans - remaining;
        bufSize := nbTrans;
      }
      TransDone(hw.zlpReceived);
    }

    // udd_ep_interrupt, for one endpoint
    method Interrupt(hw: Hardware) returns (handled: bool)
      requires Valid()
      requires dmaInterrupt ==> trip.chunks != [] && hw.left <= trip.Last().len
      modifies this
      ensures Valid() && enabled == old(enabled)
      ensures old(dmaInterrupt) && hw.dmaInterrupt ==> handled
      ensures old(dmaInterrupt) && hw.dmaInterrupt && hw.channelEnabled ==> Protocol() == old(Protocol())
      ensures old(dmaInterrupt) && hw.dmaInterrupt && !hw.channelEnabled ==> (
        && ChunksEnd(old(trip.chunks)) <= old(trip.asked)
        && trip == AfterChunk(old(trip), hw.left, hw.zlpReceived)
        && (dmaInterrupt <==> Continues(old(trip), hw.left, hw.zlpReceived))
        && (Protocol() == if jobs.job != NoJob then old(Protocol())
                          else Next(old(Protocol()), EndStep(trip.Shown())))
        && (dmaInterrupt ==> bufSize - nbTrans < old(bufSize - nbTrans))
        && (!dmaInterrupt ==> (jobs.job != NoJob <==> dirIn && ZlpDue(trip, epSize))))
      ensures old(inSendInterrupt) && hw.inSend ==>
        handled && trip == old(trip) && Protocol() == Next(old(Protocol()), EndStep(trip.Shown()))
      ensures old(stallRequested) && hw.busyBanks == 0 ==>
        handled && Protocol() == Next(old(Protocol()), BankEmptyStep) && !bankInterrupt && !endpointInterrupt
      ensures !handled ==> Protocol() == old(Protocol())
      ensures Protocol() == old(Protocol()) || Protocol() == Next(old(Protocol()), BankEmptyStep)
              || Protocol() == Next(old(Protocol()), EndStep(trip.Shown()))
    {
      hide Good, AfterChunk, Continues, ZlpDue, Moving;
      JobFits(Protocol());
      if dmaInterrupt && hw.dmaInterrupt {
        handled := true;
        if hw.channelEnabled {
          return;
        }
        DmaDone(hw);
        return;
      }
      if endpointInterrupt {
        if inSendInterrupt && hw.inSend {
          inSendInterrupt := false;
          TransferEnds(Protocol(), bufSize);
          FinishJob();
          return true;
        }
        if bankInterrupt && hw.busyBanks == 0 {
          GoodNext(Protocol(), BankEmptyStep);
          bankInterrupt, endpointInterrupt := false, false;
          assert stallRequested;
          stallRequested, stallHandshake := false, true;
          return true;
        }
      }
      handled := false;
    }

    // udd_ep_run
    method Run(short: bool, size: nat, hasCallback: bool, hw: Hardware) returns (ok: bool)
      requires Valid()
      modifies `busy, `bufSize, `nbTrans, `shortPacket, `callback, `jobs, `trip, `dma, `dmaInterrupt, `inSendInterrupt,
               `endpointInterrupt
      ensures Valid()
      ensures ok == (enabled && Accepts(old(Protocol()), RunStep(hasCallback, false, 0)))
      ensures !ok ==> Protocol() == old(Protocol()) && trip == old(trip)
      ensures ok ==> Protocol() == Next(old(Protocol()), RunStep(hasCallback, jobs.job == NoJob, 0))
      ensures ok ==> trip == Started(size, short, hw.zlpReceived)
      ensures ok ==> (dmaInterrupt <==> size != 0 && !hw.zlpReceived)
      ensures ok && !dmaInterrupt ==> (jobs.job != NoJob <==> dirIn && ZlpDue(trip, epSize))
    {
      hide Good, Next, Endpoint.Transferring, Between, NextChunk, Dropped, ZlpDue, Holds, Started;
      JobFits(Protocol());
      if !enabled || stallHandshake || stallRequested {
        return false;
      }
      if busy {
        return false;
      }
      RunThenEnd(Protocol(), hasCallback, 0);
      TripStarts(size, short, epSize);
      FillJob(short, size, hasCallback);
      TransDone(hw.zlpReceived);
      ok := true;
    }

    // The job record of a new transfer.
    method FillJob(short: bool, size: nat, hasCallback: bool)
      requires Good(Protocol()) && Accepts(Protocol(), RunStep(hasCallback, false, 0))
      modifies `busy, `bufSize, `nbTrans, `shortPacket, `callback, `jobs, `trip
      ensures Protocol() == Next(old(Protocol()), RunStep(hasCallback, false, 0)) && Good(Protocol())
      ensures busy && jobs.job.Transfer? && Holds(callback, jobs)
      ensures nbTrans == 0 && bufSize == size && shortPacket == short && trip == Trip(size, short, [], 0, 0, 0)
    {
      hide Good, Next, Holds;
      RunThenEnd(Protocol(), hasCallback, 0);
      GoodNext(Protocol(), RunStep(hasCallback, false, 0));
      RequestHeld(jobs, hasCallback);
      busy := true;
      bufSize, nbTrans, shortPacket := size, 0, short;
      callback := if hasCallback then CallTrans else Null;
      jobs := Jobs(Transfer(|jobs.accepted|), jobs.accepted + [TransferRequest(hasCallback)], jobs.log);
      trip := Trip(size, short, [], 0, 0, 0);
    }

    // Whatever the hardware does with each chunk, a transfer stops using the DMA after finitely many interrupts,
    // as its specification says.
    method DrainDma(behaviour: Chunk -> Answer)
      requires Valid() && Possible(behaviour) && jobs.job.Transfer?
      modifies this
      ensures Valid() && !dmaInterrupt
      ensures old(dmaInterrupt) ==> InBuffer(old(trip)) && trip == Drained(old(trip), behaviour)
      ensures !old(dmaInterrupt) ==> trip == old(trip) && Protocol() == old(Protocol())
      ensures old(dmaInterrupt) ==> (jobs.job != NoJob <==> dirIn && ZlpDue(trip, epSize))
      ensures Protocol() == if jobs.job != NoJob then old(Protocol())
                            else Next(old(Protocol()), EndStep(trip.Shown()))
    {
      hide Good, NextChunk, ChunkOver, ZlpDue, Next, ChunksEnd, Possible, Continues, AfterChunk, Drained;
      if dmaInterrupt {
        InFlight(trip, nbTrans, bufSize, dma);
      }
      while dmaInterrupt
        invariant Valid()
        invariant dmaInterrupt ==> old(dmaInterrupt) && InBuffer(trip) && Protocol() == old(Protocol())
        invariant dmaInterrupt ==> Drained(trip, behaviour) == Drained(old(trip), behaviour)
        invariant !dmaInterrupt && old(dmaInterrupt) ==> trip == Drained(old(trip), behaviour)
        invariant !dmaInterrupt && !old(dmaInterrupt) ==> trip == old(trip) && Protocol() == old(Protocol())
        invariant !dmaInterrupt && old(dmaInterrupt) ==> (jobs.job != NoJob <==> dirIn && ZlpDue(trip, epSize))
        invariant Protocol() == if jobs.job != NoJob then old(Protocol())
                                else Next(old(Protocol()), EndStep(trip.Shown()))
        decreases dmaInterrupt, if dmaInterrupt then bufSize - nbTrans else 0
      {
        InFlight(trip, nbTrans, bufSize, dma);
        var answer := behaviour(Chunk(dma.offset, FieldLength(dma.length)));
        DrainedNext(trip, behaviour);
        var handled := Interrupt(Hardware(true, false, answer.left, false, 0, answer.zlpReceived));
        if dmaInterrupt {
          InFlight(trip, nbTrans, bufSize, dma);
        }
      }
    }

    // Any sequence of calls and interrupts is a run of the protocol. The hardware never leaves more of a chunk than
    // the chunk has.
    method RunCalls(calls: seq<Call>) returns (ghost parts: seq<seq<Step>>)
      requires Valid()
      modifies this
      ensures Valid() && |parts| == |calls| && enabled == old(enabled)
      ensures forall i :: 0 <= i < |calls| ==> Answers(calls[i], parts[i], dirIn, enabled)
      ensures Protocol() == Runs(old(Protocol()), Flatten(parts))
    {
      RunsNone(Protocol());
      hide *;
      parts := [];
      NoSteps();
      for i := 0 to |calls|
        invariant Valid() && |parts| == i && enabled == old(enabled)
        invariant forall k :: 0 <= k < i ==> Answers(calls[k], parts[k], dirIn, enabled)
        invariant Protocol() == Runs(old(Protocol()), Flatten(parts))
      {
        ghost var steps := OneCall(calls[i]);
        RunsAppend(old(Protocol()), Flatten(parts), steps);
        FlattenSnoc(parts, steps);
        parts := parts + [steps];
      }
    }

    method OneCall(call: Call) returns (ghost steps: seq<Step>)
      requires Valid()
      modifies this
      ensures Valid() && enabled == old(enabled)
      ensures Protocol() == Runs(old(Protocol()), steps) && Answers(call, steps, dirIn, enabled)
    {
      hide Good, Next, Moving, Between, ZlpDue, Continues, AfterChunk, Runs, Accepts, Started, Endpoint.Registers;
      ghost var s := Protocol();
      RunsNone(s);
      var ok: bool;
      match call {
        case CallSetHalt(busyBanks) =>
          ok := SetHalt(busyBanks);
          steps := [SetHaltStep(dirIn && busyBanks != 0)];
        case CallClearHalt =>
          ok := ClearHalt();
          steps := [ClearHaltStep];
        case CallWait =>
          steps := if enabled then [WaitStep] else [];
          ok := WaitStallClear();
        case CallRun(short, size, hasCallback, hw) =>
          RefusedStays(s, hasCallback);
          ok := Run(short, size, hasCallback, hw);
          steps := if enabled then [RunStep(hasCallback, ok && jobs.job == NoJob, 0)] else [];
        case CallInterrupt(hw) =>
          if dmaInterrupt {
            DmaOnlyTransfers();
            InFlight(trip, nbTrans, bufSize, dma);
          }
          var left := Min(hw.left, FieldLength(dma.length));
          ok := Interrupt(hw.(left := left));
          steps := if Protocol() == s then []
                   else if Protocol() == Next(s, BankEmptyStep) then [BankEmptyStep]
                   else [EndStep(trip.Shown())];
      }
      if steps != [] {
        RunsOne(s, steps[0]);
      }
    }

    lemma DmaOnlyTransfers()
      requires Valid() && dmaInterrupt
      ensures Moving(trip, nbTrans, bufSize, dma)
    {
    }

    // A whole transfer: the request, and the interrupts of all its chunks.
    method Complete(short: bool, size: nat, hasCallback: bool, zlpReceived: bool, behaviour: Chunk -> Answer)
      returns (ok: bool)
      requires Valid() && Possible(behaviour)
      modifies this
      ensures Valid() && ok == (old(enabled) && Accepts(old(Protocol()), RunStep(hasCallback, false, 0)))
      ensures ok ==> !dmaInterrupt && trip == Outcome(size, short, zlpReceived, behaviour)
      ensures ok ==> (jobs.job != NoJob <==> dirIn && ZlpDue(trip, epSize))
      ensures ok ==> Protocol() == Next(old(Protocol()), RunStep(hasCallback, jobs.job == NoJob, trip.Shown()))
      ensures ok && !zlpReceived && MovesAll(behaviour) ==> trip.moved == size && trip.Shown() == size
      ensures ok && !zlpReceived && MovesAll(behaviour) ==>
        (jobs.job != NoJob <==> dirIn && short && size % epSize == 0 && (size <= 0x1_0000 || 0x1_0000 % epSize == 0))
      ensures ok && size < UDD_ENDPOINT_MAX_TRANS ==> trip.Shown() == trip.moved
    {
      hide Good, NextChunk, ChunkOver, ZlpDue, Next, ChunksEnd, Possible, MovesAll, Drained, Started, Accepts, Outcome;
      RunSpec(Protocol(), hasCallback);
      ok := Run(short, size, hasCallback, Hardware(false, false, 0, false, 0, zlpReceived));
      if ok {
        OutcomeFacts(size, short, zlpReceived, behaviour);
        OutcomeUnfolds(size, short, zlpReceived, behaviour);
        if !zlpReceived && MovesAll(behaviour) {
          OutcomeZlp(size, short, behaviour, epSize);
        }
        if dmaInterrupt {
          DrainDma(behaviour);
        }
      }
    }
  }

  lemma NoSteps()
    ensures Flatten<Step>([]) == []
  {
  }

  lemma RefusedStays(s: State, hasCallback: bool)
    ensures !Accepts(s, RunStep(hasCallback, false, 0)) ==> Next(s, RunStep(hasCallback, false, 0)) == s
  {
  }

  // The shared callback word holds the kind of callback that the job will call.
  ghost predicate Holds(callback: Callback, jobs: Jobs) {
    && (jobs.job.Waiter? ==> callback == CallNohalt)
    && (jobs.job.Transfer? ==> jobs.job.id < |jobs.accepted|)
    && (jobs.job.Transfer? ==>
          callback == if jobs.accepted[jobs.job.id] == TransferRequest(true) then CallTrans else Null)
  }

  // The next chunk takes what is left, up to the maximum.
  ghost function NextChunk(trip: Trip, nbTrans: nat, bufSize: nat): (t: Trip)
    requires nbTrans <= bufSize
    ensures t.chunks != []
  {
    trip.(chunks := trip.chunks + [Chunk(nbTrans, Min(UDD_ENDPOINT_MAX_TRANS, bufSize - nbTrans))])
  }

  // The chunk that would have been next is not started; nothing changes if there was none.
  ghost function Dropped(trip: Trip, nbTrans: nat, bufSize: nat): Trip
    requires nbTrans <= bufSize
  {
    if nbTrans == bufSize then trip else trip.(dropped := Min(UDD_ENDPOINT_MAX_TRANS, bufSize - nbTrans))
  }

  // The last chunk is over, with some of its bytes not moved.
  ghost function ChunkOver(trip: Trip, left: nat): Trip
    requires trip.chunks != [] && left <= trip.Last().len
  {
    trip.(moved := trip.moved + trip.Last().len - left,
          silent := trip.silent + if left == UDD_ENDPOINT_MAX_TRANS then 1 else 0)
  }

  // The transfer when udd_ep_run returns: nothing is started if there is nothing to move, or if an end of
  // transfer has been recorded already.
  ghost function Started(size: nat, short: bool, zlpReceived: bool): Trip {
    var start := Trip(size, short, [], 0, 0, 0);
    if size == 0 || zlpReceived then Dropped(start, 0, size) else NextChunk(start, 0, size)
  }

  // Another chunk follows if the counter says that this one is complete, the buffer is not used up, and no
  // end of transfer has been recorded.
  ghost predicate Continues(trip: Trip, left: nat, zlpReceived: bool) {
    ByteCount(left) == 0 && ChunksEnd(trip.chunks) != trip.asked && !zlpReceived
  }

  ghost function AfterChunk(trip: Trip, left: nat, zlpReceived: bool): Trip
    requires trip.chunks != [] && left <= trip.Last().len && ChunksEnd(trip.chunks) <= trip.asked
  {
    var over := ChunkOver(trip, left);
    if Continues(trip, left, zlpReceived) then NextChunk(over, ChunksEnd(over.chunks), over.asked)
    else if ByteCount(left) == 0 then Dropped(over, ChunksEnd(over.chunks), over.asked)
    else over
  }

  // ------------------------------------------------------------------ whole transfers

  // What the hardware does with a chunk: how much of it is not moved, and whether an end of transfer is
  // recorded before the next one. Chunks of a transfer differ in their offsets, so that this can be any
  // sequence of events.
  datatype Answer = Answer(left: nat, zlpReceived: bool)

  ghost predicate Possible(behaviour: Chunk -> Answer) {
    forall c :: behaviour(c).left <= c.len
  }

  ghost predicate MovesAll(behaviour: Chunk -> Answer) {
    forall c :: behaviour(c) == Answer(0, false)
  }

  ghost predicate InBuffer(trip: Trip) {
    trip.chunks != [] && ChunksEnd(trip.chunks) <= trip.asked
  }

  // The transfer after all its chunks.
  ghost function Drained(trip: Trip, behaviour: Chunk -> Answer): Trip
    requires InBuffer(trip) && Possible(behaviour)
    decreases trip.asked - ChunksEnd(trip.chunks)
  {
    var answer := behaviour(trip.Last());
    var after := AfterChunk(trip, answer.left, answer.zlpReceived);
    if Continues(trip, answer.left, answer.zlpReceived) then Drained(after, behaviour) else after
  }

  ghost function Outcome(size: nat, short: bool, zlpReceived: bool, behaviour: Chunk -> Answer): Trip
    requires Possible(behaviour)
  {
    var started := Started(size, short, zlpReceived);
    if started.chunks == [] then started else Drained(started, behaviour)
  }

  lemma DrainedNext(trip: Trip, behaviour: Chunk -> Answer)
    requires InBuffer(trip) && Possible(behaviour)
    ensures behaviour(trip.Last()).left <= trip.Last().len
    ensures var answer := behaviour(trip.Last());
            var after := AfterChunk(trip, answer.left, answer.zlpReceived);
            if Continues(trip, answer.left, answer.zlpReceived)
            then InBuffer(after) && Drained(trip, behaviour) == Drained(after, behaviour)
            else Drained(trip, behaviour) == after
  {
  }

  // A chunk under way: what was moved before it is all that came before it.
  ghost predicate AllMoved(trip: Trip) {
    InBuffer(trip) && trip.moved + trip.Last().len == ChunksEnd(trip.chunks)
  }

  lemma {:induction false} DrainedMovesAll(trip: Trip, behaviour: Chunk -> Answer)
    requires AllMoved(trip) && Possible(behaviour) && MovesAll(behaviour)
    ensures Drained(trip, behaviour).moved == trip.asked && Drained(trip, behaviour).silent == trip.silent
    decreases trip.asked - ChunksEnd(trip.chunks)
  {
    var answer := behaviour(trip.Last());
    assert answer == Answer(0, false);
    if Continues(trip, 0, false) {
      DrainedMovesAll(AfterChunk(trip, 0, false), behaviour);
    }
  }

  lemma {:induction false} DrainedSmall(trip: Trip, behaviour: Chunk -> Answer)
    requires InBuffer(trip) && Possible(behaviour) && trip.asked < UDD_ENDPOINT_MAX_TRANS
    ensures Drained(trip, behaviour).silent == trip.silent
    decreases trip.asked - ChunksEnd(trip.chunks)
  {
    var answer := behaviour(trip.Last());
    if Continues(trip, answer.left, answer.zlpReceived) {
      DrainedSmall(AfterChunk(trip, answer.left, answer.zlpReceived), behaviour);
    }
  }

  lemma OutcomeFacts(size: nat, short: bool, zlpReceived: bool, behaviour: Chunk -> Answer)
    requires Possible(behaviour)
    ensures !zlpReceived && MovesAll(behaviour) ==>
      Outcome(size, short, zlpReceived, behaviour).moved == Outcome(size, short, zlpReceived, behaviour).Shown() == size
    ensures size < UDD_ENDPOINT_MAX_TRANS ==> Outcome(size, short, zlpReceived, behaviour).silent == 0
  {
    var started := Started(size, short, zlpReceived);
    if started.chunks != [] {
      hide Drained;
      if MovesAll(behaviour) {
        DrainedMovesAll(started, behaviour);
      }
      if size < UDD_ENDPOINT_MAX_TRANS {
        DrainedSmall(started, behaviour);
      }
    }
  }

  // In every run of a transfer of this size the size reported is the number of bytes moved.
  ghost predicate ReportsExactly(size: nat) {
    forall short, zlpReceived, behaviour: Chunk -> Answer :: Possible(behaviour) ==>
      Outcome(size, short, zlpReceived, behaviour).Shown() == Outcome(size, short, zlpReceived, behaviour).moved
  }

  /** The size reported is exact in every run exactly for transfers shorter than the largest chunk. */
  lemma ExactIffBelowMaximum(size: nat)
    ensures ReportsExactly(size) <==> size < UDD_ENDPOINT_MAX_TRANS
  {
    if size < UDD_ENDPOINT_MAX_TRANS {
      forall short, zlpReceived, behaviour: Chunk -> Answer | Possible(behaviour)
        ensures Outcome(size, short, zlpReceived, behaviour).Shown()
             == Outcome(size, short, zlpReceived, behaviour).moved
      {
        OutcomeFacts(size, short, zlpReceived, behaviour);
      }
    } else {
      SilentChunk(size, false);
    }
  }

  // A first chunk of full size that moves nothing, followed by the end of the transfer.
  lemma SilentChunk(size: nat, short: bool)
    requires size >= UDD_ENDPOINT_MAX_TRANS
    ensures var behaviour := (c: Chunk) => Answer(c.len, true);
            && Possible(behaviour)
            && Outcome(size, short, false, behaviour).moved == 0
            && Outcome(size, short, false, behaviour).Shown() == UDD_ENDPOINT_MAX_TRANS
  {
  }

  lemma RunSpec(s: State, hasCallback: bool)
    ensures forall size :: Accepts(s, RunStep(hasCallback, false, 0)) ==>
      Next(Next(s, RunStep(hasCallback, false, 0)), EndStep(size)) == Next(s, RunStep(hasCallback, true, size))
    ensures forall size :: Next(s, RunStep(hasCallback, false, size)) == Next(s, RunStep(hasCallback, false, 0))
  {
  }

  lemma OutcomeUnfolds(size: nat, short: bool, zlpReceived: bool, behaviour: Chunk -> Answer)
    requires Possible(behaviour)
    ensures var started := Started(size, short, zlpReceived);
            if size == 0 || zlpReceived
            then started.Shown() == 0 && Outcome(size, short, zlpReceived, behaviour) == started
            else InBuffer(started) && Outcome(size, short, zlpReceived, behaviour) == Drained(started, behaviour)
  {
    hide Drained;
  }

  lemma InFlight(trip: Trip, nbTrans: nat, bufSize: nat, dma: DmaControl)
    requires Moving(trip, nbTrans, bufSize, dma)
    ensures trip.chunks != [] && nbTrans <= bufSize
    ensures trip.Last() == Chunk(dma.offset, FieldLength(dma.length))
  {
  }

  lemma RequestHeld(jobs: Jobs, hasCallback: bool)
    ensures Holds(if hasCallback then CallTrans else Null,
                  Jobs(Transfer(|jobs.accepted|), jobs.accepted + [TransferRequest(hasCallback)], jobs.log))
  {
  }

  lemma TripStarts(size: nat, short: bool, epSize: nat)
    requires epSize > 0
    ensures Between(Trip(size, short, [], 0, 0, 0), 0, size)
    ensures ZlpDue(Trip(size, short, [], 0, 0, 0), epSize) == short
    ensures forall zlpReceived :: Started(size, short, zlpReceived)
                               == if size == 0 || zlpReceived then Dropped(Trip(size, short, [], 0, 0, 0), 0, size)
                                  else NextChunk(Trip(size, short, [], 0, 0, 0), 0, size)
  {
  }

  lemma ChunkStarts(trip: Trip, nbTrans: nat, bufSize: nat, epSize: nat)
    requires epSize > 0 && Between(trip, nbTrans, bufSize) && nbTrans != bufSize
    ensures nbTrans < bufSize
    ensures var n := Min(UDD_ENDPOINT_MAX_TRANS, bufSize - nbTrans); var t := NextChunk(trip, nbTrans, bufSize);
            && t.Last() == Chunk(nbTrans, n)
            && (forall e, f :: Moving(t, nbTrans + n, bufSize, DmaControl(nbTrans, LengthField(n), e, f)))
            && (n == UDD_ENDPOINT_MAX_TRANS ==> LengthField(n) == 0)
            && ZlpDue(t, epSize) == (ZlpDue(trip, epSize) && Whole(n, epSize))
    ensures var n := Min(UDD_ENDPOINT_MAX_TRANS, bufSize - nbTrans); var t := Dropped(trip, nbTrans, bufSize);
            Between(t, nbTrans, nbTrans) && ZlpDue(t, epSize) == (ZlpDue(trip, epSize) && Whole(n, epSize))
  {
    WholeNone(epSize);
    hide Contiguous, AllWhole, Whole, ChunksEnd, LengthField, FieldLength;
    var n := Min(UDD_ENDPOINT_MAX_TRANS, bufSize - nbTrans);
    ChunkAdded(trip.chunks, n);
    WholeAdded(trip.chunks, n, epSize);
    FieldFits(n);
  }

  lemma WholeMeans(len: nat, epSize: nat)
    requires epSize > 0
    ensures Whole(len, epSize) <==> len % epSize == 0
  {
  }

  // So many bytes, cut into chunks, leave no partial packet.
  predicate RestWhole(n: nat, epSize: nat)
    requires epSize > 0
  {
    n % epSize == 0 && (n <= 0x1_0000 || 0x1_0000 % epSize == 0)
  }

  lemma RestCut(n: nat, epSize: nat)
    requires epSize > 0
    ensures var l := Min(UDD_ENDPOINT_MAX_TRANS, n);
            RestWhole(n, epSize) <==> Whole(l, epSize) && RestWhole(n - l, epSize)
  {
    WholeNone(epSize);
    hide Whole;
    WholeMeans(0, epSize);
    WholeMeans(Min(UDD_ENDPOINT_MAX_TRANS, n), epSize);
    if n > UDD_ENDPOINT_MAX_TRANS && 0x1_0000 % epSize == 0 {
      ModMinus(n, 0x1_0000, epSize);
    }
  }

  lemma ModMinus(n: nat, m: nat, p: nat)
    requires p > 0 && m <= n && m % p == 0
    ensures n % p == (n - m) % p
  {
    QuotBounds(m, p);
    QuotBounds(n - m, p);
    var q, r := (n - m) / p, (n - m) % p;
    assert n == (m / p + q) * p + r;
    DivUnique(n, m / p + q, p, r);
  }

  // If every chunk is moved, no chunk is partial exactly if the rest behind the last one leaves no partial packet.
  lemma {:induction false} DrainedZlp(trip: Trip, behaviour: Chunk -> Answer, epSize: nat)
    requires InBuffer(trip) && Possible(behaviour) && MovesAll(behaviour) && epSize > 0 && trip.dropped == 0
    ensures ZlpDue(Drained(trip, behaviour), epSize)
       <==> ZlpDue(trip, epSize) && RestWhole(trip.asked - ChunksEnd(trip.chunks), epSize)
    decreases trip.asked - ChunksEnd(trip.chunks)
  {
    var n := trip.asked - ChunksEnd(trip.chunks);
    assert behaviour(trip.Last()) == Answer(0, false);
    RestCut(n, epSize);
    RestNone(epSize);
    SameZlp(trip, epSize);
    hide Whole, AllWhole, RestWhole, ZlpDue, Possible, MovesAll;
    if n != 0 {
      var after := AfterChunk(trip, 0, false);
      NextZlp(ChunkOver(trip, 0), epSize);
      DrainedZlp(after, behaviour, epSize);
    }
  }

  lemma RestNone(epSize: nat)
    requires epSize > 0
    ensures RestWhole(0, epSize)
  {
  }

  lemma SameZlp(trip: Trip, epSize: nat)
    requires epSize > 0 && trip.chunks != []
    ensures ZlpDue(ChunkOver(trip, 0), epSize) == ZlpDue(trip, epSize)
  {
    hide Whole;
  }

  lemma NextZlp(trip: Trip, epSize: nat)
    requires epSize > 0 && ChunksEnd(trip.chunks) <= trip.asked
    ensures var n := trip.asked - ChunksEnd(trip.chunks);
            ZlpDue(NextChunk(trip, ChunksEnd(trip.chunks), trip.asked), epSize)
            == (ZlpDue(trip, epSize) && Whole(Min(UDD_ENDPOINT_MAX_TRANS, n), epSize))
  {
    WholeAdded(trip.chunks, Min(UDD_ENDPOINT_MAX_TRANS, trip.asked - ChunksEnd(trip.chunks)), epSize);
    hide Whole, AllWhole;
  }

  /** A transfer whose chunks are all moved is followed by a zero-length packet exactly if one was asked for and no
      packet was short. */
  lemma OutcomeZlp(size: nat, short: bool, behaviour: Chunk -> Answer, epSize: nat)
    requires Possible(behaviour) && MovesAll(behaviour) && epSize > 0
    ensures ZlpDue(Outcome(size, short, false, behaviour), epSize)
       <==> short && size % epSize == 0 && (size <= 0x1_0000 || 0x1_0000 % epSize == 0)
  {
    var start := Trip(size, short, [], 0, 0, 0);
    TripStarts(size, short, epSize);
    RestCut(size, epSize);
    RestNone(epSize);
    assert RestWhole(size, epSize) <==> size % epSize == 0 && (size <= 0x1_0000 || 0x1_0000 % epSize == 0);
    OutcomeUnfolds(size, short, false, behaviour);
    hide Whole, AllWhole, RestWhole, ZlpDue, Possible, MovesAll, Drained, Outcome;
    NextZlp(start, epSize);
    if size != 0 {
      DrainedZlp(Started(size, short, false), behaviour, epSize);
    }
  }

  lemma WholeNone(epSize: nat)
    requires epSize > 0
    ensures Whole(0, epSize)
  {
  }

  lemma ChunkEnds(trip: Trip, nbTrans: nat, bufSize: nat, dma: DmaControl, left: nat, epSize: nat)
    requires epSize > 0 && Moving(trip, nbTrans, bufSize, dma) && left <= trip.Last().len
    ensures var r := ByteCount(left); var t := ChunkOver(trip, left);
            && r <= nbTrans && t.chunks == trip.chunks && t.asked == bufSize
            && (if r != 0 then Between(t, nbTrans - r, nbTrans - r)
                else Between(t, nbTrans, bufSize) && nbTrans == ChunksEnd(t.chunks))
            && ZlpDue(t, epSize) == ZlpDue(trip, epSize)
  {
    hide AllWhole;
  }

  lemma TransferEnds(s: State, size: nat)
    requires Good(s) && s.job.Transfer?
    ensures s.job.id < |s.accepted|
    ensures Next(s, EndStep(size)) == Finished(s, size) && Good(Finished(s, size))
  {
    assert Good(Next(s, EndStep(size))) by {
      GoodNext(s, EndStep(size));
    }
  }

  // A halt is refused only while a transfer is on: a busy endpoint that is not running holds a waiter.
  lemma JobFits(s: State)
    requires Good(s)
    ensures s.job.Transfer? ==> s.mode == Running
    ensures s.job.Waiter? ==> s.mode != Running
  {
  }

  lemma ChunkAdded(chunks: seq<Chunk>, len: nat)
    requires Contiguous(chunks) && 0 < len <= UDD_ENDPOINT_MAX_TRANS
    ensures var t := chunks + [Chunk(ChunksEnd(chunks), len)];
            Contiguous(t) && ChunksEnd(t) == ChunksEnd(chunks) + len
  {
    var t := chunks + [Chunk(ChunksEnd(chunks), len)];
    forall i | 0 <= i < |t|
      ensures t[i].off == ChunksEnd(t[..i])
    {
      assert t[..i] == chunks[..i];
      assert chunks[..|chunks|] == chunks;
    }
  }

  lemma WholeAdded(chunks: seq<Chunk>, len: nat, epSize: nat)
    requires epSize > 0
    ensures var t := chunks + [Chunk(ChunksEnd(chunks), len)];
            AllWhole(t, epSize) <==> AllWhole(chunks, epSize) && Whole(len, epSize)
  {
    hide Whole, ChunksEnd;
    var t := chunks + [Chunk(ChunksEnd(chunks), len)];
    assert t[|chunks|].len == len;
    if AllWhole(t, epSize) {
      forall i | 0 <= i < |chunks|
        ensures Whole(chunks[i].len, epSize)
      {
        assert t[i] == chunks[i];
      }
    }
  }

  lemma FieldFits(len: nat)
    requires 0 < len <= UDD_ENDPOINT_MAX_TRANS
    ensures FieldLength(LengthField(len)) == len && LengthField(len) == if len == 0x1_0000 then 0 else len
  {
  }

  // A request whose transfer is over at once is a request and the end of its transfer.
  lemma RunThenEnd(s: State, hasCallback: bool, size: nat)
    requires Accepts(s, RunStep(hasCallback, false, 0))
    ensures Next(s, RunStep(hasCallback, false, 0))
         == State(Running, Transfer(|s.accepted|), s.accepted + [TransferRequest(hasCallback)], s.log)
    ensures Next(Next(s, RunStep(hasCallback, false, 0)), EndStep(size)) == Next(s, RunStep(hasCallback, true, size))
  {
  }

  /** Contiguous chunks are disjoint and stay inside the buffer. */
  lemma {:induction false} ChunksDisjoint(chunks: seq<Chunk>, i: nat, j: nat)
    requires Contiguous(chunks) && i < j < |chunks|
    ensures chunks[i].off + chunks[i].len <= chunks[j].off
    ensures chunks[j].off + chunks[j].len <= ChunksEnd(chunks)
  {
    if j + 1 < |chunks| {
      var t := chunks[..|chunks| - 1];
      ContiguousPrefix(chunks);
      ChunksDisjoint(t, i, j);
    } else if i + 1 < j {
      ContiguousPrefix(chunks);
      ChunksDisjoint(chunks[..j], i, j - 1);
    }
  }

  lemma ContiguousPrefix(chunks: seq<Chunk>)
    requires Contiguous(chunks) && chunks != []
    ensures Contiguous(chunks[..|chunks| - 1])
    ensures ChunksEnd(chunks) == ChunksEnd(chunks[..|chunks| - 1]) + chunks[|chunks| - 1].len
  {
    var t := chunks[..|chunks| - 1];
    forall i | 0 <= i < |t|
      ensures t[i].off == ChunksEnd(t[..i])
    {
      assert t[..i] == chunks[..i];
    }
  }
}
