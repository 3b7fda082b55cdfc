/** The IN data phase of a control transfer in usbb_device.c: payload buffers, possibly supplied one after the
    other by a callback, are cut into packets of the control endpoint's size (section 5.5.3 of USB 2.0). */
module UsbControl {
  import opened Arith
  import opened Bytes

  const USHORT: nat := 0x1_0000

  datatype CtrlState = Setup | DataIn | HandshakeWaitInZlp | HandshakeWaitOutZlp

  predicate Aligned(n: nat, size: nat)
    requires size > 0
  {
    n % size == 0
  }

  // What a sequence of payload buffers delivers: the first buffer that does not fill its last packet ends
  // the phase, so nothing after it is sent.
  function Deliverable(buffers: seq<seq<byte>>, size: nat): seq<byte>
    requires size > 0
  {
    if buffers == [] then []
    else if !Aligned(|buffers[0]|, size) then buffers[0]
    else buffers[0] + Deliverable(buffers[1..], size)
  }

  // All packets but the last are full, and none is larger.
  ghost predicate Framed(packets: seq<seq<byte>>, size: nat) {
    && (forall i :: 0 <= i < |packets| - 1 ==> |packets[i]| == size)
    && (packets != [] ==> |packets[|packets| - 1]| <= size)
  }

  predicate EndsShort(packets: seq<seq<byte>>, size: nat) {
    packets != [] && |packets[|packets| - 1]| < size
  }

  // As much of some bytes as fits a packet.
  function Head(s: seq<byte>, size: nat): seq<byte> { s[..Min(|s|, size)] }

  // The first packet of a request: an empty buffer is passed over if another follows.
  function FirstPacket(first: seq<byte>, more: seq<seq<byte>>, size: nat): seq<byte> {
    if first != [] || more == [] then Head(first, size) else Head(more[0], size)
  }

  // A data phase: the variables of udd_ctrl_in_sent, the packets sent so far, and all payload buffers, of
  // which the current one is number used.
  datatype Phase = Phase(size: nat, wLength: nat, payload: seq<byte>, supply: seq<seq<byte>>, prev: nat, sent: nat,
                         shortPacket: bool, packets: seq<seq<byte>>, buffers: seq<seq<byte>>, used: nat) {
    // Bytes in the buffers before the current one.
    function Before(): seq<byte>
      requires used <= |buffers|
    {
      Flatten(buffers[..used])
    }

    // The test at the top of udd_ctrl_in_sent.
    predicate Over() { sent == |payload| && ((prev + sent) % USHORT == wLength || shortPacket) }

    // The packet that follows if the phase is not over: from the next buffer, if this one is used up and there is
    // another, and otherwise from this one.
    function Next(): seq<byte>
      requires sent <= |payload|
    {
      if sent < |payload| || supply == [] then Head(payload[sent..], size) else Head(supply[0], size)
    }

    // The standard's test: all bytes requested, or a packet shorter than the endpoint's size.
    ghost predicate Complete() { |Flatten(packets)| == wLength || EndsShort(packets, size) }
  }

  // The current buffer and those to come are the rest of all buffers, which fit the requested length.
  ghost predicate Placed(size: nat, wLength: nat, payload: seq<byte>, supply: seq<seq<byte>>,
                         buffers: seq<seq<byte>>, used: nat)
  {
    && size > 0 && used < |buffers| && payload == buffers[used] && supply == buffers[used + 1..]
    && |Flatten(buffers)| <= wLength < USHORT
    && (forall i :: 0 <= i < used ==> Aligned(|buffers[i]|, size))
    && (forall i :: 1 <= i < |buffers| ==> buffers[i] != [])
  }

  ghost predicate Buffered(p: Phase) {
    && Placed(p.size, p.wLength, p.payload, p.supply, p.buffers, p.used)
    && p.sent <= |p.payload|
    && Flatten(p.packets) == p.Before() + p.payload[..p.sent]
  }

  // Only full packets so far, and the next one may follow.
  ghost predicate Continuing(p: Phase) {
    && Buffered(p) && Aligned(p.sent, p.size) && p.prev == |p.Before()|
    && (forall i :: 0 <= i < |p.packets| ==> |p.packets[i]| == p.size)
    && (p.packets != [] ==> !p.shortPacket)
  }

  // The last packet was short or empty, and it was the last of its buffer; an empty one has more asked for.
  ghost predicate Short(p: Phase) {
    && Buffered(p) && Framed(p.packets, p.size) && EndsShort(p.packets, p.size) && p.shortPacket
    && p.sent == |p.payload| && (p.supply == [] || !Aligned(|p.payload|, p.size))
    && (p.packets[|p.packets| - 1] == [] ==> |Flatten(p.packets)| < p.wLength)
  }

  ghost predicate Sending(p: Phase) {
    p.packets != [] && (Continuing(p) || Short(p))
  }

  class ControlIn {
    const size: nat  // USB_DEVICE_EP_CTRL_SIZE

    var state: CtrlState
    var wLength: nat
    var payload: seq<byte>
    var supply: seq<seq<byte>>  // what the over_under_run callback will deliver, until it fails
    var prevTrans: nat          // udd_ctrl_prev_payload_nb_trans
    var payloadTrans: nat       // udd_ctrl_payload_nb_trans
    var shortPacket: bool       // the static variable of udd_ctrl_in_sent

    ghost var packets: seq<seq<byte>>
    ghost var buffers: seq<seq<byte>>
    ghost var used: nat

    ghost function DataPhase(): Phase
      reads this
    {
      Phase(size, wLength, payload, supply, prevTrans, payloadTrans, shortPacket, packets, buffers, used)
    }

    ghost predicate Valid()
      reads this
    {
      size > 0 && (state == DataIn ==> Sending(DataPhase()))
    }

    constructor (size: nat)
      requires size > 0
      ensures Valid() && state == Setup && !shortPacket && this.size == size
    {
      this.size, state, shortPacket := size, Setup, false;
    }

    // udd_ctrl_setup_received for an IN request, after udc_process_setup has set the payload and the callback
    method SetupIn(length: nat, first: seq<byte>, more: seq<seq<byte>>, outReceived: bool)
      requires Valid() && length < 0x1_0000 && |Flatten([first] + more)| <= length
      requires forall i :: 0 <= i < |more| ==> more[i] != []
      modifies this
      ensures Valid() && buffers == [first] + more && wLength == length
      ensures var ended := first == [] && (length == 0 || old(shortPacket));
              && (ended || outReceived ==> state == HandshakeWaitOutZlp && packets == [])
              && (!ended && !outReceived ==> state == DataIn && packets == [FirstPacket(first, more, size)])
              && (shortPacket <==> if ended then old(shortPacket) else |FirstPacket(first, more, size)| < size)
    {
      hide Continuing, Sending, Flatten, Phase.Next, Phase.Over, FirstPacket;
      wLength, payload, supply := length, first, more;
      prevTrans, payloadTrans, state := 0, 0, DataIn;
      packets, buffers, used := [], [first] + more, 0;
      PhaseStarts(DataPhase());
      SendNext(outReceived);
    }

    // udd_ctrl_in_sent: the host has taken the last packet
    method InSent(outReceived: bool)
      requires Valid() && (state == DataIn || state == HandshakeWaitInZlp)
      modifies this
      ensures Valid() && buffers == old(buffers) && wLength == old(wLength)
      ensures old(state) == HandshakeWaitInZlp ==> state == Setup
      ensures old(state) == DataIn ==> (
        var done := old(DataPhase()).Complete();
        && (done ==> state == HandshakeWaitOutZlp && packets == old(packets))
        && (done ==> Flatten(packets) == Deliverable(buffers, size) && Framed(packets, size))
        && (!done && outReceived ==> state == HandshakeWaitOutZlp && packets == old(packets))
        && (!done && !outReceived ==> state == DataIn && packets == old(packets) + [old(DataPhase()).Next()])
        && (shortPacket <==> if done then EndsShort(packets, size) else |old(DataPhase()).Next()| < size))
      ensures old(state) == HandshakeWaitInZlp ==> shortPacket == old(shortPacket)
    {
      hide Continuing, Short, Framed;
      if state == HandshakeWaitInZlp {
        state := Setup;
        return;
      }
      OverIffComplete(DataPhase());
      if DataPhase().Over() {
        PhaseDelivers(DataPhase());
      }
      SendNext(outReceived);
    }

    // udd_ctrl_out_received outside of an OUT data phase: the request is over, or was aborted
    method OutReceived()
      requires Valid()
      modifies `state
      ensures Valid() && state == Setup
    {
      state := Setup;
    }

    /** A whole request of a host that takes every packet and then ends the request. The host receives what the
        buffers deliver, in as many packets as that takes, with an empty one exactly if nothing else shows the end. No
        packet at all is sent exactly if the first buffer is empty and either no bytes were requested or the packet
        that was prepared last before the request was short. */
    method Request(length: nat, first: seq<byte>, more: seq<seq<byte>>)
      requires Valid() && length < 0x1_0000 && |Flatten([first] + more)| <= length
      requires forall i :: 0 <= i < |more| ==> more[i] != []
      modifies this
      ensures Valid() && state == Setup
      ensures packets == [] <==> first == [] && (length == 0 || old(shortPacket))
      ensures packets == [] ==> shortPacket == old(shortPacket)
      ensures packets != [] ==>
        && Flatten(packets) == Deliverable([first] + more, size) && Framed(packets, size)
        && |packets| == PacketCount(|Flatten(packets)|, length, size)
        && (shortPacket <==> EndsShort(packets, size))
    {
      hide Flatten, Deliverable, Framed, Sending, Phase.Complete, Phase.Next, FirstPacket, PacketCount;
      SetupIn(length, first, more, false);
      while state == DataIn
        invariant Valid() && buffers == [first] + more && wLength == length
        invariant state == DataIn || state == HandshakeWaitOutZlp
        invariant state == DataIn ==> packets != []
        invariant packets == [] <==> first == [] && (length == 0 || old(shortPacket))
        invariant packets == [] ==> shortPacket == old(shortPacket)
        invariant state != DataIn && packets != [] ==>
            && Flatten(packets) == Deliverable([first] + more, size) && Framed(packets, size)
            && |packets| == PacketCount(|Flatten(packets)|, length, size)
            && (shortPacket <==> EndsShort(packets, size))
        decreases if state == DataIn then length + 2 - |packets| else 0
      {
        PacketsCounted(DataPhase());
        InSent(false);
      }
      OutReceived();
    }

    // A request, and one whose first buffer is empty: the second is sent no packet exactly if nothing is asked for or
    // the first ended short.
    method EmptyAfter(length: nat, first: seq<byte>, more: seq<seq<byte>>, length': nat, more': seq<seq<byte>>)
      returns (ghost sent: seq<seq<byte>>)
      requires Valid() && length < 0x1_0000 && |Flatten([first] + more)| <= length && first != []
      requires length' < 0x1_0000 && |Flatten([[]] + more')| <= length'
      requires forall i :: 0 <= i < |more| ==> more[i] != []
      requires forall i :: 0 <= i < |more'| ==> more'[i] != []
      modifies this
      ensures Valid() && Flatten(sent) == Deliverable([first] + more, size) && Framed(sent, size)
      ensures packets == [] <==> length' == 0 || EndsShort(sent, size)
    {
      hide Flatten, Deliverable, Framed, PacketCount, Sending;
      Request(length, first, more);
      sent := packets;
      Request(length', [], more');
    }

    // The same after a request that the host aborts before its first packet: what counts is the packet not sent.
    method EmptyAfterAbort(length: nat, first: seq<byte>, length': nat, more': seq<seq<byte>>)
      returns (ghost sent: seq<seq<byte>>)
      requires Valid() && |first| <= length < 0x1_0000 && first != []
      requires length' < 0x1_0000 && |Flatten([[]] + more')| <= length'
      requires forall i :: 0 <= i < |more'| ==> more'[i] != []
      modifies this
      ensures Valid() && sent == [] && (packets == [] <==> length' == 0 || |first| < size)
    {
      FlattenOne(first);
      hide Flatten, Deliverable, Framed, PacketCount, Sending;
      SetupIn(length, first, [], true);
      sent := packets;
      OutReceived();
      Request(length', [], more');
    }

    // The part of udd_ctrl_in_sent for the data phase.
    method SendNext(outReceived: bool)
      requires state == DataIn && size > 0 && payloadTrans <= |payload|
      requires DataPhase().Over() || Continuing(DataPhase())
      modifies `state, `prevTrans, `payload, `supply, `payloadTrans, `shortPacket, `packets, `used
      ensures state == DataIn ==> Sending(DataPhase())
      ensures old(DataPhase().Over()) || outReceived ==> state == HandshakeWaitOutZlp && packets == old(packets)
      ensures !old(DataPhase().Over()) && !outReceived ==>
        state == DataIn && packets == old(packets) + [old(DataPhase().Next())]
      ensures shortPacket <==> if old(DataPhase().Over()) then old(shortPacket) else |old(DataPhase().Next())| < size
    {
      hide Continuing, Sending, Filled;
      ghost var before := DataPhase();
      if !before.Over() {
        PacketSent(before);
      }
      if |payload| == payloadTrans {
        var over := EndOfBuffer();
        if over {
          return;
        }
      }
      NextFilled(before);
      SendPacket(outReceived);
    }

    // The current buffer is sent: the phase ends, or the callback supplies another buffer, or a zero-length
    // packet will follow.
    method EndOfBuffer() returns (over: bool)
      requires state == DataIn && payloadTrans == |payload|
      requires DataPhase().Over() || prevTrans + payloadTrans < USHORT
      modifies `state, `prevTrans, `payload, `supply, `payloadTrans, `used
      ensures over == old(DataPhase().Over())
      ensures over ==> state == HandshakeWaitOutZlp
      ensures !over ==> state == DataIn && DataPhase() == Switched(old(DataPhase()))
    {
      prevTrans := (prevTrans + payloadTrans) % USHORT;
      if wLength == prevTrans || shortPacket {
        state := HandshakeWaitOutZlp;
        return true;
      }
      if supply != [] {
        payload, supply := supply[0], supply[1..];
        payloadTrans, used := 0, used + 1;
      }
      over := false;
    }

    // The next packet, unless an OUT packet of the host aborts the phase.
    method SendPacket(outReceived: bool)
      requires state == DataIn && size > 0 && payloadTrans <= |payload|
      modifies `state, `payloadTrans, `shortPacket, `packets
      ensures shortPacket == Filled(old(DataPhase())).shortPacket
      ensures outReceived ==> state == HandshakeWaitOutZlp && packets == old(packets)
      ensures !outReceived ==> state == DataIn && DataPhase() == Filled(old(DataPhase()))
    {
      var nbRemain: nat := |payload| - payloadTrans;
      if nbRemain >= size {
        nbRemain, shortPacket := size, false;
      } else {
        shortPacket := true;
      }
      if outReceived {
        state := HandshakeWaitOutZlp;
        return;
      }
      var packet := FillBank(payload, payloadTrans, nbRemain);
      packets := packets + [packet];
      payloadTrans := payloadTrans + nbRemain;
    }
  }

  // The copy into the endpoint's memory.
  method FillBank(payload: seq<byte>, from: nat, n: nat) returns (packet: seq<byte>)
    requires from + n <= |payload|
    ensures packet == payload[from..from + n]
  {
    packet := [];
    var i := 0;
    while i < n
      invariant 0 <= i <= n && packet == payload[from..from + i]
    {
      packet := packet + [payload[from + i]];
      i := i + 1;
    }
  }

  // A phase with its next buffer, if the current one is used up and another is supplied.
  function Switched(p: Phase): Phase {
    if p.sent != |p.payload| then p
    else if p.supply == [] then p.(prev := p.prev + p.sent)
    else p.(payload := p.supply[0], supply := p.supply[1..], sent := 0, used := p.used + 1, prev := p.prev + p.sent)
  }

  // A phase after one more packet: what is left of the buffer, up to the packet size.
  function Filled(q: Phase): Phase
    requires q.sent <= |q.payload|
  {
    var n := Min(|q.payload| - q.sent, q.size);
    q.(sent := q.sent + n, shortPacket := n < q.size, packets := q.packets + [q.payload[q.sent..q.sent + n]])
  }

  function Sent(p: Phase): Phase
    requires p.sent <= |p.payload|
  {
    Filled(Switched(p))
  }

  // The packet that a phase goes on with, whether it is sent or the host aborts the phase before.
  lemma NextFilled(p: Phase)
    requires p.sent <= |p.payload|
    ensures Sent(p).packets == p.packets + [p.Next()] && (Sent(p).shortPacket <==> |p.Next()| < p.size)
  {
    var q := Switched(p);
    var n := Min(|q.payload| - q.sent, q.size);
    assert q.payload[q.sent..q.sent + n] == Head(q.payload[q.sent..], q.size);
    assert q.payload[0..] == q.payload;
  }

  // Packets for some bytes of a request: full ones, and a last one that is short, or empty if more was asked for.
  function PacketCount(n: nat, wLength: nat, size: nat): nat
    requires size > 0
  {
    n / size + if Aligned(n, size) && n == wLength then 0 else 1
  }

  // ------------------------------------------------------------------ buffers

  lemma FlattenNext(buffers: seq<seq<byte>>, used: nat)
    requires used < |buffers|
    ensures Flatten(buffers[..used + 1]) == Flatten(buffers[..used]) + buffers[used]
  {
    assert buffers[..used + 1][..used] == buffers[..used];
  }

  lemma {:induction false} FlattenPrefix(buffers: seq<seq<byte>>, k: nat)
    requires k <= |buffers|
    ensures |Flatten(buffers[..k])| <= |Flatten(buffers)|
    decreases |buffers|
  {
    if k < |buffers| {
      var t := buffers[..|buffers| - 1];
      FlattenPrefix(t, k);
      assert t[..k] == buffers[..k];
    } else {
      assert buffers[..k] == buffers;
    }
  }

  // Buffers up to the first unaligned one are delivered whole.
  lemma {:induction false} DeliverPrefix(buffers: seq<seq<byte>>, used: nat, size: nat)
    requires size > 0 && used <= |buffers|
    requires forall i :: 0 <= i < used ==> Aligned(|buffers[i]|, size)
    ensures Deliverable(buffers, size) == Flatten(buffers[..used]) + Deliverable(buffers[used..], size)
  {
    hide Aligned;
    if used == 0 {
      assert buffers[0..] == buffers;
    } else {
      DeliverPrefix(buffers, used - 1, size);
      FlattenNext(buffers, used - 1);
      assert buffers[used - 1..][0] == buffers[used - 1] && buffers[used - 1..][1..] == buffers[used..];
    }
  }

  // ------------------------------------------------------------------ the phase

  lemma PhaseStarts(p: Phase)
    requires p.size > 0 && p.packets == [] && p.sent == p.prev == p.used == 0
    requires p.buffers == [p.payload] + p.supply && |Flatten(p.buffers)| <= p.wLength < USHORT
    requires forall i :: 0 <= i < |p.supply| ==> p.supply[i] != []
    ensures Continuing(p) && p.Next() == FirstPacket(p.payload, p.supply, p.size)
    ensures p.Over() <==> p.payload == [] && (p.wLength == 0 || p.shortPacket)
  {
    AlignedNone(p.size);
    ModSmall(0, USHORT);
    hide Aligned;
    assert p.payload[0..] == p.payload;
    assert p.buffers[..0] == [];
    assert p.buffers[1..] == p.supply;
    forall i | 1 <= i < |p.buffers|
      ensures p.buffers[i] != []
    {
      assert p.buffers[i] == p.supply[i - 1];
    }
  }

  lemma FlattenOne(buffer: seq<byte>)
    ensures Flatten([buffer] + []) == buffer
  {
    assert [buffer] + [] == [buffer] && [buffer][..0] == [];
  }

  lemma AlignedNone(size: nat)
    requires size > 0
    ensures Aligned(0, size)
  {
  }

  lemma AlignedNext(n: nat, size: nat)
    requires size > 0 && Aligned(n, size)
    ensures Aligned(n + size, size)
  {
    QuotBounds(n, size);
    DivUnique(n + size, n / size + 1, size, 0);
  }

  lemma AlignedRest(n: nat, r: nat, size: nat)
    requires size > 0
    requires Aligned(n, size) && 0 < r < size
    ensures !Aligned(n + r, size)
  {
    QuotBounds(n, size);
    DivUnique(n + r, n / size, size, r);
  }

  // Bytes sent so far, and their bound.
  lemma Counts(p: Phase)
    requires Buffered(p)
    ensures |Flatten(p.packets)| == |p.Before()| + p.sent
    ensures |p.Before()| + |p.payload| <= p.wLength
    ensures p.supply != [] ==> |p.Before()| + |p.payload| < p.wLength
  {
    hide Aligned;
    FlattenNext(p.buffers, p.used);
    FlattenPrefix(p.buffers, p.used + 1);
    if p.supply != [] {
      FlattenNext(p.buffers, p.used + 1);
      FlattenPrefix(p.buffers, p.used + 2);
    }
  }

  /** The firmware ends the phase exactly when the standard says that it is complete. */
  lemma OverIffComplete(p: Phase)
    requires Sending(p)
    ensures p.Over() <==> p.Complete()
    ensures !p.Over() ==> Continuing(p)
    ensures p.shortPacket <==> EndsShort(p.packets, p.size)
    ensures p.size > 0 && p.sent <= |p.payload|
  {
    hide Buffered, Aligned, Flatten;
    assert Buffered(p);
    Counts(p);
    if Continuing(p) {
      assert |p.packets[|p.packets| - 1]| == p.size;
    }
    Within(p);
  }

  lemma Within(p: Phase)
    requires Buffered(p)
    ensures p.sent <= |p.payload| && p.wLength < USHORT && p.size > 0
  {
  }

  /** A phase that ends has sent, in full packets and a last one, all that the buffers deliver. */
  lemma PhaseDelivers(p: Phase)
    requires Sending(p) && p.Over()
    ensures Flatten(p.packets) == Deliverable(p.buffers, p.size) && Framed(p.packets, p.size)
  {
    hide Aligned, Flatten;
    Counts(p);
    if Continuing(p) {
      assert p.supply == [];
    }
    DeliverPrefix(p.buffers, p.used, p.size);
    assert p.buffers[p.used..][0] == p.payload && p.buffers[p.used..][1..] == p.supply;
    assert p.payload[..|p.payload|] == p.payload;
  }

  lemma {:induction false} FullPackets(packets: seq<seq<byte>>, size: nat)
    requires forall i :: 0 <= i < |packets| ==> |packets[i]| == size
    ensures |Flatten(packets)| == |packets| * size
    decreases |packets|
  {
    if packets != [] {
      var before := packets[..|packets| - 1];
      assert forall i :: 0 <= i < |before| ==> before[i] == packets[i];
      FullPackets(before, size);
      MulSucc(|before|, size);
    }
  }

  // Packets sent are no more than the bytes requested allow, and exactly as many as needed when the phase is over.
  lemma PacketsCounted(p: Phase)
    requires Sending(p)
    ensures |p.packets| <= p.wLength + 1
    ensures p.Complete() ==> p.size > 0 && |p.packets| == PacketCount(|Flatten(p.packets)|, p.wLength, p.size)
  {
    hide Aligned, Flatten, Placed;
    Counts(p);
    InBuffers(p);
    var k := |p.packets| - 1;
    var before, last := p.packets[..k], p.packets[k];
    FullPackets(before, p.size);
    LastPacket(p.packets);
    MulMono(1, p.size, k);
    CountOf(k, |last|, p.wLength, p.size);
  }

  lemma LastPacket(packets: seq<seq<byte>>)
    requires packets != []
    ensures var k := |packets| - 1; |Flatten(packets)| == |Flatten(packets[..k])| + |packets[k]|
  {
  }

  lemma CountOf(k: nat, r: nat, wLength: nat, size: nat)
    requires size > 0 && r <= size
    ensures r < size && (r == 0 ==> k * size + r < wLength) ==> PacketCount(k * size + r, wLength, size) == k + 1
    ensures r == size && k * size + r == wLength ==> PacketCount(k * size + r, wLength, size) == k + 1
  {
    if r < size {
      DivUnique(k * size + r, k, size, r);
    } else {
      MulSucc(k, size);
      DivUnique((k + 1) * size, k + 1, size, 0);
    }
  }

  lemma NextPlaced(p: Phase)
    requires Buffered(p) && p.supply != [] && Aligned(|p.payload|, p.size)
    ensures Placed(p.size, p.wLength, p.supply[0], p.supply[1..], p.buffers, p.used + 1) && p.supply[0] != []
  {
    hide Aligned, Flatten;
    assert p.supply[0] == p.buffers[p.used + 1] && p.supply[1..] == p.buffers[p.used + 2..];
  }

  // Taking the next buffer.
  lemma SwitchedContinues(p: Phase)
    requires Continuing(p) && !p.Over() && p.sent == |p.payload| && p.supply != []
    ensures Continuing(Switched(p)) && Switched(p).payload != [] && Switched(p).sent == 0
  {
    NextPlaced(p);
    InBuffers(p);
    FlattenNext(p.buffers, p.used);
    AlignedNone(p.size);
    hide Aligned, Flatten, Placed;
    assert p.payload[..p.sent] == p.payload;
  }

  lemma InBuffers(p: Phase)
    requires Buffered(p)
    ensures p.size > 0 && p.used < |p.buffers| && p.payload == p.buffers[p.used]
    ensures p.supply != [] ==> p.used + 1 < |p.buffers|
  {
  }

  lemma PacketFits(p: Phase)
    requires Continuing(p) && p.sent < |p.payload|
    ensures Sending(Sent(p))
  {
    hide Aligned, Flatten, Placed;
    InBuffers(p);
    var n := Min(|p.payload| - p.sent, p.size);
    var packet := p.payload[p.sent..p.sent + n];
    FlattenSnoc(p.packets, packet);
    assert p.payload[..p.sent] + packet == p.payload[..p.sent + n];
    var t := Sent(p);
    assert t.packets == p.packets + [packet];
    assert Flatten(t.packets) == p.Before() + (p.payload[..p.sent] + packet);
    if n < p.size {
      AlignedRest(p.sent, n, p.size);
    } else {
      AlignedNext(p.sent, p.size);
    }
  }

  lemma ZlpFits(p: Phase)
    requires Continuing(p) && !p.Over() && p.sent == |p.payload| && p.supply == []
    ensures Sending(Sent(p))
  {
    InRange(p);
    Counts(p);
    FlattenSnoc(p.packets, []);
    hide Aligned, Flatten, Placed;
    InBuffers(p);
    assert p.payload[p.sent..p.sent] == [];
    assert Flatten(p.packets) + [] == Flatten(p.packets);
  }

  lemma InRange(p: Phase)
    requires Continuing(p)
    ensures p.size > 0 && p.sent <= |p.payload| && (p.prev + p.sent) % USHORT == p.prev + p.sent
  {
    hide Flatten, Aligned;
    Counts(p);
  }

  lemma SentSwitched(p: Phase)
    requires p.sent == |p.payload| && p.supply != [] && p.supply[0] != []
    ensures Sent(Switched(p)) == Sent(p)
  {
  }

  /** Every packet keeps the phase in order. */
  lemma PacketSent(p: Phase)
    requires Continuing(p) && !p.Over()
    ensures p.sent <= |p.payload| && Sending(Sent(p))
    ensures (p.prev + p.sent) % USHORT == p.prev + p.sent
  {
    hide Continuing, Sending, Sent, Buffered;
    InRange(p);
    if p.sent != |p.payload| {
      PacketFits(p);
    } else if p.supply != [] {
      SwitchedContinues(p);
      SentSwitched(p);
      PacketFits(Switched(p));
    } else {
      ZlpFits(p);
    }
  }
}
