/**
 * Uploads over a channel that may lose any packet, to a receiver in any state, whose clock check
 * may fire at any moment and which other nodes may address at any moment.
 */
module FirmwareSafety {
  import opened ArtNetBytes
  import opened Firmware
  import opened FirmwareSession
  import opened FirmwareDelivery

  datatype Happening =
    | Arrive(memory: Memory, now: int)                   // the packet under way reaches the receiver
    | Answer(sent: bool, now: int)                       // the reply under way reaches the sender
    | Lose                                               // whatever is under way is lost
    | Check(now: int)                                    // check_timeouts at the receiver
    | Intrude(packet: Packet, memory: Memory, now: int)  // a packet from some other node

  function Happen(s: Session, me: Addr, h: Happening): (s': Session)
    requires s.Valid() && me != 0
    ensures s'.Valid()
  {
    match h
    case Arrive(memory, now) => if s.wire.Master? then DeliverMaster(s, memory, now) else s
    case Answer(sent, now) => if s.wire.Reply? then DeliverReply(s, me, sent, now) else s
    case Lose => s.(wire := Quiet)
    case Check(now) => s.(rx := CheckTimeouts(s.rx, now))
    case Intrude(packet, memory, now) =>
      if packet.from == 0 || packet.from == me then s
      else
        var r := Receive(s.rx, packet, memory, now);
        s.(rx := r.next, deliveries := s.deliveries + Log(packet.from, r.delivered))
  }

  function History(s: Session, me: Addr, hs: seq<Happening>): (s': Session)
    requires s.Valid() && me != 0
    ensures s'.Valid()
    decreases |hs|
  {
    if hs == [] then s else History(Happen(s, me, hs[0]), me, hs[1..])
  }

  /** The receiver's callbacks for uploads from me. */
  function Own(log: seq<(Addr, Delivery)>, me: Addr): (own: seq<Delivery>)
    ensures forall i :: 0 <= i < |log| && log[i].0 == me ==> log[i].1 in own
  {
    if log == [] then [] else (if log[0].0 == me then [log[0].1] else []) + Own(log[1..], me)
  }

  lemma {:induction false} OwnAppend(log: seq<(Addr, Delivery)>, more: seq<(Addr, Delivery)>, me: Addr)
    ensures Own(log + more, me) == Own(log, me) + Own(more, me)
  {
    if log == [] {
      assert log + more == more;
    } else {
      assert (log + more)[1..] == log[1..] + more;
      OwnAppend(log[1..], more, me);
    }
  }

  /** The coupling of the two ends while packet k, or the answer to it, is the last one sent. */
  ghost predicate CoupledAt(s: Session, image: seq<word>, ubea: bool, me: Addr, k: nat)
    requires 2 * |image| < 0x8000_0000
  {
    var own := Own(s.deliveries, me);
    s.Valid() && me != 0 &&
    (own == [] || own == [Delivery(ubea, image, ReportedLength(image))]) &&
    |s.outcomes| <= 1 && (AllGood in s.outcomes ==> own != []) &&
    (!s.wire.Quiet? ==> s.outcomes == [] && SenderAt(s.tx, image, ubea, k + 1) && k < Blocks(image)) &&
    match s.wire
    case Quiet => true
    case Master(p) =>
      own == [] && p == BlockPacket(image, ubea, me, k) &&
      (k > 0 && s.rx.peer == me ==> Holds(s.rx, image, ubea, me, k))
    case Reply(status) =>
      (status == AllGood <==> own != []) &&
      (status == BlockGood && s.rx.peer == me ==> Holds(s.rx, image, ubea, me, k + 1))
  }

  ghost predicate Coupled(s: Session, image: seq<word>, ubea: bool, me: Addr)
    requires 2 * |image| < 0x8000_0000
  {
    exists k: nat :: CoupledAt(s, image, ubea, me, k)
  }

  /** While an upload is in progress, a packet from anyone else is refused and changes nothing. */
  lemma OthersRefused(s: Receiver, p: Packet, memory: Memory, now: int)
    requires s.Valid() && p.from != 0 && s.peer != 0 && p.from != s.peer
    ensures Receive(s, p, memory, now) == Reaction(s, Some(Fail), None)
  {
  }

  /** A continuation or final packet that does not belong to the upload in progress is refused. */
  lemma StrayRefused(s: Receiver, p: Packet, memory: Memory, now: int)
    requires s.Valid() && p.from != 0 && p.from != s.peer && p.kind != FIRM_FIRST && p.kind != UBEA_FIRST
    ensures Receive(s, p, memory, now) == Reaction(s, Some(Fail), None)
  {
  }

  lemma CoupledArrive(s: Session, image: seq<word>, ubea: bool, me: Addr, k: nat, memory: Memory, now: int)
    requires 2 * |image| < 0x8000_0000 && CoupledAt(s, image, ubea, me, k) && s.wire.Master?
    ensures CoupledAt(DeliverMaster(s, memory, now), image, ubea, me, k)
  {
    var r := Receive(s.rx, s.wire.packet, memory, now);
    OwnAppend(s.deliveries, Log(me, r.delivered), me);
    assert k > 0 ==> s.wire.packet.kind != FIRM_FIRST && s.wire.packet.kind != UBEA_FIRST;
    if k == 0 {
      ArriveFirst(s.rx, image, ubea, me, memory, now);
    } else if s.rx.peer != me {
      StrayRefused(s.rx, s.wire.packet, memory, now);
    } else if BYTES_PER_BLOCK * (k + 1) <= 2 * |image| {
      ContAccepted(s.rx, image, ubea, me, k, memory, now);
    } else {
      LastAccepted(s.rx, image, ubea, me, k, memory, now);
      assert k + 1 == Blocks(image);
    }
  }

  /** Block 0 at a receiver in any state: refused, out of memory, or accepted. */
  lemma ArriveFirst(rx: Receiver, image: seq<word>, ubea: bool, me: Addr, memory: Memory, now: int)
    requires 2 * |image| < 0x8000_0000 && rx.Valid() && me != 0
    ensures var r := Receive(rx, BlockPacket(image, ubea, me, 0), memory, now);
      (rx.peer != 0 ==> r == Reaction(rx, Some(Fail), None)) &&
      (rx.peer == 0 && memory.None? ==> r.reply == None && r.delivered == None) &&
      (rx.peer == 0 && memory.Some? ==>
        Holds(r.next, image, ubea, me, 1) &&
        (r.reply, r.delivered) ==
          if 2 * |image| <= BYTES_PER_BLOCK
          then (Some(AllGood), Some(Delivery(ubea, image, 2 * |image|)))
          else (Some(BlockGood), None))
  {
    if rx.peer == 0 && memory.Some? {
      FirstAccepted(rx, image, ubea, me, memory, now);
    }
  }

  lemma CoupledAnswer(s: Session, image: seq<word>, ubea: bool, me: Addr, k: nat, sent: bool, now: int)
    requires 2 * |image| < 0x8000_0000 && CoupledAt(s, image, ubea, me, k) && s.wire.Reply?
    ensures CoupledAt(DeliverReply(s, me, sent, now), image, ubea, me, k + 1)
  {
    hide Holds, BlockPacket, NextPacket;
    SenderAdvances(s.tx, image, ubea, me, k + 1, now);
  }

  /** A packet from another node leaves an upload from me alone, and does not begin one. */
  lemma IntruderStays(rx: Receiver, me: Addr, p: Packet, memory: Memory, now: int)
    requires rx.Valid() && p.from != 0 && p.from != me && me != 0
    ensures var rx' := Receive(rx, p, memory, now).next; rx'.peer == me ==> rx' == rx
  {
    hide AnnouncedLength;
  }

  lemma CoupledIntrude(s: Session, image: seq<word>, ubea: bool, me: Addr, k: nat, p: Packet, memory: Memory, now: int)
    requires 2 * |image| < 0x8000_0000 && CoupledAt(s, image, ubea, me, k) && p.from != 0 && p.from != me
    ensures CoupledAt(Happen(s, me, Intrude(p, memory, now)), image, ubea, me, k)
  {
    var r := Receive(s.rx, p, memory, now);
    OwnAppend(s.deliveries, Log(p.from, r.delivered), me);
    assert Own(Log(p.from, r.delivered), me) == [];
    IntruderStays(s.rx, me, p, memory, now);
    hide BlockPacket, Receive, Own, Holds, SenderAt, Log;
  }

  lemma CoupledNext(s: Session, image: seq<word>, ubea: bool, me: Addr, k: nat, h: Happening)
    requires 2 * |image| < 0x8000_0000 && CoupledAt(s, image, ubea, me, k) && me != 0
    ensures Coupled(Happen(s, me, h), image, ubea, me)
  {
    var s' := Happen(s, me, h);
    match h {
      case Arrive(memory, now) =>
        if s.wire.Master? {
          CoupledArrive(s, image, ubea, me, k, memory, now);
        }
        assert CoupledAt(s', image, ubea, me, k);
      case Answer(sent, now) =>
        if s.wire.Reply? {
          CoupledAnswer(s, image, ubea, me, k, sent, now);
          assert CoupledAt(s', image, ubea, me, k + 1);
        }
      case Lose => assert CoupledAt(s', image, ubea, me, k);
      case Check(_) => assert CoupledAt(s', image, ubea, me, k);
      case Intrude(p, memory, now) =>
        if p.from != 0 && p.from != me {
          CoupledIntrude(s, image, ubea, me, k, p, memory, now);
        }
        assert CoupledAt(s', image, ubea, me, k);
    }
  }

  lemma {:induction false} CoupledRun(s: Session, image: seq<word>, ubea: bool, me: Addr, hs: seq<Happening>)
    requires 2 * |image| < 0x8000_0000 && s.Valid() && me != 0 && Coupled(s, image, ubea, me)
    ensures Coupled(History(s, me, hs), image, ubea, me)
    decreases |hs|
  {
    hide CoupledAt, Happen;
    if hs != [] {
      var k: nat :| CoupledAt(s, image, ubea, me, k);
      CoupledNext(s, image, ubea, me, k, hs[0]);
      CoupledRun(Happen(s, me, hs[0]), image, ubea, me, hs[1..]);
    }
  }

  /**
   * Safety under loss. Whatever is lost, whenever the receiver's clock check fires, whatever other
   * nodes send and whatever state the receiver starts in: a receiver callback for this upload
   * hands over exactly the sender's image and reported length, it is made at most once, the
   * sender's callback is made at most once, and the sender is told ALLGOOD only if the receiver's
   * callback has been made.
   */
  lemma UploadSafe(image: seq<word>, ubea: bool, me: Addr, rx: Receiver, sentAt: int, hs: seq<Happening>)
    requires 2 * |image| < 0x8000_0000 && rx.Valid() && me != 0
    ensures var s := History(Begin(image, ubea, me, rx, sentAt), me, hs);
      var own := Own(s.deliveries, me);
      (own == [] || own == [Delivery(ubea, image, ReportedLength(image))]) &&
      |s.outcomes| <= 1 && (AllGood in s.outcomes ==> own != [])
  {
    var s := Begin(image, ubea, me, rx, sentAt);
    assert CoupledAt(s, image, ubea, me, 0) by {
      hide NextPacket;
      SenderAdvances(Start(image, ubea), image, ubea, me, 0, sentAt);
    }
    CoupledRun(s, image, ubea, me, hs);
    hide Begin, Happen, History;
  }

  // ----- packet streams at one receiver

  /** A packet as it arrives, with malloc's answer and the clock at that moment. */
  datatype Arrival = Arrival(packet: Packet, memory: Memory, now: int)

  predicate Sourced(stream: seq<Arrival>) {
    forall i :: 0 <= i < |stream| ==> stream[i].packet.from != 0
  }

  function Feed(s: Receiver, stream: seq<Arrival>): (s': Receiver)
    requires s.Valid() && Sourced(stream)
    ensures s'.Valid()
    decreases |stream|
  {
    if stream == [] then s
    else Feed(Receive(s, stream[0].packet, stream[0].memory, stream[0].now).next, stream[1..])
  }

  function Only(stream: seq<Arrival>, peer: Addr): (r: seq<Arrival>)
    ensures Sourced(stream) ==> Sourced(r)
  {
    if stream == [] then []
    else (if stream[0].packet.from == peer then [stream[0]] else []) + Only(stream[1..], peer)
  }

  /** The upload from peer is still in progress when each packet of the stream arrives. */
  predicate Busy(s: Receiver, peer: Addr, stream: seq<Arrival>)
    requires s.Valid() && Sourced(stream)
    decreases |stream|
  {
    s.peer == peer &&
    (stream != [] ==> Busy(Receive(s, stream[0].packet, stream[0].memory, stream[0].now).next, peer, stream[1..]))
  }

  /** As long as an upload lasts, the state is a function of the uploader's own packets alone. */
  lemma {:induction false} Noninterference(s: Receiver, peer: Addr, stream: seq<Arrival>)
    requires s.Valid() && Sourced(stream) && peer != 0 && Busy(s, peer, Only(stream, peer))
    ensures Busy(s, peer, stream)
    ensures Feed(s, stream) == Feed(s, Only(stream, peer))
    decreases |stream|
  {
    hide Receive;
    if stream != [] {
      var a := stream[0];
      var only := Only(stream, peer);
      if a.packet.from == peer {
        assert only[0] == a && only[1..] == Only(stream[1..], peer);
        Noninterference(Receive(s, a.packet, a.memory, a.now).next, peer, stream[1..]);
      } else {
        assert only == Only(stream[1..], peer);
        OthersRefused(s, a.packet, a.memory, a.now);
        Noninterference(s, peer, stream[1..]);
      }
    }
  }
}
