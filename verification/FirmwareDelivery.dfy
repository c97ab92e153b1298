/**
 * Uploads over a channel that loses nothing. The receiver's clock check may run at any moment in
 * between, as it does before every read of the socket.
 */
module FirmwareDelivery {
  import opened ArtNetBytes
  import opened Firmware
  import opened FirmwareSession

  /** Deliver hands over whatever is under way; Tick is one run of check_timeouts at the receiver. */
  datatype Event = Deliver(now: int) | Tick(now: int)

  function Next(s: Session, me: Addr, memory: Memory, e: Event): (s': Session)
    requires s.Valid() && me != 0
    ensures s'.Valid()
  {
    match e
    case Tick(now) => s.(rx := CheckTimeouts(s.rx, now))
    case Deliver(now) =>
      match s.wire
      case Quiet => s
      case Master(_) => DeliverMaster(s, memory, now)
      case Reply(_) => DeliverReply(s, me, true, now)
  }

  function Run(s: Session, me: Addr, memory: Memory, es: seq<Event>): (s': Session)
    requires s.Valid() && me != 0
    ensures s'.Valid()
    decreases |es|
  {
    if es == [] then s else Run(Next(s, me, memory, es[0]), me, memory, es[1..])
  }

  function Deliveries(es: seq<Event>): nat {
    if es == [] then 0 else (if es[0].Deliver? then 1 else 0) + Deliveries(es[1..])
  }

  /** Until d more deliveries have happened, every clock check falls before the deadline. */
  predicate InTime(es: seq<Event>, deadline: int, d: int) {
    es == [] || d <= 0 ||
    match es[0]
    case Deliver(_) => InTime(es[1..], deadline, d - 1)
    case Tick(now) => now < deadline && InTime(es[1..], deadline, d)
  }

  /** The receiver recognises the final packet as final: it is the only one, or it is a short one. */
  predicate FinalRecognised(image: seq<word>) {
    2 * |image| <= BYTES_PER_BLOCK || 2 * |image| % BYTES_PER_BLOCK != 0
  }

  /** The length the callback is given: bytes for a one-packet upload, words for every other. */
  function ReportedLength(image: seq<word>): nat {
    if 2 * |image| <= BYTES_PER_BLOCK then 2 * |image| else |image|
  }

  /** Exactly one callback at each end, the receiver's with the sender's image and the length reported for it. */
  predicate Completed(s: Session, image: seq<word>, ubea: bool, me: Addr) {
    s.deliveries == [(me, Delivery(ubea, image, ReportedLength(image)))] && s.outcomes == [AllGood]
  }

  /** The session after j deliveries, when block 0 reached the receiver at time first. */
  ghost predicate Stage(s: Session, image: seq<word>, ubea: bool, me: Addr, first: int, j: nat)
    requires 2 * |image| < 0x8000_0000
  {
    var k := j / 2;
    s.Valid() && me != 0 &&
    if j >= 2 * Blocks(image) then
      Ended(s, image, ubea, me, first)
    else
      s.outcomes == [] && SenderAt(s.tx, image, ubea, k + 1) &&
      if j % 2 == 0 then
        s.wire == Master(BlockPacket(image, ubea, me, k)) && s.deliveries == [] &&
        if k == 0 then s.rx.peer == 0 else Holds(s.rx, image, ubea, me, k) && s.rx.lastTime == first
      else if k + 1 == Blocks(image) && FinalRecognised(image) then
        s.wire == Reply(AllGood) && s.deliveries == [(me, Delivery(ubea, image, ReportedLength(image)))]
      else
        s.wire == Reply(BlockGood) && s.deliveries == [] &&
        Holds(s.rx, image, ubea, me, k + 1) && s.rx.lastTime == first
  }

  ghost predicate Ended(s: Session, image: seq<word>, ubea: bool, me: Addr, first: int) {
    s.wire.Quiet? &&
    if FinalRecognised(image) then
      s.deliveries == [(me, Delivery(ubea, image, ReportedLength(image)))] &&
      s.outcomes == if image == [] then [] else [AllGood]
    else
      s.deliveries == [] && s.outcomes == [] &&
      Holds(s.rx, image, ubea, me, Blocks(image)) && s.rx.lastTime == first
  }

  /** Nothing of this upload can reach the receiver's callback any more. */
  ghost predicate Doomed(s: Session) {
    s.Valid() && s.rx.peer == 0 && s.deliveries == [] && AllGood !in s.outcomes &&
    match s.wire
    case Quiet => true
    case Reply(status) => status == Fail || (status == BlockGood && s.tx.current > 0)
    case Master(p) => p.kind != FIRM_FIRST && p.kind != UBEA_FIRST
  }

  lemma {:induction false} StageMaster(
    s: Session, image: seq<word>, ubea: bool, me: Addr, memory: Memory, first: int, k: nat, now: int)
    requires 2 * |image| < 0x8000_0000 && memory.Some? && k < Blocks(image)
    requires Stage(s, image, ubea, me, first, 2 * k) && (k == 0 ==> now == first)
    ensures Stage(DeliverMaster(s, memory, now), image, ubea, me, first, 2 * k + 1)
  {
    hide Holds, BlockPacket, Receive, CheckTimeouts, HandleReply;
    if k == 0 {
      FirstAccepted(s.rx, image, ubea, me, memory, now);
    } else if BYTES_PER_BLOCK * (k + 1) <= 2 * |image| {
      ContAccepted(s.rx, image, ubea, me, k, memory, now);
    } else {
      LastAccepted(s.rx, image, ubea, me, k, memory, now);
      ShortBlockIsLast(image, k);
      assert (2 * k + 1) / 2 == k;
    }
  }

  lemma ShortBlockIsLast(image: seq<word>, k: nat)
    requires 1 <= k < Blocks(image) && 2 * |image| < BYTES_PER_BLOCK * (k + 1)
    ensures k + 1 == Blocks(image) && FinalRecognised(image)
    ensures 2 * |image| > BYTES_PER_BLOCK
  {
    assert 2 * |image| == BYTES_PER_BLOCK * k + 2 * |image| % BYTES_PER_BLOCK;
  }

  lemma StageReply(s: Session, image: seq<word>, ubea: bool, me: Addr, first: int, k: nat, now: int)
    requires 2 * |image| < 0x8000_0000 && k < Blocks(image) && Stage(s, image, ubea, me, first, 2 * k + 1)
    ensures Stage(DeliverReply(s, me, true, now), image, ubea, me, first, 2 * k + 2)
  {
    hide Holds, BlockPacket, NextPacket;
    SenderAdvances(s.tx, image, ubea, me, k + 1, now);
  }

  lemma StageNext(s: Session, image: seq<word>, ubea: bool, me: Addr, memory: Memory, first: int, j: nat, now: int)
    requires 2 * |image| < 0x8000_0000 && memory.Some?
    requires Stage(s, image, ubea, me, first, j) && (j == 0 ==> now == first)
    ensures Stage(Next(s, me, memory, Deliver(now)), image, ubea, me, first, j + 1)
  {
    hide Holds, BlockPacket, HandleReply, Receive, FinalRecognised;
    if j < 2 * Blocks(image) {
      if j % 2 == 0 {
        assert j == 2 * (j / 2);
        StageMaster(s, image, ubea, me, memory, first, j / 2, now);
      } else {
        assert j == 2 * (j / 2) + 1;
        StageReply(s, image, ubea, me, first, j / 2, now);
      }
    }
  }

  lemma StageTick(s: Session, image: seq<word>, ubea: bool, me: Addr, memory: Memory, first: int, j: nat, now: int)
    requires 2 * |image| < 0x8000_0000 && Stage(s, image, ubea, me, first, j)
    requires now < first + 20 || (j >= 2 * Blocks(image) - 1 && FinalRecognised(image))
    ensures Stage(Next(s, me, memory, Tick(now)), image, ubea, me, first, j)
  {
    hide BlockPacket;
  }

  /** A check at or past the deadline ends an upload whose final packet has not been accepted. */
  lemma LateTick(s: Session, image: seq<word>, ubea: bool, me: Addr, memory: Memory, first: int, j: nat, now: int)
    requires 2 * |image| < 0x8000_0000 && Stage(s, image, ubea, me, first, j) && 1 <= j
    requires j < 2 * Blocks(image) - 1 || !FinalRecognised(image)
    requires now >= first + 20
    ensures Doomed(Next(s, me, memory, Tick(now)))
  {
  }

  lemma DoomedNext(s: Session, me: Addr, memory: Memory, e: Event)
    requires Doomed(s) && me != 0
    ensures Doomed(Next(s, me, memory, e))
  {
    hide AnnouncedLength, IntToQuad;
  }

  lemma {:induction false} DoomedRun(s: Session, me: Addr, memory: Memory, es: seq<Event>)
    requires Doomed(s) && me != 0
    ensures Doomed(Run(s, me, memory, es))
    decreases |es|
  {
    assert s.Valid();
    hide Doomed, Next;
    if es != [] {
      DoomedNext(s, me, memory, es[0]);
      DoomedRun(Next(s, me, memory, es[0]), me, memory, es[1..]);
    }
  }

  lemma StageValid(s: Session, image: seq<word>, ubea: bool, me: Addr, first: int, j: nat)
    requires 2 * |image| < 0x8000_0000 && Stage(s, image, ubea, me, first, j)
    ensures s.Valid() && me != 0
  {
  }

  lemma {:induction false} RunInTime(
    s: Session, image: seq<word>, ubea: bool, me: Addr, memory: Memory, first: int, j: nat, es: seq<Event>, d: int)
    requires 2 * |image| < 0x8000_0000 && memory.Some? && Stage(s, image, ubea, me, first, j) && 1 <= j
    requires InTime(es, first + 20, d)
    requires d > Deliveries(es) || (d >= 2 * Blocks(image) - 1 - j && FinalRecognised(image))
    ensures Stage(Run(s, me, memory, es), image, ubea, me, first, j + Deliveries(es))
    decreases |es|
  {
    hide Stage, Next, FinalRecognised, Blocks, Session.Valid;
    StageValid(s, image, ubea, me, first, j);
    if es != [] {
      var s' := Next(s, me, memory, es[0]);
      if es[0].Deliver? {
        StageNext(s, image, ubea, me, memory, first, j, es[0].now);
        RunInTime(s', image, ubea, me, memory, first, j + 1, es[1..], d - 1);
      } else {
        StageTick(s, image, ubea, me, memory, first, j, es[0].now);
        RunInTime(s', image, ubea, me, memory, first, j, es[1..], d);
      }
    }
  }

  lemma {:induction false} RunLate(
    s: Session, image: seq<word>, ubea: bool, me: Addr, memory: Memory, first: int, j: nat, es: seq<Event>, d: int)
    requires 2 * |image| < 0x8000_0000 && memory.Some? && Stage(s, image, ubea, me, first, j) && 1 <= j
    requires !InTime(es, first + 20, d)
    requires d <= 2 * Blocks(image) - 1 - j || !FinalRecognised(image)
    ensures Doomed(Run(s, me, memory, es))
    decreases |es|
  {
    hide Stage, Next, FinalRecognised, Blocks, Doomed, Session.Valid;
    StageValid(s, image, ubea, me, first, j);
    var s' := Next(s, me, memory, es[0]);
    if es[0].Deliver? {
      StageNext(s, image, ubea, me, memory, first, j, es[0].now);
      RunLate(s', image, ubea, me, memory, first, j + 1, es[1..], d - 1);
    } else if es[0].now < first + 20 {
      StageTick(s, image, ubea, me, memory, first, j, es[0].now);
      RunLate(s', image, ubea, me, memory, first, j, es[1..], d);
    } else {
      LateTick(s, image, ubea, me, memory, first, j, es[0].now);
      DoomedRun(s', me, memory, es[1..]);
    }
  }

  lemma BeginStage(image: seq<word>, ubea: bool, me: Addr, rx: Receiver, memory: Memory, sentAt: int, first: int)
    requires 2 * |image| < 0x8000_0000 && rx.Valid() && rx.peer == 0 && me != 0 && memory.Some?
    ensures Stage(Next(Begin(image, ubea, me, rx, sentAt), me, memory, Deliver(first)), image, ubea, me, first, 1)
  {
    var s := Begin(image, ubea, me, rx, sentAt);
    assert Stage(s, image, ubea, me, first, 0) by {
      hide NextPacket;
      SenderAdvances(Start(image, ubea), image, ubea, me, 0, sentAt);
    }
    hide Stage;
    StageNext(s, image, ubea, me, memory, first, 0, first);
  }

  /**
   * Completion, exactly. With an idle receiver, memory for the buffer and no loss, enough
   * deliveries fire both callbacks if and only if the image is nonempty, is not a larger multiple
   * of 1024 bytes, and no clock check before the last packet falls 20 seconds or more after the
   * first one. Progress does not extend that deadline.
   */
  lemma CompletionExactly(image: seq<word>, ubea: bool, me: Addr, rx: Receiver, memory: Memory,
                          sentAt: int, first: int, rest: seq<Event>)
    requires 2 * |image| < 0x8000_0000 && rx.Valid() && rx.peer == 0 && me != 0 && memory.Some?
    requires 1 + Deliveries(rest) >= 2 * Blocks(image)
    ensures Completed(Run(Begin(image, ubea, me, rx, sentAt), me, memory, [Deliver(first)] + rest), image, ubea, me)
      <==> image != [] && FinalRecognised(image) &&
           InTime(rest, first + 20, 2 * Blocks(image) - 2)
  {
    hide Next, Blocks, Holds;
    var s := Begin(image, ubea, me, rx, sentAt);
    var s1 := Next(s, me, memory, Deliver(first));
    var es := [Deliver(first)] + rest;
    assert es[1..] == rest;
    assert Run(s, me, memory, es) == Run(s1, me, memory, rest);
    BeginStage(image, ubea, me, rx, memory, sentAt, first);
    var d := if FinalRecognised(image) then 2 * Blocks(image) - 2 else Deliveries(rest) + 1;
    if InTime(rest, first + 20, d) {
      RunInTime(s1, image, ubea, me, memory, first, 1, rest, d);
    } else {
      RunLate(s1, image, ubea, me, memory, first, 1, rest, d);
    }
  }

  /**
   * Larger multiples of 1024 bytes: the sender types the last block as a continuation, so the run
   * goes quiet with the whole image in the receiver's buffer and no callback made at either end.
   */
  lemma ExactMultipleStalls(image: seq<word>, ubea: bool, me: Addr, rx: Receiver, memory: Memory,
                            sentAt: int, first: int, rest: seq<Event>)
    requires 2 * |image| < 0x8000_0000 && rx.Valid() && rx.peer == 0 && me != 0 && memory.Some?
    requires 1 + Deliveries(rest) >= 2 * Blocks(image) && !FinalRecognised(image)
    requires InTime(rest, first + 20, Deliveries(rest) + 1)
    ensures var s := Run(Begin(image, ubea, me, rx, sentAt), me, memory, [Deliver(first)] + rest);
      s.wire == Quiet && s.deliveries == [] && s.outcomes == [] &&
      s.rx.peer == me && s.rx.data == image && s.rx.current == s.rx.total == 2 * |image|
  {
    hide Next, Blocks;
    var s := Begin(image, ubea, me, rx, sentAt);
    var es := [Deliver(first)] + rest;
    assert es[1..] == rest;
    BeginStage(image, ubea, me, rx, memory, sentAt, first);
    RunInTime(Next(s, me, memory, Deliver(first)), image, ubea, me, memory, first, 1, rest, Deliveries(rest) + 1);
  }

  /** An empty image is delivered to the receiver's callback, and the sender's is never called. */
  lemma EmptyImage(ubea: bool, me: Addr, rx: Receiver, memory: Memory, sentAt: int, first: int, rest: seq<Event>)
    requires rx.Valid() && rx.peer == 0 && me != 0 && memory.Some? && Deliveries(rest) >= 1
    ensures var s := Run(Begin([], ubea, me, rx, sentAt), me, memory, [Deliver(first)] + rest);
      s.deliveries == [(me, Delivery(ubea, [], 0))] && s.outcomes == [] && s.wire == Quiet
  {
    hide Next;
    var s := Begin([], ubea, me, rx, sentAt);
    var es := [Deliver(first)] + rest;
    assert es[1..] == rest;
    BeginStage([], ubea, me, rx, memory, sentAt, first);
    NoTicksMatter(rest, first + 20);
    RunInTime(Next(s, me, memory, Deliver(first)), [], ubea, me, memory, first, 1, rest, 0);
  }

  lemma NoTicksMatter(es: seq<Event>, deadline: int)
    ensures InTime(es, deadline, 0)
  {
  }

  /** No clock check of the run falls at or past the deadline. */
  predicate NeverLate(es: seq<Event>, deadline: int) {
    forall e :: e in es && e.Tick? ==> e.now < deadline
  }

  /** The receiver of a one-packet upload, from its answer on: only a clock check changes it. */
  ghost predicate Settled(s: Session, rx: Receiver) {
    s.Valid() && !s.wire.Master? && s.tx.current == s.tx.total && s.rx == rx
  }

  lemma {:induction false} OnlyTicks(s: Session, rx: Receiver, me: Addr, memory: Memory, es: seq<Event>)
    requires Settled(s, rx) && rx.peer == me != 0
    ensures var t := Run(s, me, memory, es);
      if NeverLate(es, rx.lastTime + UPLOAD_TIMEOUT) then t.rx == rx else t.rx.peer == 0
    decreases |es|
  {
    hide NextPacket, Receive;
    if es != [] {
      var s' := Next(s, me, memory, es[0]);
      var deadline := rx.lastTime + UPLOAD_TIMEOUT;
      assert NeverLate(es, deadline) <==>
        (es[0].Tick? ==> es[0].now < deadline) && NeverLate(es[1..], deadline);
      if es[0].Tick? && es[0].now >= deadline {
        StaysIdle(s', me, memory, es[1..]);
      } else {
        OnlyTicks(s', rx, me, memory, es[1..]);
      }
    }
  }

  lemma {:induction false} StaysIdle(s: Session, me: Addr, memory: Memory, es: seq<Event>)
    requires s.Valid() && !s.wire.Master? && s.tx.current == s.tx.total && s.rx.peer == 0 && me != 0
    ensures Run(s, me, memory, es).rx.peer == 0
    decreases |es|
  {
    hide NextPacket, Receive;
    if es != [] {
      StaysIdle(Next(s, me, memory, es[0]), me, memory, es[1..]);
    }
  }

  /**
   * A one-packet upload does not free the receiver: although all is delivered, a new upload from
   * anyone is refused, without effect, if and only if no clock check has come 20 seconds or more
   * after it.
   */
  lemma OccupiedExactly(image: seq<word>, ubea: bool, me: Addr, rx: Receiver, memory: Memory,
                        sentAt: int, first: int, rest: seq<Event>, p: Packet, later: Memory, now: int)
    requires 2 * |image| <= BYTES_PER_BLOCK && rx.Valid() && rx.peer == 0 && me != 0 && memory.Some?
    requires p.from != 0 && (p.kind == FIRM_FIRST || p.kind == UBEA_FIRST)
    ensures var s := Run(Begin(image, ubea, me, rx, sentAt), me, memory, [Deliver(first)] + rest);
      Receive(s.rx, p, later, now) == Reaction(s.rx, Some(Fail), None) <==> NeverLate(rest, first + 20)
  {
    var s := Begin(image, ubea, me, rx, sentAt);
    var s1 := Next(s, me, memory, Deliver(first));
    var es := [Deliver(first)] + rest;
    assert es[1..] == rest;
    OnePacket(image, ubea, me, rx, memory, sentAt, first);
    hide Begin, BlockPacket, NextPacket;
    OnlyTicks(s1, s1.rx, me, memory, rest);
  }

  lemma OnePacket(image: seq<word>, ubea: bool, me: Addr, rx: Receiver, memory: Memory, sentAt: int, first: int)
    requires 2 * |image| <= BYTES_PER_BLOCK && rx.Valid() && rx.peer == 0 && me != 0 && memory.Some?
    ensures var s := Next(Begin(image, ubea, me, rx, sentAt), me, memory, Deliver(first));
      Settled(s, s.rx) && s.rx.peer == me && s.rx.lastTime == first
  {
    hide Receive, NextPacket;
    SenderAdvances(Start(image, ubea), image, ubea, me, 0, sentAt);
    FirstAccepted(rx, image, ubea, me, memory, first);
  }

  // ----- termination

  /** Deliveries an upload can still cause, whatever the receiver answers. */
  function Remaining(s: Session): nat
    requires s.Valid()
  {
    var left := (s.tx.total - s.tx.current + BYTES_PER_BLOCK - 1) / BYTES_PER_BLOCK;
    match s.wire
    case Quiet => 0
    case Reply(_) => 2 * left + 1
    case Master(_) => 2 * left + 2
  }

  lemma DeliveryUsesUp(s: Session, me: Addr, memory: Memory, now: int)
    requires s.Valid() && me != 0 && !s.wire.Quiet?
    ensures Remaining(Next(s, me, memory, Deliver(now))) < Remaining(s)
  {
    hide NextPacket, Receive;
  }

  /** Every upload goes quiet, from any state of the two ends: each delivery uses up a step. */
  lemma {:induction false} Terminates(s: Session, me: Addr, memory: Memory, es: seq<Event>)
    requires s.Valid() && me != 0 && Deliveries(es) >= Remaining(s)
    ensures Run(s, me, memory, es).wire == Quiet
    decreases |es|
  {
    hide NextPacket, Receive;
    if es != [] {
      var s' := Next(s, me, memory, es[0]);
      if es[0].Deliver? && !s.wire.Quiet? {
        DeliveryUsesUp(s, me, memory, es[0].now);
      }
      Terminates(s', me, memory, es[1..]);
    }
  }
}
