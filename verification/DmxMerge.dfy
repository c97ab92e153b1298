/**
 * ArtDmx reception at one output port: two source slots, a 10-second timeout for each, and a merge
 * of what they hold into the output buffer.
 */
module DmxMerge {
  import opened ArtNetBytes

  const DMX_LENGTH := 512
  const MERGE_TIMEOUT := 10

  /** A DMX frame buffer. */
  type Frame = s: seq<byte> | |s| == 512 witness seq(512, _ => 0)

  const DARK: Frame := seq(DMX_LENGTH, _ => 0)

  datatype MergeMode = Htp | Ltp

  /** The source slots of an output port; address 0 marks an empty slot. */
  datatype Port = Port(
    ipA: Addr, ipB: Addr, timeA: int, timeB: int,
    dataA: Frame, dataB: Frame, data: Frame, length: int, mode: MergeMode)

  /** An ArtDmx packet for this port, with the clock at its timeout check and at its arrival. */
  datatype Packet = Packet(from: Addr, announced: nat, payload: Frame, checked: int, now: int)
  {
    function Length(): (n: nat)
      ensures n <= 512 && n <= announced && (n == 512 || n == announced)
    {
      Min(announced, DMX_LENGTH)
    }
  }

  /** memcpy of the first n bytes of source over buffer. */
  function Copy(buffer: Frame, source: Frame, n: nat): (r: Frame)
    requires n <= DMX_LENGTH
    ensures forall i :: 0 <= i < DMX_LENGTH ==> r[i] == if i < n then source[i] else buffer[i]
  {
    source[..n] + buffer[n..]
  }

  function Max(a: byte, b: byte): (m: byte)
    ensures m >= a && m >= b && (m == a || m == b)
  {
    if a > b then a else b
  }

  function CopyMax(buffer: Frame, a: Frame, b: Frame, n: nat): (r: Frame)
    requires n <= DMX_LENGTH
    ensures forall i :: 0 <= i < DMX_LENGTH ==> r[i] == if i < n then Max(a[i], b[i]) else buffer[i]
  {
    seq(n, i requires 0 <= i < n => Max(a[i], b[i])) + buffer[n..]
  }

  /** check_merge_timeouts: a source silent for more than 10 seconds loses its slot. */
  function Expire(s: Port, now: int): Port {
    s.(ipA := if now - s.timeA > MERGE_TIMEOUT then 0 else s.ipA,
       ipB := if now - s.timeB > MERGE_TIMEOUT then 0 else s.ipB)
  }

  /** merge: newest is the slot just written. */
  function Merged(s: Port, n: nat, newest: Frame): Port
    requires n <= DMX_LENGTH
  {
    s.(data := if s.mode == Htp then CopyMax(s.data, s.dataA, s.dataB, n) else Copy(s.data, newest, n))
  }

  /** The packet replaces the start of slot A's data, and of the output, or is merged into it. */
  function IntoA(s: Port, p: Packet, alone: bool): Port {
    var n := p.Length();
    var s' := s.(timeA := p.now, dataA := Copy(s.dataA, p.payload, n), length := n);
    if alone then s'.(data := Copy(s.data, p.payload, n)) else Merged(s', n, s'.dataA)
  }

  function IntoB(s: Port, p: Packet, alone: bool): Port {
    var n := p.Length();
    var s' := s.(timeB := p.now, dataB := Copy(s.dataB, p.payload, n), length := n);
    if alone then s'.(data := Copy(s.data, p.payload, n)) else Merged(s', n, s'.dataB)
  }

  /**
   * handle_dmx for one matching port. The case is chosen by the slots as they were before the
   * timeout check; the branch the source has for "A empty, B sending" a second time, and the one
   * for a sender in both slots, are not reachable (see NeverBothSlots).
   */
  function Step(s: Port, p: Packet): Port {
    var (ipA, ipB) := (s.ipA, s.ipB);
    var s' := Expire(s, p.checked);
    if ipA == 0 && ipB == 0 then IntoA(s'.(ipA := p.from), p, true)
    else if ipA == p.from && ipB == 0 then IntoA(s', p, true)
    else if ipA == 0 && ipB == p.from then IntoB(s', p, true)
    else if ipA != p.from && ipB == 0 then IntoB(s'.(ipB := p.from), p, false)
    else if ipA == p.from && ipB != p.from then IntoA(s', p, false)
    else if ipA != p.from && ipB == p.from then IntoB(s', p, false)
    else s'
  }

  function Run(s: Port, ps: seq<Packet>): Port
    decreases |ps|
  {
    if ps == [] then s else Run(Step(s, ps[0]), ps[1..])
  }

  predicate Sourced(ps: seq<Packet>) {
    forall i :: 0 <= i < |ps| ==> ps[i].from != 0
  }

  lemma {:induction false} RunSnoc(s: Port, ps: seq<Packet>, p: Packet)
    ensures Run(s, ps + [p]) == Step(Run(s, ps), p)
    decreases |ps|
  {
    hide Step;
    if ps == [] {
      assert ps + [p] == [p];
    } else {
      assert (ps + [p])[1..] == ps[1..] + [p];
      RunSnoc(Step(s, ps[0]), ps[1..], p);
    }
  }

  // ----- the slots

  predicate Distinct(s: Port) {
    s.ipA == s.ipB ==> s.ipA == 0
  }

  /** A held slot keeps its owner or becomes empty; an empty one stays empty or takes the sender. */
  predicate SlotMoves(before: Addr, after: Addr, sender: Addr) {
    after == before || after == 0 || (before == 0 && after == sender)
  }

  predicate Recent(ip: Addr, time: int, now: int) {
    ip != 0 ==> now - time <= 10
  }

  /** In no run are both slots held by one sender, so the two-slot case of the source is dead. */
  lemma {:induction false} NeverBothSlots(s: Port, ps: seq<Packet>)
    requires Distinct(s) && Sourced(ps)
    ensures Distinct(Run(s, ps))
    decreases |ps|
  {
    if ps != [] {
      NeverBothSlots(Step(s, ps[0]), ps[1..]);
    }
  }

  /** What packet k of any run, timeouts included, does to the slots. */
  lemma SlotsOverRun(s: Port, ps: seq<Packet>, k: nat)
    requires Distinct(s) && Sourced(ps) && k < |ps| && ps[k].checked <= ps[k].now
    ensures var (before, after, p) := (Run(s, ps[..k]), Run(s, ps[..k + 1]), ps[k]);
      Distinct(before) && Distinct(after) &&
      SlotMoves(before.ipA, after.ipA, p.from) && SlotMoves(before.ipB, after.ipB, p.from) &&
      Recent(after.ipA, after.timeA, p.checked) && Recent(after.ipB, after.timeB, p.checked) &&
      (if Discards(before, p) then
         after.data == before.data && after.timeA == before.timeA && after.timeB == before.timeB
       else if p.from == before.ipA || (before.ipA == 0 && before.ipB == 0) then
         after.timeA == p.now && after.timeB == before.timeB
       else after.timeB == p.now && after.timeA == before.timeA)
  {
    assert ps[..k + 1] == ps[..k] + [ps[k]];
    RunSnoc(s, ps[..k], ps[k]);
    NeverBothSlots(s, ps[..k]);
  }

  /** The packets whose data the port throws away. */
  predicate Discards(s: Port, p: Packet) {
    s.ipB != 0 && s.ipB != p.from && s.ipA != p.from
  }

  /**
   * One packet, exactly, in either mode: whose slot it is, what becomes of both slots and their
   * times, and every byte of the three buffers. A slot that its sender does not write keeps its
   * time, and only a slot silent for more than 10 seconds is lost.
   */
  lemma StepExactly(s: Port, p: Packet, i: nat)
    requires Distinct(s) && p.from != 0 && i < 512
    ensures var s' := Step(s, p);
      var n := if p.announced < 512 then p.announced else 512;
      var toA := s.ipA == p.from || (s.ipA == 0 && s.ipB == 0);
      var toB := s.ipB == p.from || (s.ipB == 0 && s.ipA != 0 && s.ipA != p.from);
      var alone := (s.ipA == 0 || s.ipA == p.from) && (s.ipB == 0 || s.ipB == p.from);
      s'.mode == s.mode &&
      s'.ipA == (if s.ipA == 0 && s.ipB == 0 then p.from else if p.checked - s.timeA <= 10 then s.ipA else 0) &&
      s'.ipB == (if toB && s.ipB == 0 then p.from else if p.checked - s.timeB <= 10 then s.ipB else 0) &&
      s'.timeA == (if toA then p.now else s.timeA) && s'.timeB == (if toB then p.now else s.timeB) &&
      s'.length == (if toA || toB then n else s.length) &&
      s'.dataA[i] == (if toA && i < n then p.payload[i] else s.dataA[i]) &&
      s'.dataB[i] == (if toB && i < n then p.payload[i] else s.dataB[i]) &&
      s'.data[i] ==
        if !(toA || toB) || i >= n then s.data[i]
        else if alone || s.mode == Ltp then p.payload[i]
        else if s'.dataA[i] > s'.dataB[i] then s'.dataA[i] else s'.dataB[i]
  {
  }

  // ----- holding a slot, by the packets' own times

  /** When the sender was last heard in a history. */
  function Heard(ps: seq<Packet>, sender: Addr, before: int): int {
    if ps == [] then before
    else if ps[|ps| - 1].from == sender then ps[|ps| - 1].now
    else Heard(ps[..|ps| - 1], sender, before)
  }

  /** Every clock check of the history falls at most 10 seconds after the sender was last heard. */
  predicate OnTime(ps: seq<Packet>, sender: Addr, before: int) {
    ps != [] ==>
      var rest, p := ps[..|ps| - 1], ps[|ps| - 1];
      OnTime(rest, sender, before) && p.checked - Heard(rest, sender, before) <= 10
  }

  function Holder(s: Port, ofA: bool): Addr {
    if ofA then s.ipA else s.ipB
  }

  function Since(s: Port, ofA: bool): int {
    if ofA then s.timeA else s.timeB
  }

  /** The slot has one and the same holder after every packet of the run. */
  predicate KeptThroughout(s: Port, ps: seq<Packet>, ofA: bool) {
    Holder(Run(s, ps), ofA) == Holder(s, ofA) && (ps != [] ==> KeptThroughout(s, ps[..|ps| - 1], ofA))
  }

  /**
   * A holder keeps its slot through a run if and only if every clock check falls at most 10
   * seconds after its own latest packet; every packet of its own renews the slot.
   */
  lemma {:induction false} SlotKeptExactly(s: Port, ps: seq<Packet>, ofA: bool)
    requires Distinct(s) && Sourced(ps) && Holder(s, ofA) != 0
    ensures KeptThroughout(s, ps, ofA) <==> OnTime(ps, Holder(s, ofA), Since(s, ofA))
    ensures KeptThroughout(s, ps, ofA) ==> Since(Run(s, ps), ofA) == Heard(ps, Holder(s, ofA), Since(s, ofA))
  {
    if ps != [] {
      var rest, p := ps[..|ps| - 1], ps[|ps| - 1];
      assert ps == rest + [p];
      SlotKeptExactly(s, rest, ofA);
      NeverBothSlots(s, rest);
      RunSnoc(s, rest, p);
      StepExactly(Run(s, rest), p, 0);
      hide Step;
    }
  }

  // ----- overlays: what a history of packets says about one byte

  /** Byte i of the last packet of the history that is long enough to have one. */
  function Overlay(ps: seq<Packet>, i: nat, initial: byte): byte
    requires i < DMX_LENGTH
  {
    if ps == [] then initial
    else
      var p := ps[|ps| - 1];
      if i < p.Length() then p.payload[i] else Overlay(ps[..|ps| - 1], i, initial)
  }

  function From(ps: seq<Packet>, sender: Addr): seq<Packet> {
    if ps == [] then []
    else
      var p := ps[|ps| - 1];
      From(ps[..|ps| - 1], sender) + if p.from == sender then [p] else []
  }

  lemma OverlaySnoc(ps: seq<Packet>, p: Packet, i: nat, initial: byte)
    requires i < DMX_LENGTH
    ensures Overlay(ps + [p], i, initial) == if i < p.Length() then p.payload[i] else Overlay(ps, i, initial)
  {
    assert (ps + [p])[..|ps|] == ps;
  }

  lemma FromSnoc(ps: seq<Packet>, p: Packet, sender: Addr)
    ensures From(ps + [p], sender) == From(ps, sender) + if p.from == sender then [p] else []
  {
    assert (ps + [p])[..|ps|] == ps;
  }

  // ----- HTP

  const FRESH: Port := Port(0, 0, 0, 0, DARK, DARK, DARK, 0, Htp)

  /** Byte i of the sender's latest packet that covers it, 0 if there is none. */
  function Latest(ps: seq<Packet>, sender: Addr, i: nat): byte
    requires i < DMX_LENGTH
  {
    Overlay(From(ps, sender), i, 0)
  }

  lemma LatestSnoc(ps: seq<Packet>, p: Packet, sender: Addr, i: nat)
    requires i < DMX_LENGTH
    ensures Latest(ps + [p], sender, i) ==
      if p.from == sender && i < p.Length() then p.payload[i] else Latest(ps, sender, i)
  {
    FromSnoc(ps, p, sender);
    if p.from == sender {
      OverlaySnoc(From(ps, sender), p, i, 0);
    } else {
      assert From(ps + [p], sender) == From(ps, sender);
    }
  }

  function FirstSender(ps: seq<Packet>): Addr {
    if ps == [] then 0 else ps[0].from
  }

  /** The first sender other than the first one, 0 if there is none. */
  function SecondSender(ps: seq<Packet>): Addr {
    if ps == [] then 0
    else
      var earlier := SecondSender(ps[..|ps| - 1]);
      var p := ps[|ps| - 1];
      if earlier == 0 && p.from != ps[0].from then p.from else earlier
  }

  lemma SecondSenderSnoc(ps: seq<Packet>, p: Packet)
    ensures SecondSender(ps + [p]) ==
      if ps != [] && SecondSender(ps) == 0 && p.from != ps[0].from then p.from else SecondSender(ps)
  {
    assert (ps + [p])[..|ps|] == ps;
  }

  /** Without a second sender, nobody but the first has sent anything. */
  lemma {:induction false} OnlyFirst(ps: seq<Packet>, other: Addr)
    requires Sourced(ps) && ps != [] && SecondSender(ps) == 0 && other != ps[0].from
    ensures From(ps, other) == []
  {
    var rest := ps[..|ps| - 1];
    if rest != [] {
      OnlyFirst(rest, other);
    }
  }

  /** Every clock check falls at most 10 seconds after each of the first two senders was last heard. */
  predicate Punctual(ps: seq<Packet>) {
    ps != [] ==>
      var rest, p := ps[..|ps| - 1], ps[|ps| - 1];
      Punctual(rest) &&
      (rest != [] ==> p.checked - Heard(rest, FirstSender(rest), 0) <= 10) &&
      (SecondSender(rest) != 0 ==> p.checked - Heard(rest, SecondSender(rest), 0) <= 10)
  }

  ghost predicate HtpState(s: Port, ps: seq<Packet>) {
    s.mode == Htp && s.ipA == FirstSender(ps) && s.ipB == SecondSender(ps) && Distinct(s) &&
    (ps == [] <==> s.ipA == 0) &&
    (ps != [] ==> s.timeA == Heard(ps, s.ipA, 0)) && (s.ipB != 0 ==> s.timeB == Heard(ps, s.ipB, 0)) &&
    forall i :: 0 <= i < DMX_LENGTH ==>
      s.dataA[i] == Latest(ps, s.ipA, i) &&
      s.dataB[i] == (if s.ipB == 0 then 0 else Latest(ps, s.ipB, i)) &&
      s.data[i] == Max(s.dataA[i], s.dataB[i])
  }

  lemma HtpStep(s: Port, ps: seq<Packet>, p: Packet)
    requires HtpState(s, ps) && Sourced(ps) && p.from != 0
    requires Recent(s.ipA, s.timeA, p.checked) && Recent(s.ipB, s.timeB, p.checked)
    ensures HtpState(Step(s, p), ps + [p])
  {
    var s' := Step(s, p);
    SecondSenderSnoc(ps, p);
    assert (ps + [p])[..|ps|] == ps;
    if ps != [] && s.ipB == 0 && p.from != s.ipA {
      OnlyFirst(ps, p.from);
    }
    forall i | 0 <= i < DMX_LENGTH
      ensures s'.dataA[i] == Latest(ps + [p], s'.ipA, i)
      ensures s'.dataB[i] == if s'.ipB == 0 then 0 else Latest(ps + [p], s'.ipB, i)
      ensures s'.data[i] == Max(s'.dataA[i], s'.dataB[i])
    {
      LatestSnoc(ps, p, s'.ipA, i);
      LatestSnoc(ps, p, s'.ipB, i);
    }
  }

  lemma {:induction false} HtpRun(ps: seq<Packet>)
    requires Sourced(ps) && Punctual(ps)
    ensures HtpState(Run(FRESH, ps), ps)
    decreases |ps|
  {
    if ps != [] {
      var rest, p := ps[..|ps| - 1], ps[|ps| - 1];
      assert ps == rest + [p];
      HtpRun(rest);
      RunSnoc(FRESH, rest, p);
      hide Step;
      HtpStep(Run(FRESH, rest), rest, p);
    }
  }

  /**
   * Highest takes precedence. From a fresh port, while the first two senders are never silent for
   * more than 10 seconds, every output byte is the larger of the latest values they gave it;
   * packets may have any length, and no other sender has any effect.
   */
  lemma HtpIsMaximum(ps: seq<Packet>, i: nat)
    requires Sourced(ps) && Punctual(ps) && i < DMX_LENGTH
    ensures Run(FRESH, ps).data[i] == Max(
      if ps == [] then 0 else Latest(ps, FirstSender(ps), i),
      if SecondSender(ps) == 0 then 0 else Latest(ps, SecondSender(ps), i))
  {
    HtpRun(ps);
  }

  // ----- HTP on every run

  /** The packet's sender is the only source that the slots showed when it arrived. */
  predicate Alone(s: Port, p: Packet) {
    (s.ipA == 0 && (s.ipB == 0 || s.ipB == p.from)) || (s.ipA == p.from && s.ipB == 0)
  }

  /** The packet goes to slot A; if it is not discarded either, it goes to slot B. */
  predicate GoesToA(s: Port, p: Packet) {
    s.ipA == p.from || (s.ipA == 0 && s.ipB == 0)
  }

  /** The packets of a run that went to one slot, whoever held it. */
  function Routed(s: Port, ps: seq<Packet>, toA: bool): seq<Packet> {
    if ps == [] then []
    else
      var rest, p := ps[..|ps| - 1], ps[|ps| - 1];
      var before := Run(s, rest);
      Routed(s, rest, toA) + if !Discards(before, p) && GoesToA(before, p) == toA then [p] else []
  }

  /** What every packet that ever went to a slot left at byte i of it. */
  function Residue(s: Port, ps: seq<Packet>, toA: bool, i: nat): byte
    requires i < DMX_LENGTH
  {
    Overlay(Routed(s, ps, toA), i, if toA then s.dataA[i] else s.dataB[i])
  }

  /**
   * Output byte i by history: what the last packet that covers it and was not discarded brought.
   * A packet alone brings its own byte, any other the larger of what the two slots are left with.
   */
  function HtpByte(s: Port, ps: seq<Packet>, i: nat): byte
    requires i < DMX_LENGTH
  {
    if ps == [] then s.data[i]
    else
      var rest, p := ps[..|ps| - 1], ps[|ps| - 1];
      var before := Run(s, rest);
      if Discards(before, p) || i >= p.Length() then HtpByte(s, rest, i)
      else if Alone(before, p) then p.payload[i]
      else Max(Residue(s, ps, true, i), Residue(s, ps, false, i))
  }

  /** One packet, seen at one byte of the three buffers. */
  lemma StepByte(s: Port, p: Packet, i: nat)
    requires Distinct(s) && s.mode == Htp && p.from != 0 && i < DMX_LENGTH
    ensures var s' := Step(s, p);
      var covered := !Discards(s, p) && i < p.Length();
      s'.mode == Htp &&
      s'.dataA[i] == (if covered && GoesToA(s, p) then p.payload[i] else s.dataA[i]) &&
      s'.dataB[i] == (if covered && !GoesToA(s, p) then p.payload[i] else s.dataB[i]) &&
      s'.data[i] ==
        if !covered then s.data[i] else if Alone(s, p) then p.payload[i] else Max(s'.dataA[i], s'.dataB[i])
  {
  }

  lemma ResidueSnoc(s: Port, ps: seq<Packet>, p: Packet, toA: bool, i: nat)
    requires i < DMX_LENGTH
    ensures Residue(s, ps + [p], toA, i) ==
      if !Discards(Run(s, ps), p) && GoesToA(Run(s, ps), p) == toA && i < p.Length()
      then p.payload[i] else Residue(s, ps, toA, i)
  {
    hide Run, Discards, GoesToA;
    var routed := Routed(s, ps, toA);
    assert (ps + [p])[..|ps|] == ps;
    OverlaySnoc(routed, p, i, if toA then s.dataA[i] else s.dataB[i]);
    assert routed + [] == routed;
  }

  /**
   * Highest takes precedence, on every run from every state, timeouts included: the output is
   * what the history of slots says. A slot that changes hands keeps the bytes its new owner has
   * not covered.
   */
  lemma {:induction false} HtpEveryRun(s: Port, ps: seq<Packet>, i: nat)
    requires Distinct(s) && s.mode == Htp && Sourced(ps) && i < DMX_LENGTH
    ensures var t := Run(s, ps);
      t.mode == Htp && t.data[i] == HtpByte(s, ps, i) &&
      t.dataA[i] == Residue(s, ps, true, i) && t.dataB[i] == Residue(s, ps, false, i)
  {
    if ps != [] {
      var rest, p := ps[..|ps| - 1], ps[|ps| - 1];
      assert ps == rest + [p];
      HtpEveryRun(s, rest, i);
      NeverBothSlots(s, rest);
      RunSnoc(s, rest, p);
      StepByte(Run(s, rest), p, i);
      ResidueSnoc(s, rest, p, true, i);
      ResidueSnoc(s, rest, p, false, i);
      hide Step, Residue, Discards, Alone, GoesToA;
    }
  }

  /** A short packet that takes slot A leaves the former owner's tail, and the next merge shows it. */
  lemma StaleTailMerged(s: Port, p: Packet, q: Packet, i: nat)
    requires s.mode == Htp && s.ipA == 0 && s.ipB == 0 && p.from != 0 && q.from != 0 && p.from != q.from
    requires p.Length() <= i < q.Length()
    ensures Run(s, [p, q]).data[i] == Max(s.dataA[i], q.payload[i])
  {
    assert [p, q] == [p] + [q];
    RunSnoc(s, [p], q);
  }

  // ----- a source that has timed out

  /** The other slot's byte, and whether that slot was held when the packet arrived. */
  function OtherByte(s: Port, sender: Addr, i: nat): byte
    requires i < DMX_LENGTH
  {
    if s.ipA == sender then s.dataB[i] else s.dataA[i]
  }

  function OtherHolder(s: Port, sender: Addr): Addr {
    if s.ipA == sender then s.ipB else s.ipA
  }

  /** The port with other data in the slot that is not the sender's. */
  function WithOther(s: Port, sender: Addr, other: Frame): Port {
    if s.ipA == sender then s.(dataB := other) else s.(dataA := other)
  }

  /**
   * A packet from the holder of a slot shows its own byte whatever the other slot contains if and
   * only if the other slot was empty on arrival, or the byte is already as high as can be. Whether
   * the other source has timed out does not matter: the check comes after the addresses are read.
   */
  lemma OwnByteExactly(s: Port, p: Packet, i: nat)
    requires Distinct(s) && s.mode == Htp && i < p.Length() && p.from != 0 && (p.from == s.ipA || p.from == s.ipB)
    ensures (forall other: Frame :: Step(WithOther(s, p.from, other), p).data[i] == p.payload[i])
      <==> OtherHolder(s, p.from) == 0 || p.payload[i] == 255
    ensures Step(s, p).data[i] ==
      if OtherHolder(s, p.from) == 0 then p.payload[i] else Max(OtherByte(s, p.from, i), p.payload[i])
  {
    forall other: Frame
      ensures Step(WithOther(s, p.from, other), p).data[i] ==
        if OtherHolder(s, p.from) == 0 then p.payload[i] else Max(other[i], p.payload[i])
    {
      StepByteOf(WithOther(s, p.from, other), p, i);
    }
    hide Step;
    var bright: Frame := seq(DMX_LENGTH, _ => 255);
    assert bright[i] == 255;
    assert Step(WithOther(s, p.from, bright), p).data[i] == p.payload[i] <==>
      OtherHolder(s, p.from) == 0 || p.payload[i] == 255;
    StepByteOf(s, p, i);
  }

  lemma StepByteOf(s: Port, p: Packet, i: nat)
    requires Distinct(s) && s.mode == Htp && i < p.Length() && p.from != 0 && (p.from == s.ipA || p.from == s.ipB)
    ensures Step(s, p).data[i] ==
      if OtherHolder(s, p.from) == 0 then p.payload[i] else Max(OtherByte(s, p.from, i), p.payload[i])
  {
  }

  /**
   * A source that has timed out, in either slot, is merged once more: the packet of the other
   * source whose check empties the slot is still merged with the old data, the next one is not.
   */
  lemma ExpiredSlotMergedOnce(s: Port, p: Packet, q: Packet, i: nat)
    requires Distinct(s) && s.mode == Htp && s.ipA != 0 && s.ipB != 0
    requires p.from == q.from && (p.from == s.ipA || p.from == s.ipB)
    requires if p.from == s.ipB
             then !Recent(s.ipA, s.timeA, p.checked) && Recent(s.ipB, s.timeB, p.checked)
             else !Recent(s.ipB, s.timeB, p.checked) && Recent(s.ipA, s.timeA, p.checked)
    requires i < p.Length() && i < q.Length()
    ensures OtherHolder(Run(s, [p]), p.from) == 0
    ensures Run(s, [p]).data[i] == Max(OtherByte(s, p.from, i), p.payload[i])
    ensures Run(s, [p, q]).data[i] == q.payload[i]
  {
    assert [p, q] == [p] + [q];
    RunSnoc(s, [p], q);
  }

  /** The owner of a slot still has it after its own packet if and only if it had not timed out. */
  lemma OwnerKeepsSlotExactly(s: Port, p: Packet)
    requires Distinct(s) && p.from != 0
    ensures p.from == s.ipA ==> (Step(s, p).ipA == p.from <==> Recent(s.ipA, s.timeA, p.checked))
    ensures p.from == s.ipB ==> (Step(s, p).ipB == p.from <==> Recent(s.ipB, s.timeB, p.checked))
  {
  }

  /**
   * The owner of slot A resumes: its first packet is taken, and its next one is thrown away if
   * and only if the first came after a timeout and slot B is still held. An owner of slot B that
   * resumes after a timeout is never thrown away for it.
   */
  lemma ResumingOwner(s: Port, p: Packet, q: Packet, i: nat)
    requires Distinct(s) && p.from != 0 && q.from == p.from && (p.from == s.ipA || p.from == s.ipB) && i < p.Length()
    ensures !Discards(s, p) && (s.mode == Ltp ==> Step(s, p).data[i] == p.payload[i])
    ensures s.mode == Htp ==> Step(s, p).data[i] >= p.payload[i]
    ensures Discards(Step(s, p), q) <==>
      p.from == s.ipA && !Recent(s.ipA, s.timeA, p.checked) && s.ipB != 0 && Recent(s.ipB, s.timeB, p.checked)
  {
  }

  // ----- LTP

  function Accepted(s: Port, ps: seq<Packet>): seq<Packet>
    decreases |ps|
  {
    if ps == [] then []
    else (if Discards(s, ps[0]) then [] else [ps[0]]) + Accepted(Step(s, ps[0]), ps[1..])
  }

  lemma {:induction false} OverlayCons(p: Packet, ps: seq<Packet>, i: nat, initial: byte)
    requires i < DMX_LENGTH
    ensures Overlay([p] + ps, i, initial) == Overlay(ps, i, if i < p.Length() then p.payload[i] else initial)
    decreases |ps|
  {
    if ps == [] {
      assert [p] + ps == [] + [p];
      OverlaySnoc([], p, i, initial);
    } else {
      var rest, q := ps[..|ps| - 1], ps[|ps| - 1];
      assert [p] + ps == ([p] + rest) + [q];
      OverlaySnoc([p] + rest, q, i, initial);
      OverlayCons(p, rest, i, initial);
    }
  }

  /**
   * Latest takes precedence. On every run of an LTP port, timeouts included, each output byte is
   * that byte of the last packet covering it that was not discarded, or its initial value.
   */
  lemma {:induction false} LtpIsOverlay(s: Port, ps: seq<Packet>, i: nat)
    requires Distinct(s) && s.mode == Ltp && Sourced(ps) && i < DMX_LENGTH
    ensures Run(s, ps).data[i] == Overlay(Accepted(s, ps), i, s.data[i])
    decreases |ps|
  {
    if ps != [] {
      var s', p := Step(s, ps[0]), ps[0];
      var rest := Accepted(s', ps[1..]);
      LtpIsOverlay(s', ps[1..], i);
      if Discards(s, p) {
        assert [] + rest == rest;
      } else {
        OverlayCons(p, rest, i, s.data[i]);
      }
    }
  }

  // ----- a lone source in slot B

  /**
   * Which newcomers get a slot, exactly: those that find slot B empty. The missing "start merge"
   * case is the state with slot A empty and B held, where a slot is free and no newcomer gets it.
   */
  lemma NewcomerExactly(s: Port, p: Packet)
    requires p.from != 0 && p.from != s.ipA && p.from != s.ipB
    ensures Step(s, p).ipA == p.from || Step(s, p).ipB == p.from <==> s.ipB == 0
    ensures Discards(s, p) <==> s.ipB != 0
    ensures (s.ipA == 0 || s.ipB == 0) && Discards(s, p) <==> s.ipA == 0 && s.ipB != 0
  {
  }

  /**
   * When slot A is empty and B is held, the missing "start merge" case locks every other sender
   * out for as long as B keeps sending: in either mode the output is the overlay of B's packets.
   */
  lemma {:induction false} LoneBLocksOut(s: Port, ps: seq<Packet>, i: nat)
    requires s.ipA == 0 && s.ipB != 0 && Sourced(ps) && OnTime(ps, s.ipB, s.timeB) && i < DMX_LENGTH
    ensures Run(s, ps).ipA == 0 && Run(s, ps).ipB == s.ipB && Run(s, ps).timeB == Heard(ps, s.ipB, s.timeB)
    ensures Run(s, ps).data[i] == Overlay(From(ps, s.ipB), i, s.data[i])
    decreases |ps|
  {
    if ps != [] {
      var rest, p := ps[..|ps| - 1], ps[|ps| - 1];
      assert ps == rest + [p];
      LoneBLocksOut(s, rest, i);
      RunSnoc(s, rest, p);
      FromSnoc(rest, p, s.ipB);
      if p.from == s.ipB {
        OverlaySnoc(From(rest, s.ipB), p, i, s.data[i]);
      } else {
        assert From(ps, s.ipB) == From(rest, s.ipB);
      }
    }
  }

  /**
   * The state is reached by two sources and a pause of one: the first is silent for more than 10
   * seconds while the second goes on. The first is then locked out itself.
   */
  lemma LoneBReached(a: Addr, b: Addr, f: Frame, later: seq<Packet>, i: nat)
    requires a != 0 && b != 0 && a != b && i < DMX_LENGTH && Sourced(later)
    requires OnTime(later, b, 31)
    ensures var s := Run(FRESH, [Packet(a, 512, f, 20, 20), Packet(b, 512, f, 25, 25), Packet(b, 512, f, 31, 31)]);
      s.ipA == 0 && s.ipB == b && s.timeB == 31 && Run(s, later).ipA == 0 && Run(s, later).ipB == b &&
      Run(s, later).data[i] == Overlay(From(later, b), i, s.data[i])
  {
    var p, q, r := Packet(a, 512, f, 20, 20), Packet(b, 512, f, 25, 25), Packet(b, 512, f, 31, 31);
    assert [p, q, r] == [p, q] + [r] && [p, q] == [p] + [q];
    RunSnoc(FRESH, [p, q], r);
    RunSnoc(FRESH, [p], q);
    ThreeSteps(a, b, p, q, r);
    hide Run;
    LoneBLocksOut(Run(FRESH, [p, q, r]), later, i);
  }

  lemma ThreeSteps(a: Addr, b: Addr, p: Packet, q: Packet, r: Packet)
    requires a != 0 && b != 0 && a != b && p.from == a && q.from == r.from == b
    requires p.checked == p.now == 20 && q.checked == q.now == 25 && r.checked == r.now == 31
    ensures var s := Step(Step(Step(FRESH, p), q), r); s.ipA == 0 && s.ipB == b && s.timeB == 31
  {
    var s1 := Step(FRESH, p);
    assert s1.ipA == a && s1.ipB == 0 && s1.timeA == 20;
    var s2 := Step(s1, q);
    assert s2.ipA == a && s2.ipB == b && s2.timeA == 20 && s2.timeB == 25;
  }
}
