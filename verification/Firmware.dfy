/**
 * The two ends of a firmware upload as step functions: what one ArtFirmwareMaster packet does to a
 * receiving node, and what one ArtFirmwareReply does to the transfer record of the sending node.
 */
module Firmware {
  import opened ArtNetBytes

  const WORDS_PER_BLOCK := 512
  const BYTES_PER_BLOCK := 1024
  const UPLOAD_TIMEOUT := 20

  const FIRM_FIRST: byte := 0
  const FIRM_CONT: byte := 1
  const FIRM_LAST: byte := 2
  const UBEA_FIRST: byte := 3
  const UBEA_CONT: byte := 4
  const UBEA_LAST: byte := 5

  type Block = s: seq<word> | |s| == 512 witness seq(512, _ => 0)

  /** ArtFirmwareMaster. */
  datatype Packet = Packet(from: Addr, kind: byte, blockId: byte, length: Quad, data: Block)

  /** The types of ArtFirmwareReply. */
  datatype Status = BlockGood | AllGood | Fail

  /** What the receiving application is handed: the buffer and the length reported with it. */
  datatype Delivery = Delivery(ubea: bool, buffer: seq<word>, length: int)

  /** The upload a node is receiving. A freed or null buffer is the empty sequence. */
  datatype Receiver = Receiver(
    peer: Addr, data: seq<word>, current: int, total: int, ubea: bool, lastTime: int, expected: nat)
  {
    predicate Valid() {
      total == 2 * |data| && (peer == 0 ==> total == 0)
    }
  }

  /** One packet's effect: the new state, the reply sent (if any) and the callback made (if any). */
  datatype Reaction = Reaction(next: Receiver, reply: Option<Status>, delivered: Option<Delivery>)

  /** malloc's answer: nothing, or a buffer holding whatever was there before. */
  type Memory = Option<nat -> word>

  function Overwrite<T>(buffer: seq<T>, offset: nat, source: seq<T>): (r: seq<T>)
    requires offset + |source| <= |buffer|
    ensures |r| == |buffer|
    ensures forall i :: 0 <= i < |r| ==>
      r[i] == if offset <= i < offset + |source| then source[i - offset] else buffer[i]
  {
    buffer[..offset] + source + buffer[offset + |source|..]
  }

  // ----- receiver

  /** The byte length a packet announces: its word count doubled in 32-bit arithmetic. */
  function AnnouncedLength(p: Packet): (length: int32)
    ensures length % 2 == 0 && (length - 2 * NBytesTo32(p.length)) % 0x1_0000_0000 == 0
  {
    DoubledEven(NBytesTo32(p.length));
    ToInt32(2 * NBytesTo32(p.length))
  }

  function TotalBlocks(length: int): int {
    CDiv(length, BYTES_PER_BLOCK) + 1
  }

  /** The block a wire id stands for, given how many blocks the receiver has counted. */
  function BlockIndex(expected: nat, wireId: byte): nat {
    if expected > 255 && expected % 256 == wireId then expected else wireId
  }

  function ResetUpload(s: Receiver): Receiver {
    s.(data := [], current := 0, total := 0, peer := 0, ubea := false, lastTime := 0)
  }

  function ReceiveFirst(s: Receiver, p: Packet, memory: Memory, now: int): Reaction {
    var length := AnnouncedLength(p);
    if s.peer != 0 then
      Reaction(s, Some(Fail), None)
    else if length < 0 || memory.None? then
      Reaction(s.(peer := p.from, data := []), None, None)
    else
      var size := Min(length, BYTES_PER_BLOCK);
      var found := seq<word>(length / 2, i requires 0 <= i => memory.value(i));
      var buffer: seq<word> := Overwrite(found, 0, p.data[..size / 2]);
      var s' := Receiver(p.from, buffer, size, length, p.kind == UBEA_FIRST, now, 1);
      if size == length then
        Reaction(s', Some(AllGood), Some(Delivery(s'.ubea, buffer, length)))
      else
        Reaction(s', Some(BlockGood), None)
  }

  predicate AcceptsCont(s: Receiver, p: Packet) {
    s.peer == p.from && AnnouncedLength(p) == s.total &&
    BlockIndex(s.expected, p.blockId) < TotalBlocks(AnnouncedLength(p)) - 1
  }

  function ReceiveCont(s: Receiver, p: Packet): Reaction
    requires s.Valid()
  {
    if AcceptsCont(s, p) then
      var buffer := Overwrite(s.data, WORDS_PER_BLOCK * BlockIndex(s.expected, p.blockId), p.data);
      Reaction(s.(data := buffer, current := s.current + BYTES_PER_BLOCK, expected := s.expected + 1),
               Some(BlockGood), None)
    else
      Reaction(s, Some(Fail), None)
  }

  predicate AcceptsLast(s: Receiver, p: Packet) {
    s.peer == p.from && AnnouncedLength(p) == s.total &&
    BlockIndex(s.expected, p.blockId) == TotalBlocks(AnnouncedLength(p)) - 1
  }

  function ReceiveLast(s: Receiver, p: Packet): Reaction
    requires s.Valid()
  {
    if AcceptsLast(s, p) then
      var offset := WORDS_PER_BLOCK * BlockIndex(s.expected, p.blockId);
      var buffer := Overwrite(s.data, offset, p.data[..s.total % BYTES_PER_BLOCK / 2]);
      Reaction(ResetUpload(s), Some(AllGood), Some(Delivery(s.ubea, buffer, s.total / 2)))
    else
      Reaction(s, Some(Fail), None)
  }

  /** handle_firmware, with the outcome of malloc and the clock as inputs. */
  function Receive(s: Receiver, p: Packet, memory: Memory, now: int): (r: Reaction)
    requires s.Valid() && p.from != 0
    ensures r.next.Valid()
  {
    if p.kind == FIRM_FIRST || p.kind == UBEA_FIRST then ReceiveFirst(s, p, memory, now)
    else if p.kind == FIRM_CONT || p.kind == UBEA_CONT then ReceiveCont(s, p)
    else if p.kind == FIRM_LAST || p.kind == UBEA_LAST then ReceiveLast(s, p)
    else Reaction(s, Some(Fail), None)
  }

  /** check_timeouts: an upload that began 20 seconds ago or more is abandoned. */
  function CheckTimeouts(s: Receiver, now: int): (s': Receiver)
    requires s.Valid()
    ensures s'.Valid()
    ensures s'.peer != 0 <==> s.peer != 0 && now - s.lastTime < 20
    ensures s'.peer == s.peer ==> s' == s
    ensures s'.peer != s.peer ==> s' == Receiver(0, [], 0, 0, false, 0, s.expected)
  {
    if s.peer != 0 && now - s.lastTime >= UPLOAD_TIMEOUT then ResetUpload(s) else s
  }

  // ----- sender

  /** The transfer record of a sending node; total is 0 when no upload is in progress. */
  datatype Sender = Sender(data: seq<word>, current: nat, total: nat, ubea: bool, expected: byte, lastTime: int)
  {
    predicate Valid() {
      total == 2 * |data| && current <= total && current % 2 == 0
    }
  }

  const IDLE: Sender := Sender([], 0, 0, false, 0, 0)

  /** The packet artnet_tx_firmware_packet builds next. */
  function NextPacket(s: Sender, me: Addr): Packet
    requires s.Valid() && s.total < 0x8000_0000
  {
    var size := Min(s.total - s.current, BYTES_PER_BLOCK);
    var kind := if s.current == 0 then FIRM_FIRST else if size == BYTES_PER_BLOCK then FIRM_CONT else FIRM_LAST;
    var from := s.current / 2;
    Packet(me, if s.ubea then kind + UBEA_FIRST else kind, s.expected, IntToQuad(s.total / 2),
           Overwrite(seq(WORDS_PER_BLOCK, _ => 0), 0, s.data[from..from + size / 2]))
  }

  /** artnet_tx_firmware_packet: the record advances only when the network accepts the packet. */
  function Transmit(s: Sender, sent: bool, now: int): (s': Sender)
    requires s.Valid()
    ensures s'.Valid() && s'.data == s.data && s'.total == s.total && s'.ubea == s.ubea
    ensures s.current <= s'.current <= s.current + 1024
    ensures sent ==> s'.current == s.total || s'.current == s.current + 1024
    ensures sent ==> s'.lastTime == now && s'.expected == (s.expected + 1) % 256
    ensures !sent ==> s' == s
  {
    if sent then
      var size := Min(s.total - s.current, BYTES_PER_BLOCK);
      s.(current := s.current + size, lastTime := now, expected := (s.expected + 1) % 256)
    else
      s
  }

  datatype Progress = Progress(next: Sender, packet: Option<Packet>, outcome: Option<Status>)

  function TransmitNext(s: Sender, me: Addr, sent: bool, now: int): (r: Progress)
    requires s.Valid() && s.total < 0x8000_0000
    ensures r.next.Valid() && r.next.total == s.total
  {
    Progress(Transmit(s, sent, now), if sent then Some(NextPacket(s, me)) else None, None)
  }

  /** artnet_send_firmware, once its argument checks have passed. */
  function Start(image: seq<word>, ubea: bool): (s: Sender)
    ensures s.Valid()
  {
    Sender(image, 0, 2 * |image|, ubea, 0, 0)
  }

  /** handle_firmware_reply, for a reply that comes from the node being uploaded to. */
  function HandleReply(s: Sender, status: Status, me: Addr, sent: bool, now: int): (r: Progress)
    requires s.Valid() && s.total < 0x8000_0000
    ensures r.next.Valid() && r.next.total < 0x8000_0000
    ensures r.packet.Some? <==> sent && status == BlockGood && s.current < s.total
    ensures r.packet.Some? ==> r.packet.value == NextPacket(s, me) && r.next == Transmit(s, true, now)
    ensures r.outcome.Some? <==> s.total > 0 && (status == Fail || (status == AllGood && s.current == s.total))
    ensures r.outcome.Some? ==> r.outcome == Some(status) && r.next == Sender([], 0, 0, false, 0, 0)
    ensures r.outcome.None? && r.packet.None? ==> r.next == s
  {
    if s.total == 0 then Progress(s, None, None)
    else match status
      case AllGood =>
        if s.total == s.current then Progress(IDLE, None, Some(AllGood)) else Progress(s, None, None)
      case Fail => Progress(IDLE, None, Some(Fail))
      case BlockGood =>
        if s.total != s.current then TransmitNext(s, me, sent, now) else Progress(s, None, None)
  }
}
