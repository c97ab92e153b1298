/**
 * A sender and a receiver joined by a channel: the upload as a two-party step system, and the
 * coupling between the two ends that its theorems rest on.
 */
module FirmwareSession {
  import opened ArtNetBytes
  import opened Firmware

  /** At most one packet is under way: the sender waits for a reply, the receiver only answers. */
  datatype Wire = Quiet | Master(packet: Packet) | Reply(status: Status)

  /** The callbacks of both ends are logged, the receiver's with the address of the uploader. */
  datatype Session = Session(
    tx: Sender, rx: Receiver, wire: Wire, deliveries: seq<(Addr, Delivery)>, outcomes: seq<Status>)
  {
    predicate Valid() {
      tx.Valid() && tx.total < 0x8000_0000 && rx.Valid() && (wire.Master? ==> wire.packet.from != 0)
    }
  }

  /** One artnet_send_firmware call whose first packet the network accepts. */
  function Begin(image: seq<word>, ubea: bool, me: Addr, rx: Receiver, now: int): (s: Session)
    requires 2 * |image| < 0x8000_0000 && rx.Valid() && me != 0
    ensures s.Valid()
  {
    var tx := Start(image, ubea);
    Session(Transmit(tx, true, now), rx, Master(NextPacket(tx, me)), [], [])
  }

  function Log(from: Addr, delivered: Option<Delivery>): seq<(Addr, Delivery)> {
    if delivered.Some? then [(from, delivered.value)] else []
  }

  /** The packet under way reaches the receiver. */
  function DeliverMaster(s: Session, memory: Memory, now: int): (s': Session)
    requires s.Valid() && s.wire.Master?
    ensures s'.Valid()
  {
    var r := Receive(s.rx, s.wire.packet, memory, now);
    s.(rx := r.next,
       wire := if r.reply.Some? then Reply(r.reply.value) else Quiet,
       deliveries := s.deliveries + Log(s.wire.packet.from, r.delivered))
  }

  /** The reply under way reaches the sender, which may send its next packet. */
  function DeliverReply(s: Session, me: Addr, sent: bool, now: int): (s': Session)
    requires s.Valid() && s.wire.Reply? && me != 0
    ensures s'.Valid()
  {
    var r := HandleReply(s.tx, s.wire.status, me, sent, now);
    s.(tx := r.next,
       wire := if r.packet.Some? then Master(r.packet.value) else Quiet,
       outcomes := s.outcomes + if r.outcome.Some? then [r.outcome.value] else [])
  }

  // ----- blocks of an image

  /** Bytes handed over once k blocks are. */
  function Sent(image: seq<word>, k: nat): nat {
    Min(BYTES_PER_BLOCK * k, 2 * |image|)
  }

  /** The number of packets an upload takes; an empty image still takes one. */
  function Blocks(image: seq<word>): (n: nat)
    ensures n >= 1
    ensures image != [] ==> BYTES_PER_BLOCK * (n - 1) < 2 * |image| <= BYTES_PER_BLOCK * n
  {
    if image == [] then 1 else (2 * |image| + BYTES_PER_BLOCK - 1) / BYTES_PER_BLOCK
  }

  /** The sender's record when k blocks have been handed to the network. */
  ghost predicate SenderAt(tx: Sender, image: seq<word>, ubea: bool, k: nat) {
    tx.data == image && tx.total == 2 * |image| && tx.ubea == ubea &&
    tx.current == Sent(image, k) && tx.expected == k % 256
  }

  lemma SentEven(image: seq<word>, k: nat)
    ensures Sent(image, k) <= 2 * |image| && Sent(image, k) % 2 == 0
  {
    var half := Min(WORDS_PER_BLOCK * k, |image|);
    assert Sent(image, k) == 2 * half;
  }

  /** Packet k of the upload. */
  ghost function BlockPacket(image: seq<word>, ubea: bool, me: Addr, k: nat): (p: Packet)
    requires 2 * |image| < 0x8000_0000
    ensures p.from == me
  {
    SentEven(image, k);
    NextPacket(Sender(image, Sent(image, k), 2 * |image|, ubea, k % 256, 0), me)
  }

  /** The receiver holds the first k blocks of the image, and counts them without wrapping. */
  ghost predicate Holds(rx: Receiver, image: seq<word>, ubea: bool, me: Addr, k: nat) {
    rx.peer == me && rx.total == 2 * |image| && |rx.data| == |image| && rx.ubea == ubea &&
    rx.current == Sent(image, k) && rx.expected == k &&
    rx.data[..Sent(image, k) / 2] == image[..Sent(image, k) / 2]
  }

  /** What packet k carries: its type, the true index modulo 256, the image's size, and block k padded with zeros. */
  lemma PacketShape(image: seq<word>, ubea: bool, me: Addr, k: nat)
    requires 2 * |image| < 0x8000_0000 && 512 * k <= |image|
    ensures var p := BlockPacket(image, ubea, me, k);
      var n := Min(|image| - 512 * k, 512);
      p.from == me && p.blockId == k % 256 &&
      AnnouncedLength(p) == 2 * |image| && NBytesTo32(p.length) == |image| &&
      p.kind == (if ubea then 3 else 0) + (if k == 0 then 0 else if n == 512 then 1 else 2) &&
      p.data[..n] == image[512 * k..512 * k + n] && forall j :: n <= j < 512 ==> p.data[j] == 0
  {
    hide NBytesTo32, IntToQuad, ToInt32;
    DecodeEncode(|image|);
    DoubledCount(IntToQuad(|image|), |image|);
  }

  /** The 8-bit id on the wire and the receiver's own counter always rebuild the true index. */
  lemma IndexRebuilt(k: nat)
    ensures BlockIndex(k, k % 256) == k
  {
  }

  lemma SenderAdvances(tx: Sender, image: seq<word>, ubea: bool, me: Addr, k: nat, now: int)
    requires 2 * |image| < 0x8000_0000 && SenderAt(tx, image, ubea, k) && tx.Valid()
    ensures NextPacket(tx, me) == BlockPacket(image, ubea, me, k)
    ensures SenderAt(Transmit(tx, true, now), image, ubea, k + 1)
  {
    hide IntToQuad;
  }

  /** An idle receiver with memory takes block 0, and is done at once if that is the whole image. */
  lemma FirstAccepted(rx: Receiver, image: seq<word>, ubea: bool, me: Addr, memory: Memory, now: int)
    requires 2 * |image| < 0x8000_0000 && rx.Valid() && me != 0 && rx.peer == 0 && memory.Some?
    ensures var r := Receive(rx, BlockPacket(image, ubea, me, 0), memory, now);
      Holds(r.next, image, ubea, me, 1) && r.next.lastTime == now &&
      if 2 * |image| <= BYTES_PER_BLOCK
      then r.reply == Some(AllGood) && r.delivered == Some(Delivery(ubea, image, 2 * |image|))
      else r.reply == Some(BlockGood) && r.delivered == None
  {
    hide AnnouncedLength, BlockPacket;
    PacketShape(image, ubea, me, 0);
    var p := BlockPacket(image, ubea, me, 0);
    var n := Sent(image, 1) / 2;
    assert p.data[..n] == image[..n];
    var r := Receive(rx, p, memory, now);
    assert r.next.data[..n] == image[..n];
    if 2 * |image| <= BYTES_PER_BLOCK {
      assert r.next.data == image;
    }
  }

  /** A full block that is not the first one is stored at its own place and acknowledged. */
  lemma ContAccepted(rx: Receiver, image: seq<word>, ubea: bool, me: Addr, k: nat, memory: Memory, now: int)
    requires 2 * |image| < 0x8000_0000 && rx.Valid() && me != 0
    requires 1 <= k && BYTES_PER_BLOCK * (k + 1) <= 2 * |image| && Holds(rx, image, ubea, me, k)
    ensures var r := Receive(rx, BlockPacket(image, ubea, me, k), memory, now);
      Holds(r.next, image, ubea, me, k + 1) && r.next.lastTime == rx.lastTime &&
      r.reply == Some(BlockGood) && r.delivered == None
  {
    hide AnnouncedLength, BlockPacket;
    PacketShape(image, ubea, me, k);
    IndexRebuilt(k);
    var p := BlockPacket(image, ubea, me, k);
    var n := WORDS_PER_BLOCK * k;
    assert p.data == image[n..n + WORDS_PER_BLOCK];
    var r := Receive(rx, p, memory, now);
    assert image[..n + WORDS_PER_BLOCK] == image[..n] + image[n..n + WORDS_PER_BLOCK];
    assert r.next.data[..n + WORDS_PER_BLOCK] == rx.data[..n] + p.data;
  }

  /** A partial block that is not the first one completes the image. */
  lemma {:induction false} LastAccepted(
    rx: Receiver, image: seq<word>, ubea: bool, me: Addr, k: nat, memory: Memory, now: int)
    requires 2 * |image| < 0x8000_0000 && rx.Valid() && me != 0
    requires 1 <= k && BYTES_PER_BLOCK * k < 2 * |image| < BYTES_PER_BLOCK * (k + 1) && Holds(rx, image, ubea, me, k)
    ensures Receive(rx, BlockPacket(image, ubea, me, k), memory, now) ==
      Reaction(ResetUpload(rx), Some(AllGood), Some(Delivery(ubea, image, |image|)))
  {
    hide AnnouncedLength, BlockPacket, Overwrite, TotalBlocks, BlockIndex;
    PacketShape(image, ubea, me, k);
    IndexRebuilt(k);
    LastIndex(|image|, k);
    var p := BlockPacket(image, ubea, me, k);
    var n := WORDS_PER_BLOCK * k;
    assert p.data[..|image| - n] == image[n..];
    TailStored(rx.data, image, n);
  }

  /** The final block's index and size, from the size of the image. */
  lemma LastIndex(words: nat, k: nat)
    requires BYTES_PER_BLOCK * k < 2 * words < BYTES_PER_BLOCK * (k + 1)
    ensures TotalBlocks(2 * words) == k + 1 && 2 * words % BYTES_PER_BLOCK / 2 == words - WORDS_PER_BLOCK * k
  {
  }

  lemma TailStored(data: seq<word>, image: seq<word>, n: nat)
    requires |data| == |image| && n <= |image| && data[..n] == image[..n]
    ensures Overwrite(data, n, image[n..]) == image
  {
    assert Overwrite(data, n, image[n..]) == data[..n] + image[n..] == image;
  }
}
