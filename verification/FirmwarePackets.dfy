/**
 * What each firmware packet does at a receiver in any state, word by word and in the numbers of the
 * protocol: 512 words to a block, six packet types, 8-bit block ids.
 */
module FirmwarePackets {
  import opened ArtNetBytes
  import opened Firmware

  /** The first packet: refused while busy; dropped without memory; else a new buffer that starts with its data. */
  lemma FirstExactly(s: Receiver, p: Packet, memory: Memory, now: int)
    requires s.Valid() && p.from != 0 && (p.kind == 0 || p.kind == 3)
    ensures var r, words := Receive(s, p, memory, now), AnnouncedLength(p) / 2;
      if s.peer != 0 then r == Reaction(s, Some(Fail), None)
      else if words < 0 || memory.None? then r == Reaction(s.(peer := p.from, data := []), None, None)
      else
        |r.next.data| == words &&
        (forall j :: 0 <= j < words ==> r.next.data[j] == if j < 512 then p.data[j] else memory.value(j)) &&
        r.next == Receiver(p.from, r.next.data, r.next.current, 2 * words, p.kind == 3, now, 1) &&
        r.next.current == (if words <= 512 then 2 * words else 1024) &&
        r.reply == Some(if words <= 512 then AllGood else BlockGood) &&
        r.delivered == if words <= 512 then Some(Delivery(p.kind == 3, r.next.data, 2 * words)) else None
  {
    hide ToInt32, NBytesTo32;
  }

  /**
   * A packet in the middle: taken if and only if it is the peer's, announces the same length, and
   * its whole block lies inside; it is then stored at its block, whose index beyond 255 is known
   * from the receiver's own count. Refused, it changes nothing.
   */
  lemma ContExactly(s: Receiver, p: Packet, memory: Memory, now: int)
    requires s.Valid() && p.from != 0 && (p.kind == 1 || p.kind == 4)
    ensures var r := Receive(s, p, memory, now);
      var i := if s.expected >= 256 && s.expected % 256 == p.blockId then s.expected else p.blockId;
      if s.peer == p.from && AnnouncedLength(p) == s.total && 1024 * (i + 1) <= s.total then
        |r.next.data| == |s.data| &&
        (forall j :: 0 <= j < |s.data| ==>
          r.next.data[j] == if 512 * i <= j < 512 * i + 512 then p.data[j - 512 * i] else s.data[j]) &&
        r.next == s.(data := r.next.data, current := s.current + 1024, expected := s.expected + 1) &&
        r.reply == Some(BlockGood) && r.delivered == None
      else r == Reaction(s, Some(Fail), None)
  {
    hide AnnouncedLength;
  }

  /**
   * The last packet: taken if and only if it is the peer's, announces the same length, and the
   * length ends in its block; the tail is then stored, the buffer handed over with its length in
   * words, and the receiver idle. Refused, it changes nothing.
   */
  lemma LastExactly(s: Receiver, p: Packet, memory: Memory, now: int)
    requires s.Valid() && p.from != 0 && (p.kind == 2 || p.kind == 5)
    ensures var r := Receive(s, p, memory, now);
      var i := if s.expected >= 256 && s.expected % 256 == p.blockId then s.expected else p.blockId;
      if s.peer == p.from && AnnouncedLength(p) == s.total && 1024 * i <= s.total < 1024 * (i + 1) then
        r.next == Receiver(0, [], 0, 0, false, 0, s.expected) && r.reply == Some(AllGood) && r.delivered.Some? &&
        r.delivered.value.ubea == s.ubea && r.delivered.value.length == |s.data| == |r.delivered.value.buffer| &&
        forall j :: 0 <= j < |s.data| ==>
          r.delivered.value.buffer[j] == if 512 * i <= j then p.data[j - 512 * i] else s.data[j]
      else r == Reaction(s, Some(Fail), None)
  {
    hide AnnouncedLength;
  }

  lemma OtherKindsRefused(s: Receiver, p: Packet, memory: Memory, now: int)
    requires s.Valid() && p.from != 0 && p.kind > 5
    ensures Receive(s, p, memory, now) == Reaction(s, Some(Fail), None)
  {
    hide AnnouncedLength;
  }
}
