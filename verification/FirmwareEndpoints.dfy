/** The two ends of an upload as the source keeps them: records updated in place over heap buffers. */
module FirmwareEndpoints {
  import opened ArtNetBytes
  import opened Common
  import opened Firmware

  /** node->firmware of a receiving node. */
  class UploadReceiver {
    var peer: Addr
    var data: array?<word>
    var current: int
    var total: int
    var ubea: bool
    var lastTime: int
    var expected: nat

    ghost predicate Valid()
      reads this, data
    {
      View().Valid() && (peer == 0 ==> data == null)
    }

    ghost function View(): Receiver
      reads this, data
    {
      Receiver(peer, if data == null then [] else data[..], current, total, ubea, lastTime, expected)
    }

    constructor ()
      ensures Valid() && View() == Receiver(0, [], 0, 0, false, 0, 0)
    {
      peer, data, current, total, ubea, lastTime, expected := 0, null, 0, 0, false, 0, 0;
    }

    /** reset_firmware_upload; a freed buffer becomes null. */
    method Reset()
      requires Valid()
      modifies this
      ensures Valid() && View() == ResetUpload(old(View()))
    {
      current, total, peer, ubea, lastTime := 0, 0, 0, false, 0;
      data := null;
    }

    method CheckTimeouts(now: int)
      requires Valid()
      modifies this
      ensures Valid() && View() == Firmware.CheckTimeouts(old(View()), now)
    {
      if peer != 0 && now - lastTime >= UPLOAD_TIMEOUT {
        Reset();
      }
    }

    /** memcpy of count words of a packet to data + offset. */
    method Store(offset: nat, block: Block, count: nat)
      requires data != null && offset + count <= data.Length && count <= |block|
      modifies data
      ensures data[..] == Overwrite(old(data[..]), offset, block[..count])
    {
      forall i | 0 <= i < count {
        data[offset + i] := block[i];
      }
    }

    method BeginUpload(p: Packet, memory: Memory, now: int)
      returns (reply: Option<Status>, delivered: Option<Delivery>)
      requires Valid() && p.from != 0
      modifies this
      ensures Valid() && (data == old(data) || data == null || fresh(data))
      ensures Reaction(View(), reply, delivered) == ReceiveFirst(old(View()), p, memory, now)
    {
      hide AnnouncedLength;
      delivered := None;
      if peer != 0 {
        return Some(Fail), None;
      }
      var length := AnnouncedLength(p);
      peer := p.from;
      if length < 0 || memory.None? {
        data := null;
        return None, None;
      }
      data := new word[length / 2](i requires 0 <= i => memory.value(i));
      assert data[..] == seq<word>(length / 2, i requires 0 <= i => memory.value(i));
      total, lastTime, expected := length, now, 1;
      ubea := p.kind == UBEA_FIRST;
      var size := Min(length, BYTES_PER_BLOCK);
      Store(0, p.data, size / 2);
      current := size;
      if size == length {
        reply, delivered := Some(AllGood), Some(Delivery(ubea, data[..], total));
      } else {
        reply := Some(BlockGood);
      }
    }

    method ContinueUpload(p: Packet) returns (reply: Status)
      requires Valid() && p.from != 0
      modifies this, data
      ensures Valid() && data == old(data)
      ensures Reaction(View(), Some(reply), None) == ReceiveCont(old(View()), p)
    {
      hide AnnouncedLength;
      var length := AnnouncedLength(p);
      var blockId: nat := p.blockId;
      if expected > 255 && expected % 256 == p.blockId {
        blockId := expected;
      }
      if peer == p.from && length == total && blockId < CDiv(length, BYTES_PER_BLOCK) {
        Store(WORDS_PER_BLOCK * blockId, p.data, WORDS_PER_BLOCK);
        assert p.data[..WORDS_PER_BLOCK] == p.data;
        current := current + BYTES_PER_BLOCK;
        expected := expected + 1;
        reply := BlockGood;
      } else {
        reply := Fail;
      }
    }

    method FinishUpload(p: Packet) returns (reply: Status, delivered: Option<Delivery>)
      requires Valid() && p.from != 0
      modifies this, data
      ensures Valid() && (data == old(data) || data == null)
      ensures Reaction(View(), Some(reply), delivered) == ReceiveLast(old(View()), p)
    {
      hide AnnouncedLength;
      var length := AnnouncedLength(p);
      var blockId: nat := p.blockId;
      if expected > 255 && expected % 256 == p.blockId {
        blockId := expected;
      }
      if peer == p.from && length == total && blockId == CDiv(length, BYTES_PER_BLOCK) {
        if data != null {
          Store(WORDS_PER_BLOCK * blockId, p.data, total % BYTES_PER_BLOCK / 2);
        }
        current := current + total % BYTES_PER_BLOCK;
        delivered := Some(Delivery(ubea, if data == null then [] else data[..], total / 2));
        Reset();
        reply := AllGood;
      } else {
        reply, delivered := Fail, None;
      }
    }

    /** handle_firmware. */
    method HandleFirmware(p: Packet, memory: Memory, now: int)
      returns (reply: Option<Status>, delivered: Option<Delivery>)
      requires Valid() && p.from != 0
      modifies this, data
      ensures Valid() && (data == old(data) || data == null || fresh(data))
      ensures Reaction(View(), reply, delivered) == Receive(old(View()), p, memory, now)
    {
      delivered := None;
      if p.kind == FIRM_FIRST || p.kind == UBEA_FIRST {
        reply, delivered := BeginUpload(p, memory, now);
      } else if p.kind == FIRM_CONT || p.kind == UBEA_CONT {
        var status := ContinueUpload(p);
        reply := Some(status);
      } else if p.kind == FIRM_LAST || p.kind == UBEA_LAST {
        var status;
        status, delivered := FinishUpload(p);
        reply := Some(status);
      } else {
        reply := Some(Fail);
      }
    }
  }

  /** The firmware record of a node entry, at the sending node. */
  class UploadSender {
    var data: array?<word>
    var current: nat
    var total: nat
    var ubea: bool
    var expected: byte
    var lastTime: int

    ghost predicate Valid()
      reads this, data
    {
      View().Valid() && total < 0x8000_0000
    }

    ghost function View(): Sender
      reads this, data
    {
      Sender(if data == null then [] else data[..], current, total, ubea, expected, lastTime)
    }

    constructor ()
      ensures Valid() && View() == IDLE
    {
      data, current, total, ubea, expected, lastTime := null, 0, 0, false, 0, 0;
    }

    /**
     * artnet_send_firmware: keeps its own copy of the caller's image and sends the first packet.
     * Without memory the record loses its buffer and keeps everything else, so that it stays
     * consistent only if no transfer was in progress.
     */
    method SendFirmware(image: array<word>, isUbea: bool, me: Addr, memory: bool, sent: bool, now: int)
      returns (ret: int, packet: Option<Packet>)
      requires 2 * image.Length < 0x8000_0000
      modifies this
      ensures ret == if !memory then -2 else if sent then 0 else -1
      ensures memory ==> Valid() && fresh(data)
      ensures memory ==> Progress(View(), packet, None) == TransmitNext(Start(image[..], isUbea), me, sent, now)
      ensures !memory ==> packet == None && View() == old(View()).(data := [])
      ensures !memory && old(Valid()) ==> (Valid() <==> old(total) == 0)
    {
      if !memory {
        data := null;
        return ARTNET_EMEM, None;
      }
      data := new word[image.Length](i requires 0 <= i < image.Length reads image => image[i]);
      assert data[..] == image[..];
      current, total, ubea, expected, lastTime := 0, 2 * image.Length, isUbea, 0, 0;
      packet := TransmitPacket(me, sent, now);
      ret := if sent then ARTNET_EOK else ARTNET_ENET;
    }

    /** artnet_tx_firmware_packet. */
    method TransmitPacket(me: Addr, sent: bool, now: int) returns (packet: Option<Packet>)
      requires Valid()
      modifies this
      ensures Valid() && data == old(data)
      ensures Progress(View(), packet, None) == TransmitNext(old(View()), me, sent, now)
    {
      hide IntToQuad;
      var size := Min(total - current, BYTES_PER_BLOCK);
      var kind := if current == 0 then FIRM_FIRST else if size == BYTES_PER_BLOCK then FIRM_CONT else FIRM_LAST;
      if ubea {
        kind := kind + UBEA_FIRST;
      }
      var from := current / 2;
      var chunk := if data == null then [] else data[from..from + size / 2];
      if sent {
        packet := Some(Packet(me, kind, expected, IntToQuad(total / 2),
                              Overwrite(seq(WORDS_PER_BLOCK, _ => 0), 0, chunk)));
        current := current + size;
        lastTime := now;
        expected := (expected + 1) % 256;
      } else {
        packet := None;
      }
    }

    /** handle_firmware_reply. */
    method HandleReply(status: Status, me: Addr, sent: bool, now: int)
      returns (packet: Option<Packet>, outcome: Option<Status>)
      requires Valid()
      modifies this
      ensures Valid()
      ensures Progress(View(), packet, outcome) == Firmware.HandleReply(old(View()), status, me, sent, now)
    {
      packet, outcome := None, None;
      if total == 0 {
        return;
      }
      match status {
        case AllGood =>
          if total == current {
            outcome := Some(AllGood);
            Clear();
          }
        case Fail =>
          outcome := Some(Fail);
          Clear();
        case BlockGood =>
          if total != current {
            packet := TransmitPacket(me, sent, now);
          }
      }
    }

    /** The memset that ends a transfer. */
    method Clear()
      modifies this
      ensures Valid() && View() == IDLE
    {
      data, current, total, ubea, expected, lastTime := null, 0, 0, false, 0, 0;
    }
  }
}
