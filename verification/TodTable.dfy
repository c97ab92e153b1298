/** The table of RDM devices of a port, a growable byte buffer, and its transmission in blocks. */
module TodTable {
  import opened ArtNetBytes
  import opened Common

  const UID_WIDTH := 6
  const INITIAL_SIZE := 100
  const INCREMENT := 50
  const MAX_UID_COUNT := 200

  type Uid = s: seq<byte> | |s| == 6 witness [0, 0, 0, 0, 0, 0]

  /** The bytes of a list of UIDs, one after the other. */
  function Flat(uids: seq<Uid>): (bytes: seq<byte>)
    ensures |bytes| == UID_WIDTH * |uids|
  {
    if uids == [] then [] else Flat(uids[..|uids| - 1]) + uids[|uids| - 1]
  }

  lemma {:induction false} FlatSplit(uids: seq<Uid>, k: nat)
    requires k <= |uids|
    ensures Flat(uids) == Flat(uids[..k]) + Flat(uids[k..])
  {
    var n := |uids| - 1;
    if k == |uids| {
      assert uids[..k] == uids && uids[k..] == [];
    } else {
      FlatSplit(uids[..n], k);
      assert uids[..n][..k] == uids[..k] && uids[..n][k..] == uids[k..][..n - k];
      assert uids[k..][n - k] == uids[n];
    }
  }

  /** Device k stands at bytes 6k to 6k + 5, as it was given. */
  lemma {:induction false} FlatAt(uids: seq<Uid>, k: nat, i: nat)
    requires k < |uids| && i < 6
    ensures Flat(uids)[6 * k + i] == uids[k][i]
  {
    if k < |uids| - 1 {
      FlatAt(uids[..|uids| - 1], k, i);
    }
  }

  // ----- transmission

  /** ArtTodData, the fields that depend on the table. */
  datatype Block = Block(totalHi: byte, total: byte, blockCount: byte, uidCount: byte, tod: seq<byte>)

  /** Block i of a table of n UIDs; what follows its UIDs in the packet is zero. */
  function BlockAt(uids: seq<Uid>, i: nat): Block
    requires MAX_UID_COUNT * i < |uids|
  {
    var lim := Min(MAX_UID_COUNT, |uids| - MAX_UID_COUNT * i);
    Block(|uids| / 256 % 256, |uids| % 256, i % 256, lim,
          Flat(uids[MAX_UID_COUNT * i..MAX_UID_COUNT * i + lim]) + seq(UID_WIDTH * (MAX_UID_COUNT - lim), _ => 0))
  }

  function BlockTotal(n: nat): nat {
    (n + MAX_UID_COUNT - 1) / MAX_UID_COUNT
  }

  /** Every block of a table, in order. */
  function AllBlocks(uids: seq<Uid>): seq<Block> {
    seq(BlockTotal(|uids|), i requires 0 <= i < BlockTotal(|uids|) => BlockAt(uids, i))
  }

  /** The UIDs a receiver reads out of a block. */
  function Payload(b: Block): seq<byte>
    requires |b.tod| == UID_WIDTH * MAX_UID_COUNT && b.uidCount <= MAX_UID_COUNT
  {
    b.tod[..UID_WIDTH * b.uidCount]
  }

  function Reassembled(blocks: seq<Block>): seq<byte>
    requires forall b :: b in blocks ==> |b.tod| == UID_WIDTH * MAX_UID_COUNT && b.uidCount <= MAX_UID_COUNT
  {
    if blocks == [] then [] else Reassembled(blocks[..|blocks| - 1]) + Payload(blocks[|blocks| - 1])
  }

  lemma PayloadAt(uids: seq<Uid>, i: nat)
    requires MAX_UID_COUNT * i < |uids|
    ensures var b := BlockAt(uids, i);
      |b.tod| == UID_WIDTH * MAX_UID_COUNT &&
      Payload(b) == Flat(uids[MAX_UID_COUNT * i..Min(MAX_UID_COUNT * (i + 1), |uids|)])
  {
  }

  lemma {:induction false} ReassembledPrefix(uids: seq<Uid>, k: nat)
    requires k <= BlockTotal(|uids|)
    ensures Reassembled(AllBlocks(uids)[..k]) == Flat(uids[..Min(MAX_UID_COUNT * k, |uids|)])
  {
    hide Flat, BlockAt, Payload;
    if k == 0 {
      assert uids[..0] == [];
      EmptyFlat();
    } else {
      var blocks := AllBlocks(uids)[..k];
      var from, to := MAX_UID_COUNT * (k - 1), Min(MAX_UID_COUNT * k, |uids|);
      assert blocks[..k - 1] == AllBlocks(uids)[..k - 1];
      ReassembledPrefix(uids, k - 1);
      PayloadAt(uids, k - 1);
      FlatSplit(uids[..to], from);
      assert uids[..to][..from] == uids[..from] && uids[..to][from..] == uids[from..to];
    }
  }

  lemma EmptyFlat()
    ensures Flat([]) == []
  {
  }

  /** The blocks put together are the table. */
  lemma BlocksCarryTable(uids: seq<Uid>)
    ensures Reassembled(AllBlocks(uids)) == Flat(uids)
  {
    var n := BlockTotal(|uids|);
    ReassembledPrefix(uids, n);
    hide BlockAt, Flat, Reassembled;
    assert AllBlocks(uids)[..n] == AllBlocks(uids);
    assert uids[..|uids|] == uids;
  }

  lemma InTable(n: nat, i: nat)
    requires i < BlockTotal(n)
    ensures 200 * i < n
  {
  }

  /** What each block says about itself: its number modulo 256, its share, and the table's size. */
  lemma {:induction false} BlockHeaders(uids: seq<Uid>, i: nat)
    requires i < BlockTotal(|uids|)
    ensures var b := AllBlocks(uids)[i];
      b.blockCount == i % 256 && b.uidCount == Min(200, |uids| - 200 * i) && b.uidCount > 0 &&
      (|uids| <= 0xFFFF ==> 256 * b.totalHi + b.total == |uids|)
  {
    hide Flat, BlockTotal;
    InTable(|uids|, i);
  }

  /** What follows the devices of a block is zero. */
  lemma {:induction false} BlockPadding(uids: seq<Uid>, i: nat, k: nat)
    requires i < BlockTotal(|uids|)
    ensures var b := AllBlocks(uids)[i];
      |b.tod| == 1200 && (6 * b.uidCount <= k < 1200 ==> b.tod[k] == 0)
  {
    hide Flat, BlockTotal;
    InTable(|uids|, i);
  }

  // ----- the table in the heap

  function Slice(bytes: seq<byte>, from: nat, count: nat): seq<byte>
    requires from + count <= |bytes|
  {
    bytes[from..from + count]
  }

  lemma SliceOfTake(bytes: seq<byte>, n: nat, from: nat, count: nat)
    requires from + count <= n <= |bytes|
    ensures Slice(bytes[..n], from, count) == bytes[from..from + count]
  {
  }

  lemma FlatSlice(uids: seq<Uid>, from: nat, to: nat)
    requires from <= to <= |uids|
    ensures Slice(Flat(uids), UID_WIDTH * from, UID_WIDTH * (to - from)) == Flat(uids[from..to])
  {
    FlatSplit(uids, to);
    FlatSplit(uids[..to], from);
    assert uids[..to][..from] == uids[..from] && uids[..to][from..] == uids[from..to];
  }

  const ZERO_UID: Uid := [0, 0, 0, 0, 0, 0]

  lemma {:induction false} ZeroFlat(n: nat)
    ensures Flat(seq(n, _ => ZERO_UID)) == seq(UID_WIDTH * n, _ => 0)
  {
    if n > 0 {
      ZeroFlat(n - 1);
      assert seq(n, _ => ZERO_UID)[..n - 1] == seq(n - 1, _ => ZERO_UID);
    }
  }

  class Tod {
    var data: array?<byte>
    var length: nat
    var maxLength: nat
    ghost var stored: seq<Uid>

    ghost predicate Valid()
      reads this, data
    {
      if data == null then stored == []
      else
        data.Length == UID_WIDTH * maxLength && |stored| == length <= maxLength &&
        data[..UID_WIDTH * length] == Flat(stored)
    }

    constructor ()
      ensures Valid() && stored == [] && data == null && length == 0
    {
      data, length, maxLength, stored := null, 0, 0, [];
    }

    /**
     * add_tod_uid: memory says whether malloc or realloc finds room. Where it does, the UID is
     * appended; where it does not, the table is gone, though length still has its old value.
     */
    method Add(uid: Uid, memory: bool) returns (ret: int)
      requires Valid()
      modifies this, data
      ensures Valid() && (data == old(data) || data == null || fresh(data))
      ensures ret == 0 <==> memory || old(data != null && length < maxLength)
      ensures ret == 0 ==> stored == old(stored) + [uid] && data != null && length == |stored|
      ensures ret == 0 && old(data == null) ==> maxLength == 100
      ensures ret == 0 && old(data != null) ==> maxLength == old(maxLength) + old(if length == maxLength then 50 else 0)
      ensures ret != 0 ==> ret == -2 && data == null && stored == [] && length == old(length)
    {
      hide Flat;
      if data == null {
        if !memory {
          return ARTNET_EMEM;
        }
        data := new byte[UID_WIDTH * INITIAL_SIZE](_ => 0);
        length, maxLength := 1, INITIAL_SIZE;
      } else if length == maxLength {
        var size := maxLength + INCREMENT;
        if !memory {
          data, stored := null, [];
          return ARTNET_EMEM;
        }
        var bigger := new byte[UID_WIDTH * size](_ => 0);
        forall i | 0 <= i < UID_WIDTH * length {
          bigger[i] := data[i];
        }
        assert bigger[..UID_WIDTH * length] == data[..UID_WIDTH * length];
        data := bigger;
        maxLength := size;
        length := length + 1;
      } else {
        length := length + 1;
      }
      FlatAppend(stored, uid);
      var at := UID_WIDTH * (length - 1);
      assert data[..at] == Flat(stored);
      forall i | 0 <= i < UID_WIDTH {
        data[at + i] := uid[i];
      }
      assert data[..at + UID_WIDTH] == Flat(stored) + uid;
      stored := stored + [uid];
      ret := 0;
    }

    /** flush_tod, and reset_tod for a table that owns nothing. */
    method Flush()
      modifies this
      ensures Valid() && stored == [] && data == null && length == 0 && maxLength == 0
    {
      data, length, maxLength, stored := null, 0, 0, [];
    }

    /** The UIDs that go out: the table, or zeros if its buffer is gone. */
    ghost function Outgoing(): seq<Uid>
      reads this
    {
      if data == null then seq(length, _ => ZERO_UID) else stored
    }

    /** Fills the datagram for block number bloc, when remaining UIDs are still to go. */
    method FillBlock(bloc: nat, remaining: nat) returns (block: Block)
      requires Valid() && 0 < remaining == length - MAX_UID_COUNT * bloc
      ensures block == BlockAt(Outgoing(), bloc)
    {
      ghost var uids := Outgoing();
      ZeroFlat(length);
      hide Flat;
      var lim := Min(MAX_UID_COUNT, remaining);
      var offset := (length - remaining) * UID_WIDTH;
      var tod := if data == null then seq(UID_WIDTH * lim, _ => 0) else data[offset..offset + lim * UID_WIDTH];
      FlatSlice(uids, MAX_UID_COUNT * bloc, MAX_UID_COUNT * bloc + lim);
      if data == null {
        assert Flat(uids) == seq(UID_WIDTH * length, _ => 0);
        assert tod == Slice(seq(UID_WIDTH * length, _ => 0), offset, UID_WIDTH * lim);
      } else {
        assert Flat(uids) == data[..UID_WIDTH * length];
        assert tod == data[..][offset..offset + lim * UID_WIDTH];
        SliceOfTake(data[..], UID_WIDTH * length, offset, UID_WIDTH * lim);
        assert tod == Slice(data[..UID_WIDTH * length], offset, UID_WIDTH * lim);
      }
      block := Block(length / 256 % 256, length % 256, bloc % 256, lim,
                     tod + seq(UID_WIDTH * (MAX_UID_COUNT - lim), _ => 0));
    }

    /**
     * artnet_tx_tod_data, with the network's answer to each datagram. The blocks attempted are the
     * blocks of the table in order, up to and including the first that fails.
     */
    method Transmit(accepts: nat -> bool) returns (ret: int, attempted: seq<Block>)
      requires Valid()
      ensures |attempted| <= BlockTotal(length) && attempted == AllBlocks(Outgoing())[..|attempted|]
      ensures forall i :: 0 <= i < |attempted| - 1 ==> accepts(i)
      ensures |attempted| < BlockTotal(length) ==> attempted != [] && !accepts(|attempted| - 1)
      ensures ret == if attempted != [] && !accepts(|attempted| - 1) then 1 else 0
    {
      hide BlockAt;
      var remaining, bloc := length, 0;
      ret, attempted := 0, [];
      ghost var uids := Outgoing();
      while remaining > 0
        invariant remaining == length - Min(length, MAX_UID_COUNT * bloc) && bloc <= BlockTotal(length)
        invariant |attempted| <= bloc && attempted == AllBlocks(uids)[..|attempted|]
        invariant forall i :: 0 <= i < |attempted| - 1 ==> accepts(i)
        invariant ret == 0 ==> |attempted| == bloc && (attempted != [] ==> accepts(|attempted| - 1))
        invariant ret != 0 ==> ret == 1 && attempted != [] && !accepts(|attempted| - 1)
      {
        var block := FillBlock(bloc, remaining);
        if ret == 0 {
          assert block == AllBlocks(uids)[bloc];
          attempted := attempted + [block];
          if !accepts(bloc) {
            ret := 1;
          }
        }
        bloc := bloc + 1;
        remaining := remaining - Min(MAX_UID_COUNT, remaining);
      }
    }
  }

  lemma FlatAppend(uids: seq<Uid>, uid: Uid)
    ensures Flat(uids + [uid]) == Flat(uids) + uid
  {
    assert (uids + [uid])[..|uids|] == uids;
  }
}
