/** ArtDmx reception as the node performs it: arrays written in place, one output port after the other. */
module OutputPort {
  import opened ArtNetBytes
  import opened Common
  import opened DmxMerge

  class OutPort {
    var address: byte
    var enabled: bool
    var active: bool
    var length: int
    var mode: MergeMode
    var timeA: int
    var timeB: int
    var ipA: Addr
    var ipB: Addr
    const data: array<byte>
    const dataA: array<byte>
    const dataB: array<byte>

    ghost const Repr: set<object> := {this, data, dataA, dataB}

    ghost predicate Valid() {
      data.Length == dataA.Length == dataB.Length == DMX_LENGTH && data != dataA && data != dataB && dataA != dataB
    }

    ghost function View(): Port
      requires Valid()
      reads Repr
    {
      Port(ipA, ipB, timeA, timeB, dataA[..], dataB[..], data[..], length, mode)
    }

    constructor (address: byte)
      ensures Valid() && fresh(Repr) && View() == FRESH
      ensures this.address == address && !enabled && !active
    {
      this.address, enabled, active := address, false, false;
      length, mode, timeA, timeB, ipA, ipB := 0, Htp, 0, 0, 0, 0;
      data := new byte[DMX_LENGTH](_ => 0);
      dataA := new byte[DMX_LENGTH](_ => 0);
      dataB := new byte[DMX_LENGTH](_ => 0);
      new;
      assert data[..] == dataA[..] == dataB[..] == DARK;
    }

    /** check_merge_timeouts. */
    method CheckTimeouts(now: int)
      requires Valid()
      modifies this`ipA, this`ipB
      ensures View() == Expire(old(View()), now)
    {
      if now - timeA > MERGE_TIMEOUT {
        ipA := 0;
      }
      if now - timeB > MERGE_TIMEOUT {
        ipB := 0;
      }
    }

    method Receive(p: Packet)
      requires Valid()
      modifies Repr
      ensures View() == Step(old(View()), p) && active
      ensures address == old(address) && enabled == old(enabled)
    {
      var oldA, oldB := ipA, ipB;
      active := true;
      CheckTimeouts(p.checked);
      var n := p.Length();
      if oldA == 0 && oldB == 0 {
        ipA, timeA := p.from, p.now;
        Fill(dataA, p.payload, n);
        length := n;
        Fill(data, p.payload, n);
      } else if oldA == p.from && oldB == 0 {
        timeA := p.now;
        Fill(dataA, p.payload, n);
        length := n;
        Fill(data, p.payload, n);
      } else if oldA == 0 && oldB == p.from {
        timeB := p.now;
        Fill(dataB, p.payload, n);
        length := n;
        Fill(data, p.payload, n);
      } else if oldA != p.from && oldB == 0 {
        ipB, timeB := p.from, p.now;
        Fill(dataB, p.payload, n);
        length := n;
        Merge(n, dataB);
      } else if oldA == p.from && oldB != p.from {
        timeA := p.now;
        Fill(dataA, p.payload, n);
        length := n;
        Merge(n, dataA);
      } else if oldA != p.from && oldB == p.from {
        timeB := p.now;
        Fill(dataB, p.payload, n);
        length := n;
        Merge(n, dataB);
      }
    }

    method Merge(n: nat, newest: array<byte>)
      requires Valid() && n <= DMX_LENGTH && newest != data && newest.Length == DMX_LENGTH
      modifies data
      ensures View() == Merged(old(View()), n, newest[..])
    {
      if mode == Htp {
        for i := 0 to n
          invariant forall k :: 0 <= k < DMX_LENGTH ==>
            data[k] == if k < i then Max(dataA[k], dataB[k]) else old(data[k])
        {
          data[i] := if dataA[i] > dataB[i] then dataA[i] else dataB[i];
        }
        assert data[..] == CopyMax(old(data[..]), dataA[..], dataB[..], n);
      } else {
        Fill(data, newest[..], n);
      }
    }
  }

  /** memcpy. */
  method Fill(target: array<byte>, source: Frame, n: nat)
    requires target.Length == DMX_LENGTH && n <= DMX_LENGTH
    modifies target
    ensures target[..] == Copy(old(target[..]), source, n)
  {
    forall i | 0 <= i < n {
      target[i] := source[i];
    }
  }

  class DmxNode {
    const ports: seq<OutPort>

    ghost predicate Valid() {
      |ports| == MAX_PORTS && (forall i :: 0 <= i < MAX_PORTS ==> ports[i].Valid()) &&
      forall i, j :: 0 <= i < j < MAX_PORTS ==> ports[i].Repr !! ports[j].Repr
    }

    ghost function Repr(): set<object> {
      set i, o | 0 <= i < |ports| && o in ports[i].Repr :: o
    }

    constructor ()
      ensures Valid() && fresh(Repr())
      ensures forall i :: 0 <= i < MAX_PORTS ==> ports[i].View() == FRESH && !ports[i].enabled
    {
      hide OutPort.Valid, OutPort.View;
      var p0 := new OutPort(0);
      var p1 := new OutPort(0);
      var p2 := new OutPort(0);
      var p3 := new OutPort(0);
      ports := [p0, p1, p2, p3];
    }

    /**
     * handle_dmx, once the packet hook has let the packet through: every enabled port on the
     * packet's universe takes it, at that port's own clock readings, and no other port changes.
     * notified lists the ports the DMX callback is made for.
     */
    method HandleDmx(universe: word, from: Addr, announced: nat, payload: Frame, clock: nat -> (int, int))
      returns (notified: seq<nat>)
      requires Valid()
      modifies Repr()
      ensures forall i {:trigger ports[i]} :: 0 <= i < MAX_PORTS ==>
        ports[i].address == old(ports[i].address) && ports[i].enabled == old(ports[i].enabled) &&
        ports[i].View() ==
          if old(ports[i].enabled && universe == ports[i].address)
          then Step(old(ports[i].View()), Packet(from, announced, payload, clock(i).0, clock(i).1))
          else old(ports[i].View())
      ensures forall i: nat :: i in notified <==> i < MAX_PORTS && old(ports[i].enabled && universe == ports[i].address)
      ensures forall i, j :: 0 <= i < j < |notified| ==> notified[i] < notified[j]
    {
      hide Step, OutPort.View, OutPort.Valid;
      notified := [];
      for i := 0 to MAX_PORTS
        invariant forall j {:trigger ports[j]} :: 0 <= j < MAX_PORTS ==>
          ports[j].address == old(ports[j].address) && ports[j].enabled == old(ports[j].enabled) &&
          ports[j].View() ==
            if j < i && old(ports[j].enabled && universe == ports[j].address)
            then Step(old(ports[j].View()), Packet(from, announced, payload, clock(j).0, clock(j).1))
            else old(ports[j].View())
        invariant forall j: nat :: j in notified <==> j < i && old(ports[j].enabled && universe == ports[j].address)
        invariant forall j :: 0 <= j < |notified| ==> notified[j] < i
        invariant forall j, k :: 0 <= j < k < |notified| ==> notified[j] < notified[k]
      {
        if universe == ports[i].address && ports[i].enabled {
          ports[i].Receive(Packet(from, announced, payload, clock(i).0, clock(i).1));
          notified := notified + [i];
        }
      }
    }
  }
}
