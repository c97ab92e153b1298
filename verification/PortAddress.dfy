/** The addresses of a node's ports: a subnet nibble the ports share and a nibble of their own. */
module PortAddress {
  import opened ArtNetBytes
  import opened Common

  datatype Direction = Input | Output | Neither

  /** What one port records about its address: the one in force and the one last asked for. */
  datatype Gate = Gate(addr: byte, wanted: byte, enabled: bool, netCtl: bool)

  /** The address part of a node; refused says that a change was reported as a user failure. */
  datatype Board = Board(subnet: byte, wanted: byte, netCtl: bool, refused: bool,
    ins: seq<Gate>, outs: seq<Gate>, seqs: seq<byte>)

  datatype Code = Accepted | BadArgument | Replied(code: int)

  predicate Shaped(b: Board) {
    |b.ins| == |b.outs| == |b.seqs| == MAX_PORTS
  }

  /** The universe address: the subnet above, the port below. */
  function Joint(subnet: byte, addr: byte): byte {
    (subnet % 16) * 16 + addr % 16
  }

  datatype Setting = Subnet(subnet: byte) | Port(id: int, dir: Direction, addr: byte)

  /** A setting that artnet_set_port_addr takes; it lets 16 through, as the address 0. */
  predicate Sound(s: Setting) {
    s.Port? ==> 0 <= s.id < MAX_PORTS && s.addr <= 16 && s.dir != Neither
  }

  function Moved(gates: seq<Gate>, subnet: byte): (r: seq<Gate>)
    ensures |r| == |gates|
    ensures forall i :: 0 <= i < |r| ==> r[i] == gates[i].(addr := Joint(subnet, gates[i].addr))
  {
    seq(|gates|, i requires 0 <= i < |gates| => gates[i].(addr := Joint(subnet, gates[i].addr)))
  }

  predicate Changes(g: Gate, addr: byte) {
    !g.netCtl && (!g.enabled || addr % 16 != g.addr % 16)
  }

  function Assigned(g: Gate, subnet: byte, addr: byte): Gate {
    Gate(if Changes(g, addr) then Joint(subnet, addr) else g.addr, addr, true, g.netCtl)
  }

  function Apply(b: Board, s: Setting): (b': Board)
    requires Shaped(b)
    ensures Shaped(b')
  {
    if !Sound(s) then b
    else match s
      case Subnet(subnet) =>
        if b.netCtl then b.(wanted := subnet, refused := true)
        else if subnet == b.subnet then b.(wanted := subnet)
        else
          Board(subnet, subnet, b.netCtl, b.refused,
                Moved(b.ins, subnet), Moved(b.outs, subnet), seq(MAX_PORTS, _ => 0))
      case Port(id, dir, addr) =>
        var g := if dir == Input then b.ins[id] else b.outs[id];
        var g' := Assigned(g, b.subnet, addr);
        var refused := b.refused || g.netCtl;
        if dir == Output then b.(outs := b.outs[id := g'], refused := refused)
        else b.(ins := b.ins[id := g'], refused := refused,
          seqs := if Changes(g, addr) then b.seqs[id := 0] else b.seqs)
  }

  /** Whether a running node announces the setting with a poll reply. */
  predicate Announced(b: Board, s: Setting)
    requires Shaped(b) && Sound(s)
  {
    match s
    case Subnet(subnet) => !b.netCtl && subnet != b.subnet
    case Port(id, dir, addr) => Changes(if dir == Input then b.ins[id] else b.outs[id], addr)
  }

  // ----- what one setting does, in the numbers of the interface

  /**
   * artnet_set_port_addr: ports 0 to 3 in either direction and addresses up to 16 are taken, all
   * else is refused without effect. The port is then enabled; unless it is under network control
   * its address becomes the low four bits asked for below the subnet, and an input port starts its
   * sequence anew if that is a change. Everything else stays.
   */
  lemma PortSettingExactly(b: Board, id: int, dir: Direction, addr: byte, other: nat)
    requires Shaped(b) && other < 4
    ensures var b' := Apply(b, Port(id, dir, addr));
      if id < 0 || id > 3 || addr > 16 || dir == Neither then b' == b
      else (
        var g, g' := if dir == Input then b.ins[id] else b.outs[id], if dir == Input then b'.ins[id] else b'.outs[id];
        var changed := !g.netCtl && (!g.enabled || addr % 16 != g.addr % 16);
        g' == Gate(if changed then b.subnet % 16 * 16 + addr % 16 else g.addr, addr, true, g.netCtl) &&
        (other != id || dir == Output ==> b'.ins[other] == b.ins[other]) &&
        (other != id || dir == Input ==> b'.outs[other] == b.outs[other]) &&
        b'.seqs[other] == (if changed && dir == Input && other == id then 0 else b.seqs[other]) &&
        b'.subnet == b.subnet && b'.wanted == b.wanted && b'.netCtl == b.netCtl &&
        b'.refused == (b.refused || g.netCtl) &&
        (Announced(b, Port(id, dir, addr)) <==> changed))
  {
  }

  /**
   * artnet_set_subnet_addr: unless the subnet is under network control, a new one takes the upper
   * four bits of every port's address and starts every sequence anew. Everything else stays.
   */
  lemma SubnetSettingExactly(b: Board, subnet: byte, id: nat)
    requires Shaped(b) && id < 4
    ensures var b' := Apply(b, Subnet(subnet));
      var changed := !b.netCtl && subnet != b.subnet;
      b'.wanted == subnet && b'.netCtl == b.netCtl && b'.refused == (b.refused || b.netCtl) &&
      b'.subnet == (if changed then subnet else b.subnet) &&
      b'.ins[id] ==
        (if changed then b.ins[id].(addr := subnet % 16 * 16 + b.ins[id].addr % 16) else b.ins[id]) &&
      b'.outs[id] ==
        (if changed then b.outs[id].(addr := subnet % 16 * 16 + b.outs[id].addr % 16) else b.outs[id]) &&
      b'.seqs[id] == (if changed then 0 else b.seqs[id]) &&
      (Announced(b, Subnet(subnet)) <==> changed)
  {
  }

  /** A new node: subnet 0, no port enabled, all at address 0, nothing under network control. */
  lemma BlankExactly(id: nat)
    requires id < 4
    ensures var b := Blank();
      b.subnet == 0 && !b.netCtl && !b.refused && b.ins[id] == b.outs[id] == Gate(0, 0, false, false) && b.seqs[id] == 0
  {
  }

  // ----- what any run of settings comes to

  function Run(b: Board, settings: seq<Setting>): (b': Board)
    requires Shaped(b)
    ensures Shaped(b')
  {
    if settings == [] then b else Apply(Run(b, settings[..|settings| - 1]), settings[|settings| - 1])
  }

  /** The subnet asked for last, or the given one. */
  function LastSubnet(settings: seq<Setting>, before: byte): byte {
    if settings == [] then before
    else
      var s := settings[|settings| - 1];
      if s.Subnet? then s.subnet else LastSubnet(settings[..|settings| - 1], before)
  }

  /** The last accepted request for one port. */
  function LastAddr(settings: seq<Setting>, dir: Direction, id: nat): Option<byte> {
    if settings == [] then None
    else
      var s := settings[|settings| - 1];
      if s.Port? && Sound(s) && s.dir == dir && s.id == id then Some(s.addr)
      else LastAddr(settings[..|settings| - 1], dir, id)
  }

  function GateOf(b: Board, dir: Direction, id: nat): Gate
    requires Shaped(b) && id < MAX_PORTS && dir != Neither
  {
    if dir == Input then b.ins[id] else b.outs[id]
  }

  const UNSET := Gate(0, 0, false, false)

  /** A node from artnet_new: everything is cleared. */
  function Blank(): (b: Board)
    ensures Shaped(b)
  {
    Board(0, 0, false, false, [UNSET, UNSET, UNSET, UNSET], [UNSET, UNSET, UNSET, UNSET], [0, 0, 0, 0])
  }

  /** A port that was asked for has the last subnet above the last accepted address; no other is enabled. */
  predicate Follows(g: Gate, subnet: byte, last: Option<byte>) {
    !g.netCtl && (g.enabled <==> last.Some?) && g.addr == Joint(subnet, if last.Some? then last.value else 0)
  }

  lemma JointNibbles(subnet: byte, addr: byte)
    ensures Joint(subnet, addr) / 16 == subnet % 16 && Joint(subnet, addr) % 16 == addr % 16
  {
  }

  /** What one setting does to one port and to the subnet. */
  lemma GateStep(b: Board, s: Setting, dir: Direction, id: nat)
    requires Shaped(b) && id < MAX_PORTS && dir != Neither
    ensures var b', g := Apply(b, s), GateOf(b, dir, id);
      b'.netCtl == b.netCtl &&
      b'.subnet == (if s.Subnet? && !b.netCtl then s.subnet else b.subnet) &&
      GateOf(b', dir, id) ==
        if s.Subnet? then
          (if b'.subnet != b.subnet then g.(addr := Joint(b'.subnet, g.addr)) else g)
        else if Sound(s) && s.dir == dir && s.id == id then Assigned(g, b.subnet, s.addr)
        else g
  {
    hide Joint, Assigned, Changes;
  }

  /** A setting, on the assumption that every gate was following the settings so far. */
  lemma FollowsStep(g: Gate, subnet: byte, last: Option<byte>, subnet': byte, addr: byte)
    requires Follows(g, subnet, last)
    ensures Follows(g.(addr := Joint(subnet', g.addr)), subnet', last)
    ensures Follows(Assigned(g, subnet, addr), subnet, Some(addr))
  {
    hide Joint;
    var a := if last.Some? then last.value else 0;
    JointNibbles(subnet, a);
    JointAgain(subnet', g.addr, a);
    JointAgain(subnet, addr, a);
  }

  lemma JointAgain(subnet: byte, a: byte, b: byte)
    ensures a % 16 == b % 16 ==> Joint(subnet, a) == Joint(subnet, b)
  {
  }

  lemma {:induction false} AddressFollowsSettings(settings: seq<Setting>, dir: Direction, id: nat)
    requires id < MAX_PORTS && dir != Neither
    ensures var b' := Run(Blank(), settings);
      !b'.netCtl && b'.subnet == LastSubnet(settings, 0) &&
      Follows(GateOf(b', dir, id), b'.subnet, LastAddr(settings, dir, id))
  {
    hide Apply, Joint, GateOf, Follows, Assigned, Sound, Blank;
    if settings == [] {
      BlankFollows(dir, id);
    } else {
      var before, s := settings[..|settings| - 1], settings[|settings| - 1];
      AddressFollowsSettings(before, dir, id);
      var b' := Run(Blank(), before);
      GateStep(b', s, dir, id);
      FollowsStep(GateOf(b', dir, id), b'.subnet, LastAddr(before, dir, id),
        if s.Subnet? then s.subnet else 0, if s.Port? then s.addr else 0);
    }
  }

  lemma BlankFollows(dir: Direction, id: nat)
    requires id < MAX_PORTS && dir != Neither
    ensures Follows(GateOf(Blank(), dir, id), 0, None) && Blank().subnet == 0 && !Blank().netCtl
  {
    assert GateOf(Blank(), dir, id) == UNSET;
  }

  /**
   * Under network control the node keeps its subnet, and a port its own nibble, whatever is set;
   * every address stays within the subnet in force.
   */
  lemma {:induction false} ControlledStays(b: Board, settings: seq<Setting>, dir: Direction, id: nat)
    requires Shaped(b) && id < MAX_PORTS && dir != Neither
    requires GateOf(b, dir, id).addr / 16 == b.subnet % 16
    ensures var b' := Run(b, settings);
      var g, g' := GateOf(b, dir, id), GateOf(b', dir, id);
      b'.netCtl == b.netCtl && g'.netCtl == g.netCtl && g'.addr / 16 == b'.subnet % 16 &&
      (b.netCtl ==> b'.subnet == b.subnet) && (g.netCtl ==> g'.addr % 16 == g.addr % 16)
  {
    hide Apply, Joint, GateOf, Sound;
    if settings != [] {
      var before, s := settings[..|settings| - 1], settings[|settings| - 1];
      ControlledStays(b, before, dir, id);
      var b' := Run(b, before);
      GateStep(b', s, dir, id);
      JointNibbles(if s.Subnet? then s.subnet else b'.subnet, if s.Subnet? then GateOf(b', dir, id).addr else s.addr);
    }
  }

  // ----- the node

  class ArtNode {
    var subnet: byte
    var wanted: byte
    var netCtl: bool
    var refused: bool
    var on: bool
    const ins: array<Gate>
    const outs: array<Gate>
    const seqs: array<byte>

    ghost const Repr: set<object> := {this, ins, outs, seqs}

    ghost predicate Valid() {
      ins.Length == outs.Length == seqs.Length == MAX_PORTS && ins != outs
    }

    ghost function View(): (b: Board)
      requires Valid()
      reads Repr
      ensures Shaped(b)
    {
      Board(subnet, wanted, netCtl, refused, ins[..], outs[..], seqs[..])
    }

    /** The address part of artnet_new. */
    constructor ()
      ensures Valid() && fresh(Repr) && View() == Blank() && !on
    {
      subnet, wanted, netCtl, refused, on := 0, 0, false, false, false;
      ins := new Gate[MAX_PORTS](_ => UNSET);
      outs := new Gate[MAX_PORTS](_ => UNSET);
      seqs := new byte[MAX_PORTS](_ => 0);
    }

    /** artnet_set_subnet_addr; reply is what building and sending the poll reply returns. */
    method SetSubnetAddr(subnet: byte, reply: int) returns (code: Code)
      requires Valid()
      modifies Repr
      ensures View() == Apply(old(View()), Subnet(subnet)) && on == old(on)
      ensures code == if on && old(Announced(View(), Subnet(subnet))) then Replied(reply) else Accepted
    {
      wanted := subnet;
      if !netCtl && subnet != this.subnet {
        this.subnet := subnet;
        for i := 0 to MAX_PORTS
          invariant forall k :: 0 <= k < i ==> ins[k] == old(ins[k]).(addr := Joint(subnet, old(ins[k]).addr))
          invariant forall k :: 0 <= k < i ==> outs[k] == old(outs[k]).(addr := Joint(subnet, old(outs[k]).addr))
          invariant forall k :: i <= k < MAX_PORTS ==> ins[k] == old(ins[k]) && outs[k] == old(outs[k])
          invariant forall k :: 0 <= k < i ==> seqs[k] == 0
          invariant this.subnet == wanted == subnet && netCtl == old(netCtl) && refused == old(refused) && on == old(on)
        {
          ins[i] := ins[i].(addr := Joint(subnet, ins[i].addr));
          seqs[i] := 0;
          outs[i] := outs[i].(addr := Joint(subnet, outs[i].addr));
        }
        assert ins[..] == Moved(old(ins[..]), subnet);
        assert outs[..] == Moved(old(outs[..]), subnet);
        assert seqs[..] == seq(MAX_PORTS, _ => 0);
        if on {
          return Replied(reply);
        }
      } else if netCtl {
        refused := true;
      }
      code := Accepted;
    }

    /** artnet_set_port_addr. */
    method SetPortAddr(id: int, dir: Direction, addr: byte, reply: int) returns (code: Code)
      requires Valid()
      modifies Repr
      ensures View() == Apply(old(View()), Port(id, dir, addr)) && on == old(on)
      ensures code == if !Sound(Port(id, dir, addr)) then BadArgument
        else if on && old(Announced(View(), Port(id, dir, addr))) then Replied(reply) else Accepted
    {
      if id < 0 || id >= MAX_PORTS {
        return BadArgument;
      }
      if addr > 16 {
        return BadArgument;
      }
      var gates, changed;
      if dir == Input {
        gates, changed := ins, !ins[id].enabled;
      } else if dir == Output {
        gates, changed := outs, !outs[id].enabled;
      } else {
        return BadArgument;
      }
      gates[id] := gates[id].(enabled := true, wanted := addr);
      if !gates[id].netCtl && (changed || addr % 16 != gates[id].addr % 16) {
        gates[id] := gates[id].(addr := Joint(subnet, addr));
        if dir == Input {
          seqs[id] := 0;
        }
        if on {
          return Replied(reply);
        }
      } else if gates[id].netCtl {
        refused := true;
      }
      code := Accepted;
    }
  }
}
