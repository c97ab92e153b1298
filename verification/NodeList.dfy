/** The list of nodes that have answered a poll: a linked list in the heap that behaves as a map by address. */
module NodeList {
  import opened ArtNetBytes
  import opened Common

  /**
   * The part of a node's entry the list is searched by, and the rest of it as opaque content. The
   * entry has MAX_PORTS output universes, but the reply may announce any 16-bit number of ports:
   * swout holds the bytes from the universes on, those of whatever follows them included.
   */
  datatype Public = Public(numports: int, swout: seq<byte>, details: seq<byte>)
  {
    /** The ports a search looks at; none when the announced number turns out negative. */
    function Ports(): (n: nat)
      ensures numports >= 0 ==> n == numports
      ensures numports < 0 ==> n == 0
    {
      if numports < 0 then 0 else numports
    }

    predicate Valid() {
      -0x8000 <= numports < 0x8000 && MAX_PORTS <= |swout| && numports <= |swout|
    }
  }

  datatype Item = Item(ip: Addr, pub: Public)

  // ----- the list as a value

  function Find(items: seq<Item>, ip: Addr): (i: nat)
    ensures i <= |items|
    ensures forall j :: 0 <= j < i ==> items[j].ip != ip
    ensures i < |items| ==> items[i].ip == ip
  {
    if items == [] || items[0].ip == ip then 0 else 1 + Find(items[1..], ip)
  }

  /** What a poll reply does to the list. */
  function Upsert(items: seq<Item>, ip: Addr, pub: Public): seq<Item> {
    var i := Find(items, ip);
    if i < |items| then items[i := Item(ip, pub)] else items + [Item(ip, pub)]
  }

  predicate Keyed(items: seq<Item>) {
    forall i, j :: 0 <= i < j < |items| ==> items[i].ip != items[j].ip
  }

  function Lookup(items: seq<Item>, ip: Addr): Option<Public> {
    var i := Find(items, ip);
    if i < |items| then Some(items[i].pub) else None
  }

  /** The list after a history of replies. */
  function Build(replies: seq<Item>): seq<Item> {
    if replies == [] then []
    else
      var last := replies[|replies| - 1];
      Upsert(Build(replies[..|replies| - 1]), last.ip, last.pub)
  }

  // ----- what the history says

  function LatestReply(replies: seq<Item>, ip: Addr): Option<Public> {
    if replies == [] then None
    else
      var last := replies[|replies| - 1];
      if last.ip == ip then Some(last.pub) else LatestReply(replies[..|replies| - 1], ip)
  }

  /** The addresses heard from, in the order of their first reply. */
  function FirstHeard(replies: seq<Item>): seq<Addr> {
    if replies == [] then []
    else
      var earlier := FirstHeard(replies[..|replies| - 1]);
      var ip := replies[|replies| - 1].ip;
      if ip in earlier then earlier else earlier + [ip]
  }

  function Addresses(items: seq<Item>): seq<Addr> {
    seq(|items|, i requires 0 <= i < |items| => items[i].ip)
  }

  lemma {:induction false} FindAt(items: seq<Item>, i: nat)
    requires Keyed(items) && i < |items|
    ensures Find(items, items[i].ip) == i
  {
    var j := Find(items, items[i].ip);
    assert j >= |items| || items[j].ip == items[i].ip;
  }

  lemma UpsertLookup(items: seq<Item>, ip: Addr, pub: Public, other: Addr)
    requires Keyed(items)
    ensures var updated := Upsert(items, ip, pub);
      Keyed(updated) && Lookup(updated, other) == (if other == ip then Some(pub) else Lookup(items, other)) &&
      Addresses(updated) == if ip in Addresses(items) then Addresses(items) else Addresses(items) + [ip]
  {
    var i, j := Find(items, ip), Find(items, other);
    var updated := Upsert(items, ip, pub);
    assert i < |items| ==> Addresses(items)[i] == ip;
    FindAt(updated, if other == ip then i else if j < |items| then j else 0);
    if j == |items| && other != ip {
      assert forall k :: 0 <= k < |items| ==> items[k].ip != other;
      assert Find(updated, other) == |updated|;
    }
  }

  /**
   * The list is a map with a memory of order: after any history of replies, looking an address up
   * gives its latest reply, no address occurs twice, and entries stand in the order first heard.
   */
  lemma {:induction false} ListAgreesWithHistory(replies: seq<Item>, ip: Addr)
    ensures Keyed(Build(replies))
    ensures Lookup(Build(replies), ip) == LatestReply(replies, ip)
    ensures Addresses(Build(replies)) == FirstHeard(replies)
  {
    if replies != [] {
      var rest, last := replies[..|replies| - 1], replies[|replies| - 1];
      ListAgreesWithHistory(rest, ip);
      UpsertLookup(Build(rest), last.ip, last.pub, ip);
    }
  }

  // ----- searching by universe

  /** How many of a node's first n ports output the universe. */
  function PortsOn(pub: Public, uni: byte, n: nat): (c: nat)
    requires n <= |pub.swout|
    ensures c <= n
  {
    if n == 0 then 0 else PortsOn(pub, uni, n - 1) + if pub.swout[n - 1] == uni then 1 else 0
  }

  predicate Valids(items: seq<Item>) {
    forall i :: 0 <= i < |items| ==> items[i].pub.Valid()
  }

  /** The nodes that output the universe, in list order. */
  function MatchingNodes(items: seq<Item>, uni: byte): seq<Addr>
    requires Valids(items)
  {
    if items == [] then []
    else
      var last := items[|items| - 1];
      MatchingNodes(items[..|items| - 1], uni) + if PortsOn(last.pub, uni, last.pub.Ports()) > 0 then [last.ip] else []
  }

  function MatchingPorts(items: seq<Item>, uni: byte): nat
    requires Valids(items)
  {
    if items == [] then 0
    else
      var last := items[|items| - 1];
      MatchingPorts(items[..|items| - 1], uni) + PortsOn(last.pub, uni, last.pub.Ports())
  }

  predicate OnePortEach(items: seq<Item>, uni: byte)
    requires Valids(items)
  {
    forall i :: 0 <= i < |items| ==> PortsOn(items[i].pub, uni, items[i].pub.Ports()) <= 1
  }

  /** The number find_nodes_from_uni returns counts ports; it counts nodes just when no node repeats the universe. */
  lemma {:induction false} PortsVersusNodes(items: seq<Item>, uni: byte)
    requires Valids(items)
    ensures MatchingPorts(items, uni) >= |MatchingNodes(items, uni)|
    ensures MatchingPorts(items, uni) == |MatchingNodes(items, uni)| <==> OnePortEach(items, uni)
  {
    if items != [] {
      var rest, last := items[..|items| - 1], items[|items| - 1];
      PortsVersusNodes(rest, uni);
      assert OnePortEach(items, uni) <==> OnePortEach(rest, uni) && PortsOn(last.pub, uni, last.pub.Ports()) <= 1;
    }
  }

  lemma OneMore<T>(s: set<T>, t: set<T>, x: T)
    requires x !in t && forall y :: y in s <==> y in t || y == x
    ensures |s| == |t| + 1
  {
    assert s == t + {x};
  }

  lemma NoMore<T>(s: set<T>, t: set<T>)
    requires forall y :: y in s <==> y in t
    ensures |s| == |t|
  {
    assert s == t;
  }

  /** PortsOn counts the ports whose universe is exactly the one asked for. */
  lemma {:induction false} PortsOnCounts(pub: Public, uni: byte, n: nat)
    requires n <= |pub.swout|
    ensures PortsOn(pub, uni, n) == |set i: nat | i < n && pub.swout[i] == uni|
  {
    var s := set i: nat | i < n && pub.swout[i] == uni;
    if n > 0 {
      PortsOnCounts(pub, uni, n - 1);
      var t := set i: nat | i < n - 1 && pub.swout[i] == uni;
      if pub.swout[n - 1] == uni {
        OneMore(s, t, n - 1);
      } else {
        NoMore(s, t);
      }
    }
  }

  /** A node matches if and only if one of its ports is on the universe. */
  lemma {:induction false} SomePortOn(pub: Public, uni: byte, n: nat)
    requires n <= |pub.swout|
    ensures PortsOn(pub, uni, n) > 0 <==> exists i :: 0 <= i < n && pub.swout[i] == uni
  {
    if n > 0 {
      SomePortOn(pub, uni, n - 1);
    }
  }

  predicate Matches(e: Item, ip: Addr, uni: byte)
    requires e.pub.Valid()
  {
    e.ip == ip && exists i :: 0 <= i < e.pub.Ports() && e.pub.swout[i] == uni
  }

  /** The matching nodes are exactly those of the list with a port on the universe. */
  lemma {:induction false} MatchingExactly(items: seq<Item>, uni: byte, ip: Addr)
    requires Valids(items)
    ensures ip in MatchingNodes(items, uni) <==> exists k :: 0 <= k < |items| && Matches(items[k], ip, uni)
  {
    if items != [] {
      var rest, last := items[..|items| - 1], items[|items| - 1];
      MatchingExactly(rest, uni, ip);
      SomePortOn(last.pub, uni, last.pub.Ports());
      assert items == rest + [last];
      hide Matches, PortsOn;
      assert (exists k :: 0 <= k < |items| && Matches(items[k], ip, uni)) <==>
        Matches(last, ip, uni) || exists k :: 0 <= k < |rest| && Matches(rest[k], ip, uni) by {
        SplitLast(items, ip, uni);
      }
      MatchesMeans(last, ip, uni);
    }
  }

  lemma SplitLast(items: seq<Item>, ip: Addr, uni: byte)
    requires Valids(items) && items != []
    ensures var rest, last := items[..|items| - 1], items[|items| - 1];
      (exists k :: 0 <= k < |items| && Matches(items[k], ip, uni)) <==>
        (Matches(last, ip, uni) || exists k :: 0 <= k < |rest| && Matches(rest[k], ip, uni))
  {
    hide Matches;
    var rest, last := items[..|items| - 1], items[|items| - 1];
    if k :| 0 <= k < |items| && Matches(items[k], ip, uni) {
      assert k < |rest| ==> rest[k] == items[k];
    }
    if k :| 0 <= k < |rest| && Matches(rest[k], ip, uni) {
      assert items[k] == rest[k];
    }
  }

  lemma MatchesMeans(e: Item, ip: Addr, uni: byte)
    requires e.pub.Valid()
    ensures Matches(e, ip, uni) <==> e.ip == ip && exists i :: 0 <= i < e.pub.Ports() && e.pub.swout[i] == uni
  {
  }

  /** They stand in list order, each once: at ascending positions of the list. */
  lemma {:induction false} MatchingInOrder(items: seq<Item>, uni: byte) returns (at: seq<nat>)
    requires Valids(items)
    ensures |at| == |MatchingNodes(items, uni)|
    ensures forall i :: 0 <= i < |at| ==> at[i] < |items| && items[at[i]].ip == MatchingNodes(items, uni)[i]
    ensures forall i, j :: 0 <= i < j < |at| ==> at[i] < at[j]
  {
    hide PortsOn;
    if items == [] {
      at := [];
    } else {
      var k := |items| - 1;
      at := MatchingInOrder(items[..k], uni);
      if PortsOn(items[k].pub, uni, items[k].pub.Ports()) > 0 {
        at := at + [k];
      }
    }
  }

  /** The ports on the universe of the nodes before k, and of node k's first n ports. */
  function PairsUpTo(items: seq<Item>, uni: byte, k: nat, n: nat): set<(nat, nat)>
    requires Valids(items)
  {
    set a: nat, i: nat | a < |items| && i < items[a].pub.Ports() && items[a].pub.swout[i] == uni &&
      (a < k || (a == k && i < n)) :: (a, i)
  }

  /** The number find_nodes_from_uni returns is that of all ports on the universe, of all nodes. */
  lemma MatchingPortsCounts(items: seq<Item>, uni: byte)
    requires Valids(items)
    ensures MatchingPorts(items, uni) ==
      |set a: nat, i: nat | a < |items| && i < items[a].pub.Ports() && items[a].pub.swout[i] == uni :: (a, i)|
  {
    PairsCount(items, uni, |items|, 0);
    assert items[..|items|] == items;
    NoMore(set a: nat, i: nat | a < |items| && i < items[a].pub.Ports() && items[a].pub.swout[i] == uni :: (a, i),
           PairsUpTo(items, uni, |items|, 0));
  }

  lemma {:induction false} PairsCount(items: seq<Item>, uni: byte, k: nat, n: nat)
    requires Valids(items) && k <= |items| && n <= if k < |items| then items[k].pub.Ports() else 0
    ensures |PairsUpTo(items, uni, k, n)| ==
      MatchingPorts(items[..k], uni) + if k < |items| then PortsOn(items[k].pub, uni, n) else 0
    decreases k, n
  {
    if n > 0 {
      PairsCount(items, uni, k, n - 1);
      if items[k].pub.swout[n - 1] == uni {
        OneMore(PairsUpTo(items, uni, k, n), PairsUpTo(items, uni, k, n - 1), (k, n - 1));
      } else {
        NoMore(PairsUpTo(items, uni, k, n), PairsUpTo(items, uni, k, n - 1));
      }
    } else if k > 0 {
      var ports := items[k - 1].pub.Ports();
      PairsCount(items, uni, k - 1, ports);
      assert items[..k][..k - 1] == items[..k - 1];
      NoMore(PairsUpTo(items, uni, k, 0), PairsUpTo(items, uni, k - 1, ports));
    } else {
      var none: set<(nat, nat)> := {};
      NoMore(PairsUpTo(items, uni, 0, 0), none);
    }
  }

  // ----- sending DMX

  datatype Target = Broadcast | Unicast(ip: Addr)

  /** What find_nodes_from_uni leaves in an array of addresses that held before. */
  function Filled(before: seq<Addr>, nodes: seq<Addr>): (after: seq<Addr>)
    ensures |after| == |before|
    ensures forall i :: 0 <= i < |before| ==> after[i] == if i < |nodes| then nodes[i] else before[i]
  {
    var n := Min(|before|, |nodes|);
    nodes[..n] + before[n..]
  }

  lemma SearchBegin(items: seq<Item>, uni: byte, before: seq<Addr>)
    requires Valids(items)
    ensures items[..0] == [] && items[..|items|] == items
    ensures MatchingPorts(items[..0], uni) == 0 && MatchingNodes(items[..0], uni) == []
    ensures Filled(before, MatchingNodes(items[..0], uni)) == before
  {
  }

  /** One more node of the list, seen from the results of the search so far. */
  lemma SearchStep(items: seq<Item>, k: nat, uni: byte, before: seq<Addr>)
    requires Valids(items) && k < |items|
    ensures var (seen, more) := (items[..k], items[..k + 1]);
      var c := PortsOn(items[k].pub, uni, items[k].pub.Ports());
      var j := Min(|before|, |MatchingNodes(seen, uni)|);
      var found := c > 0 && j < |before|;
      MatchingPorts(more, uni) == MatchingPorts(seen, uni) + c &&
      Min(|before|, |MatchingNodes(more, uni)|) == (if found then j + 1 else j) &&
      Filled(before, MatchingNodes(more, uni)) ==
        if found then Filled(before, MatchingNodes(seen, uni))[j := items[k].ip]
        else Filled(before, MatchingNodes(seen, uni))
  {
    MatchingSnoc(items, k, uni);
    FilledSnoc(before, MatchingNodes(items[..k], uni), items[k].ip);
    hide MatchingNodes, MatchingPorts, PortsOn, Filled;
    assert MatchingNodes(items[..k], uni) + [] == MatchingNodes(items[..k], uni);
  }

  lemma MatchingSnoc(items: seq<Item>, k: nat, uni: byte)
    requires Valids(items) && k < |items|
    ensures var c := PortsOn(items[k].pub, uni, items[k].pub.Ports());
      MatchingPorts(items[..k + 1], uni) == MatchingPorts(items[..k], uni) + c &&
      MatchingNodes(items[..k + 1], uni) == MatchingNodes(items[..k], uni) + if c > 0 then [items[k].ip] else []
  {
    hide PortsOn;
    assert items[..k + 1][..k] == items[..k];
  }

  lemma FilledSnoc(before: seq<Addr>, nodes: seq<Addr>, ip: Addr)
    ensures Filled(before, nodes + [ip]) ==
      if |nodes| < |before| then Filled(before, nodes)[|nodes| := ip] else Filled(before, nodes)
  {
  }

  /**
   * The datagrams artnet_send_dmx hands to the network when each send succeeds. scratch is what
   * malloc returned for the address array, with the addresses it happened to hold.
   */
  function Targets(items: seq<Item>, uni: byte, limit: nat, scratch: Option<seq<Addr>>): seq<Target>
    requires Valids(items) && (scratch.Some? ==> |scratch.value| == limit)
  {
    if limit == 0 || scratch.None? then [Broadcast]
    else
      var count := MatchingPorts(items, uni);
      if count > limit then [Broadcast]
      else
        PortsVersusNodes(items, uni);
        var ips := Filled(scratch.value, MatchingNodes(items, uni));
        seq(count, i requires 0 <= i < count => Unicast(ips[i]))
  }

  /**
   * The matching nodes are sent to, once each, in order and nobody else, if and only if the limit
   * is positive and covers them, memory was found, and no node repeats the universe. When one
   * does, ports are counted for nodes: the datagram is broadcast although the nodes are within
   * the limit, or addresses that were never written are used as well.
   */
  lemma UnicastExactly(items: seq<Item>, uni: byte, limit: nat, scratch: Option<seq<Addr>>)
    requires Valids(items) && (scratch.Some? ==> |scratch.value| == limit)
    ensures var nodes := MatchingNodes(items, uni);
      Targets(items, uni, limit, scratch) == seq(|nodes|, i requires 0 <= i < |nodes| => Unicast(nodes[i]))
      <==> limit > 0 && |nodes| <= limit && scratch.Some? && OnePortEach(items, uni)
  {
    hide MatchingNodes, MatchingPorts, OnePortEach;
    PortsVersusNodes(items, uni);
    var targets, nodes := Targets(items, uni, limit, scratch), MatchingNodes(items, uni);
    if limit == 0 || scratch.None? || MatchingPorts(items, uni) > limit {
      assert targets[0] == Broadcast;
    }
  }

  /**
   * What is sent in every case: a broadcast when the limit is zero, memory is short or more ports
   * than the limit are on the universe; else one datagram for each such port, the first ones to the
   * matching nodes and the rest to whatever addresses the array held.
   */
  lemma TargetsExactly(items: seq<Item>, uni: byte, limit: nat, scratch: Option<seq<Addr>>)
    requires Valids(items) && (scratch.Some? ==> |scratch.value| == limit)
    ensures var targets, nodes := Targets(items, uni, limit, scratch), MatchingNodes(items, uni);
      var ports :=
        |set a: nat, i: nat | a < |items| && i < items[a].pub.Ports() && items[a].pub.swout[i] == uni :: (a, i)|;
      if limit == 0 || scratch.None? || ports > limit then targets == [Broadcast]
      else |targets| == ports && forall i :: 0 <= i < ports ==>
        targets[i] == Unicast(if i < |nodes| then nodes[i] else scratch.value[i])
  {
    hide MatchingNodes, MatchingPorts;
    MatchingPortsCounts(items, uni);
    PortsVersusNodes(items, uni);
  }

  /** Two ports of one node, a limit of one: the datagram is broadcast although one node matches. */
  lemma PortsCountedForNodes(ip: Addr, uni: byte, memory: seq<Addr>)
    requires |memory| == 1
    ensures var items := [Item(ip, Public(2, [uni, uni, 0, 0], []))];
      MatchingNodes(items, uni) == [ip] && Targets(items, uni, 1, Some(memory)) == [Broadcast]
  {
    var pub := Public(2, [uni, uni, 0, 0], []);
    var items := [Item(ip, pub)];
    assert items[..0] == [];
    assert PortsOn(pub, uni, 1) == 1 && PortsOn(pub, uni, 2) == 2;
  }

  // ----- the list in the heap

  class Entry {
    const ip: Addr
    var pub: Public
    var next: Entry?

    constructor (ip: Addr, pub: Public)
      ensures this.ip == ip && this.pub == pub && next == null
    {
      this.ip, this.pub, next := ip, pub, null;
    }
  }

  class List {
    var first: Entry?
    var last: Entry?
    var length: nat
    ghost var entries: seq<Entry>

    /** first, last and the next pointers spell out entries, which ends where next is null. */
    ghost predicate Valid()
      reads this, entries
    {
      length == |entries| &&
      (forall i, j :: 0 <= i < j < |entries| ==> entries[i] != entries[j]) &&
      (if entries == [] then first == null
       else first == entries[0] && last == entries[|entries| - 1] && entries[|entries| - 1].next == null) &&
      forall i {:trigger entries[i].next} :: 0 <= i < |entries| - 1 ==> entries[i].next == entries[i + 1]
    }

    ghost function Items(): (items: seq<Item>)
      reads this, entries
      ensures |items| == |entries|
    {
      seq(|entries|, i requires 0 <= i < |entries| reads this, entries => Item(entries[i].ip, entries[i].pub))
    }

    constructor ()
      ensures Valid() && Items() == [] && entries == []
    {
      first, last, length, entries := null, null, 0, [];
    }

    /** find_entry_from_ip. */
    method FindEntry(ip: Addr) returns (e: Entry?)
      requires Valid()
      ensures var i := Find(Items(), ip); e == if i < |entries| then entries[i] else null
    {
      e := first;
      ghost var i := 0;
      while e != null
        invariant 0 <= i <= |entries| && e == if i < |entries| then entries[i] else null
        invariant forall j :: 0 <= j < i ==> entries[j].ip != ip
        decreases |entries| - i
      {
        if e.ip == ip {
          break;
        }
        e := e.next;
        i := i + 1;
      }
      assert forall j :: 0 <= j < |entries| ==> Items()[j].ip == entries[j].ip;
    }

    /** artnet_nl_update; memory says whether malloc finds room for a new entry. */
    method Update(ip: Addr, pub: Public, memory: bool) returns (ok: bool)
      requires Valid()
      modifies this, entries
      ensures Valid() && old(entries) <= entries && forall e :: e in entries[|old(entries)|..] ==> fresh(e)
      ensures ok == (memory || old(Find(Items(), ip) < |Items()|))
      ensures Items() == if ok then Upsert(old(Items()), ip, pub) else old(Items())
    {
      hide Find;
      var e := FindEntry(ip);
      ok := true;
      if e == null {
        if !memory {
          return false;
        }
        e := new Entry(ip, pub);
        if first == null {
          first := e;
        } else {
          last.next := e;
        }
        last := e;
        length := length + 1;
        entries := entries + [e];
      } else {
        e.pub := pub;
      }
    }

    /** The inner loop of find_nodes_from_uni: one node's ports, its address stored at j if there is room. */
    static method ScanPorts(e: Entry, uni: byte, ips: array<Addr>, j: nat) returns (count: nat, added: bool)
      requires e.pub.Valid() && j <= ips.Length
      modifies ips
      ensures count == PortsOn(e.pub, uni, e.pub.Ports())
      ensures added == (count > 0 && j < ips.Length)
      ensures ips[..] == if added then old(ips[..])[j := e.ip] else old(ips[..])
    {
      count, added := 0, false;
      for i := 0 to e.pub.Ports()
        invariant count == PortsOn(e.pub, uni, i)
        invariant added == (count > 0 && j < ips.Length)
        invariant ips[..] == if added then old(ips[..])[j := e.ip] else old(ips[..])
      {
        if e.pub.swout[i] == uni {
          if j < ips.Length && !added {
            ips[j] := e.ip;
            added := true;
          }
          count := count + 1;
        }
      }
    }

    /** find_nodes_from_uni, with the address array present or null. */
    method FindNodesFromUni(uni: byte, ips: array?<Addr>) returns (count: nat)
      requires Valid() && Valids(Items())
      modifies ips
      ensures ips == null ==> count == 0
      ensures ips != null ==> count == MatchingPorts(Items(), uni)
      ensures ips != null ==> ips[..] == Filled(old(ips[..]), MatchingNodes(Items(), uni))
    {
      hide MatchingPorts, MatchingNodes, PortsOn, Filled;
      count := 0;
      if ips == null {
        return;
      }
      var j, tmp := 0, first;
      ghost var k, items, before := 0, Items(), ips[..];
      SearchBegin(items, uni, before);
      while tmp != null
        invariant Valid() && Items() == items
        invariant 0 <= k <= |entries| && tmp == if k < |entries| then entries[k] else null
        invariant count == MatchingPorts(items[..k], uni)
        invariant j == Min(ips.Length, |MatchingNodes(items[..k], uni)|)
        invariant ips[..] == Filled(before, MatchingNodes(items[..k], uni))
        decreases |entries| - k
      {
        assert tmp.pub == items[k].pub && tmp.ip == items[k].ip;
        SearchStep(items, k, uni, before);
        var c, added := ScanPorts(tmp, uni, ips, j);
        count := count + c;
        j := if added then j + 1 else j;
        tmp := tmp.next;
        k := k + 1;
      }
    }

    /**
     * artnet_send_dmx once its argument checks have passed: the datagrams attempted, and whether
     * the port's sequence number advances. Only a failed broadcast stops it from doing so.
     */
    method SendDmx(uni: byte, limit: nat, scratch: array?<Addr>, broadcastOk: bool)
      returns (targets: seq<Target>, advanced: bool)
      requires Valid() && Valids(Items()) && (scratch != null ==> scratch.Length == limit)
      modifies scratch
      ensures targets == old(Targets(Items(), uni, limit, if scratch == null then None else Some(scratch[..])))
      ensures advanced <==> broadcastOk || Broadcast !in targets
    {
      if limit == 0 || scratch == null {
        targets, advanced := [Broadcast], broadcastOk;
        return;
      }
      var nodes := FindNodesFromUni(uni, scratch);
      if nodes > limit {
        targets, advanced := [Broadcast], broadcastOk;
      } else {
        targets, advanced := [], true;
        for i := 0 to nodes
          invariant |targets| == i
          invariant forall j :: 0 <= j < i ==> targets[j] == Unicast(scratch[j])
        {
          targets := targets + [Unicast(scratch[i])];
        }
      }
    }
  }
}
