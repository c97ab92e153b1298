/** The Art-Net half of an instance as its methods update it: universe table, mapping array and node. */
module ArtNetBridge {
  import opened ArtNetBytes
  import opened Common
  import opened PortAddress
  import opened ArtNetMapping

  // ----- the mapping array against its specification

  lemma SettingsSnoc(b: Board, settings: seq<Setting>, s: Setting)
    requires Shaped(b)
    ensures Run(b, settings + [s]) == PortAddress.Apply(Run(b, settings), s)
  {
    assert (settings + [s])[..|settings|] == settings;
  }

  /** Once four universes have been found the rest of the table does not matter. */
  lemma {:induction false} FourAreEnough(keys: seq<int>, subnet: byte, i: nat)
    requires i <= |keys| && |Same(keys[..i], subnet)| >= MAX_PORTS
    ensures Prefix(Same(keys, subnet)) == Prefix(Same(keys[..i], subnet))
    ensures |Same(keys, subnet)| >= MAX_PORTS
  {
    hide Nibble;
    if i < |keys| {
      var before := keys[..|keys| - 1];
      assert before[..i] == keys[..i];
      FourAreEnough(before, subnet, i);
    } else {
      assert keys[..i] == keys;
    }
  }

  lemma SameSnoc(keys: seq<int>, subnet: byte, i: nat)
    requires i < |keys|
    ensures Same(keys[..i + 1], subnet) == Same(keys[..i], subnet) + if Nibble(keys[i]) == subnet then [keys[i]] else []
  {
    assert keys[..i + 1][..i] == keys[..i];
  }

  lemma OneMoreNumber(us: seq<int>, u: int)
    ensures Numbered(us + [u]) == Numbered(us) + [Mapping(u, |us|)]
  {
  }

  lemma OneMoreSetting(us: seq<int>, u: int, first: Setting)
    ensures [first] + PortSettings(us + [u]) == ([first] + PortSettings(us)) + [Port(|us|, Input, (u - 1) % 16)]
  {
    PortSettingsSnoc(us, u);
    hide PortSettings;
    Regroup([first], PortSettings(us), [Port(|us|, Input, (u - 1) % 16)]);
  }

  lemma Regroup<T>(a: seq<T>, b: seq<T>, c: seq<T>)
    ensures a + (b + c) == (a + b) + c
  {
  }

  lemma {:induction false} PortSettingsSnoc(us: seq<int>, u: int)
    ensures PortSettings(us + [u]) == PortSettings(us) + [Port(|us|, Input, (u - 1) % 16)]
  {
    var all := us + [u];
    assert all[..|us|] == us && all[|us|] == u && |all| - 1 == |us|;
  }

  /** Before any universe has been looked at. */
  lemma AssignBegin(keys: seq<int>, subnet: byte)
    ensures Prefix(Same(keys[..0], subnet)) == [] && Numbered([]) == []
    ensures Run(Blank(), [Subnet(subnet)] + PortSettings([])) == PortAddress.Apply(Blank(), Subnet(subnet))
  {
    hide PortAddress.Apply;
    assert [Subnet(subnet)] + PortSettings([]) == [] + [Subnet(subnet)];
    SettingsSnoc(Blank(), [], Subnet(subnet));
  }

  /** One universe, while there is a port left. */
  lemma AssignStep(keys: seq<int>, subnet: byte, i: nat)
    requires i < |keys| && |Prefix(Same(keys[..i], subnet))| < MAX_PORTS
    ensures var us, u := Prefix(Same(keys[..i], subnet)), keys[i];
      var us' := Prefix(Same(keys[..i + 1], subnet));
      if Nibble(u) == subnet then
        us' == us + [u] && Numbered(us') == Numbered(us) + [Mapping(u, |us|)] &&
        Run(Blank(), [Subnet(subnet)] + PortSettings(us')) ==
          PortAddress.Apply(Run(Blank(), [Subnet(subnet)] + PortSettings(us)), Port(|us|, Input, (u - 1) % 16))
      else us' == us
  {
    hide PortAddress.Apply, Nibble, PortSettings, Same, Numbered, Run, Blank;
    var us, u := Prefix(Same(keys[..i], subnet)), keys[i];
    SameSnoc(keys, subnet, i);
    OneMoreNumber(us, u);
    OneMoreSetting(us, u, Subnet(subnet));
    SettingsSnoc(Blank(), [Subnet(subnet)] + PortSettings(us), Port(|us|, Input, (u - 1) % 16));
  }

  /** When the ports or the universes have run out. */
  lemma AssignEnd(keys: seq<int>, subnet: byte, i: nat)
    requires i <= |keys| && keys != [] && subnet == Nibble(keys[0])
    requires i == |keys| || |Prefix(Same(keys[..i], subnet))| >= MAX_PORTS
    ensures Prefix(Same(keys[..i], subnet)) == Chosen(keys)
    ensures Settings(keys) == [Subnet(subnet)] + PortSettings(Chosen(keys))
  {
    hide Nibble, PortSettings, Same;
    if i < |keys| {
      FourAreEnough(keys, subnet, i);
    } else {
      assert keys[..i] == keys;
    }
  }

  lemma {:induction false} UnmapNothing(m: seq<Mapping>, u: int)
    requires forall i :: 0 <= i < |m| ==> m[i].universe != u
    ensures Unmapped(m, u) == m
  {
    if m != [] {
      UnmapNothing(m[..|m| - 1], u);
    }
  }

  lemma {:induction false} UnmapOne(m: seq<Mapping>, i: nat)
    requires i < |m| && Ordered(m)
    ensures Unmapped(m, m[i].universe) == m[..i] + m[i + 1..]
  {
    var before := m[..|m| - 1];
    if i == |m| - 1 {
      UnmapNothing(before, m[i].universe);
    } else {
      UnmapOne(before, i);
      assert m[i + 1..] == before[i + 1..] + [m[|m| - 1]];
    }
  }

  lemma {:induction false} PortAt(m: seq<Mapping>, u: int, i: nat)
    requires i <= |m| && forall j :: 0 <= j < i ==> m[j].universe != u
    ensures PortOf(m, u) == if i < |m| && m[i].universe == u then Some(m[i].port) else PortOf(m[i..], u)
  {
    if i == 0 {
      assert m[0..] == m;
    } else {
      PortAt(m[1..], u, i - 1);
      assert m[1..][i - 1..] == m[i..];
    }
  }

  lemma PortsInRange(l: Link)
    requires Mapped(l)
    ensures forall i :: 0 <= i < |l.mapping| ==> l.mapping[i].port < MAX_PORTS
    ensures l.mapping != [] ==> l.board.Some?
  {
  }

  lemma NothingSent(l: Link, oks: seq<bool>)
    ensures Attempts(l, 0) == [] && !AnyFailed([], oks)
  {
  }

  lemma AttemptOne(l: Link, i: nat)
    requires i < |l.universes|
    ensures var u := l.universes[i];
      var port := PortOf(l.mapping, u);
      Attempts(l, i + 1) ==
        if port == None then Attempts(l, i)
        else Attempts(l, i) + [Attempt(u, port.value, AddressAt(l.board, port.value))]
  {
  }

  lemma OneMoreAttempt(sent: seq<Attempt>, attempt: Attempt, oks: seq<bool>)
    requires attempt.port < |oks|
    ensures AnyFailed(sent + [attempt], oks) <==> AnyFailed(sent, oks) || !oks[attempt.port]
  {
    var more := sent + [attempt];
    assert more[|sent|] == attempt;
    if AnyFailed(sent, oks) {
      var i :| 0 <= i < |sent| && sent[i].port < |oks| && !oks[sent[i].port];
      assert more[i] == sent[i];
    }
  }

  class Bridge {
    var universes: seq<int>
    var active: int
    const mappings: array<Mapping>
    var count: nat
    var node: ArtNode?
    var initialized: bool

    ghost predicate Valid()
      reads this
    {
      mappings.Length == MAX_PORTS && count <= MAX_PORTS &&
      (initialized <==> node != null) && (!initialized ==> count == 0) &&
      (node != null ==> node.Valid() && this !in node.Repr && mappings !in node.Repr)
    }

    ghost function Repr(): set<object>
      reads this
    {
      {this, mappings} + if node == null then {} else node.Repr
    }

    ghost function View(): Link
      requires Valid()
      reads this, Repr()
    {
      Link(universes, active, mappings[..count], if node == null then None else Some(node.View()))
    }

    /** A new instance has universe 1 and no connection. */
    constructor ()
      ensures Valid() && View() == NEW && fresh(Repr())
    {
      universes, active, count, node, initialized := [1], 1, 0, null, false;
      mappings := new Mapping[MAX_PORTS](_ => Mapping(0, 0));
    }

    /** DMX::universe(int). */
    method SelectUniverse(u: int) returns (ok: bool)
      requires Valid()
      modifies this`universes, this`active
      ensures Valid() && View() == ArtNetMapping.Apply(old(View()), Select(u))
      ensures ok <==> IsUniverse(u) && u in universes
    {
      hide Inserted;
      if u < 1 || u > 63999 {
        return false;
      }
      if u !in universes {
        if |universes| >= MAX_UNIVERSES {
          return false;
        }
        InsertedIn(universes, u);
        universes := Inserted(universes, u);
      }
      active := u;
      ok := true;
    }

    /** DMX::addUniverse; refused says that sACN is running and does not take the universe. */
    method AddUniverse(u: int, refused: bool) returns (ok: bool)
      requires Valid()
      modifies this`universes
      ensures Valid() && View() == ArtNetMapping.Apply(old(View()), Add(u, refused))
      ensures ok <==> IsUniverse(u) && u in universes
    {
      hide Inserted, Without;
      if u < 1 || u > 63999 {
        return false;
      }
      if u in universes {
        return true;
      }
      if |universes| >= MAX_UNIVERSES {
        return false;
      }
      InsertedIn(universes, u);
      WithoutInserted(universes, u);
      universes := Inserted(universes, u);
      if refused {
        universes := Without(universes, u);
        return false;
      }
      ok := true;
    }

    /** DMX::removeUniverse, with the table already searched. */
    method RemoveUniverse(u: int) returns (ok: bool)
      requires Valid() && Ordered(View().mapping)
      modifies this`universes, this`active, this`count, mappings
      ensures Valid() && View() == ArtNetMapping.Apply(old(View()), Remove(u))
      ensures ok <==> u !in old(universes) || old(|universes|) > 1
    {
      hide Without, Unmapped;
      if u !in universes {
        return true;
      }
      if |universes| <= 1 {
        return false;
      }
      universes := Without(universes, u);
      if active == u && universes != [] {
        active := universes[0];
      }
      Unmap(u);
      ok := true;
    }

    /** Takes out the entry of u, if there is one. */
    method Unmap(u: int)
      requires Valid() && Ordered(View().mapping)
      modifies this`count, mappings
      ensures Valid() && mappings[..count] == Unmapped(old(mappings[..count]), u)
    {
      hide Unmapped, Ordered;
      ghost var before := mappings[..count];
      for i := 0 to count
        invariant mappings[..count] == before && count == old(count)
        invariant forall k :: 0 <= k < i ==> before[k].universe != u
      {
        if mappings[i].universe == u {
          assert before[i].universe == u;
          UnmapOne(before, i);
          CloseGap(i);
          return;
        }
      }
      UnmapNothing(before, u);
    }

    /** Moves the entries behind position i down by one. */
    method CloseGap(i: nat)
      requires Valid() && i < count
      modifies this`count, mappings
      ensures Valid() && count == old(count) - 1
      ensures mappings[..count] == old(mappings[..count])[..i] + old(mappings[..count])[i + 1..]
    {
      ghost var before := mappings[..count];
      for j := i to count - 1
        invariant count == old(count) && mappings[..i] == before[..i]
        invariant forall k :: i <= k < j ==> mappings[k] == before[k + 1]
        invariant forall k :: j <= k < count ==> mappings[k] == before[k]
      {
        mappings[j] := mappings[j + 1];
      }
      count := count - 1;
      assert mappings[..count] == before[..i] + before[i + 1..];
    }

    /** DMX::init_ArtNet on the keys of the table, after DMX::deinit_ArtNet. */
    method Connect(created: bool, started: bool) returns (ok: bool)
      requires Valid()
      modifies this`count, this`node, this`initialized, mappings
      ensures Valid() && View() == Connected(old(View()), created, started)
      ensures ok <==> View().board.Some?
      ensures node != null ==> fresh(node.Repr) && node.on
    {
      hide Chosen, Settings, Run, Blank;
      node, count, initialized := null, 0, false;
      if universes == [] || !created {
        return false;
      }
      var made := new ArtNode();
      Assign(made);
      if !started {
        count := 0;
        return false;
      }
      made.on := true;
      node, initialized := made, true;
      ok := true;
    }

    /** The search of DMX::send for the port of a universe, or -1. */
    method FindPort(u: int) returns (port: int)
      requires Valid()
      ensures if port == -1 then PortOf(mappings[..count], u) == None
        else PortOf(mappings[..count], u) == Some(port) && exists i :: 0 <= i < count && mappings[i].port == port
    {
      ghost var m := mappings[..count];
      port := -1;
      for i := 0 to count
        invariant port == -1 && forall j :: 0 <= j < i ==> m[j].universe != u
      {
        if mappings[i].universe == u {
          PortAt(m, u, i);
          port := mappings[i].port;
          return;
        }
      }
      PortAt(m, u, count);
    }

    /** One datagram for each snapshot whose universe has a port; oks says which ports' sends succeed. */
    method AttemptAll(oks: seq<bool>) returns (sent: seq<Attempt>, failed: bool)
      requires Valid() && Mapped(View()) && |oks| == MAX_PORTS
      ensures sent == Sent(View()) && (failed <==> AnyFailed(sent, oks))
    {
      hide PortOf, Mapped, Attempts, AnyFailed;
      ghost var l := View();
      sent, failed := [], false;
      PortsInRange(l);
      NothingSent(l, oks);
      for i := 0 to |universes|
        invariant sent == Attempts(l, i) && (failed <==> AnyFailed(sent, oks))
      {
        var port := FindPort(universes[i]);
        AttemptOne(l, i);
        if port < 0 {
          continue;
        }
        var attempt := Attempt(universes[i], port, node.ins[port].addr);
        OneMoreAttempt(sent, attempt, oks);
        sent := sent + [attempt];
        if !oks[port] {
          failed := true;
        }
      }
    }

    /**
     * The Art-Net part of DMX::send: retry says whether the reconnect cooldown is over, created
     * and started what a reconnection meets with.
     */
    method SendAll(oks: seq<bool>, retry: bool, created: bool, started: bool) returns (sent: seq<Attempt>)
      requires Valid() && Mapped(View()) && |oks| == MAX_PORTS
      modifies this`count, this`node, this`initialized, mappings
      ensures Valid() && View() == ArtNetMapping.Apply(old(View()), Send(oks, retry, created, started))
      ensures sent == Sent(old(View()))
    {
      hide Connected, Mapped, AnyFailed, Sent;
      var failed;
      sent, failed := AttemptAll(oks);
      if failed && retry {
        var _ := Connect(created, started);
      }
    }

    /** Sets the node's subnet, then gives each universe of that subnet a port while there are ports. */
    method Assign(made: ArtNode)
      requires made.Valid() && made.View() == Blank() && !made.on && universes != []
      requires mappings.Length == MAX_PORTS && mappings !in made.Repr && this !in made.Repr
      modifies this`count, mappings, made.Repr
      ensures made.Valid() && made.View() == Run(Blank(), Settings(universes)) && !made.on
      ensures count <= MAX_PORTS && mappings[..count] == Numbered(Chosen(universes))
    {
      hide Run, Blank, PortSettings, Same, Prefix, Numbered, PortAddress.Apply;
      var subnet := ((universes[0] - 1) / 16) % 16;
      AssignBegin(universes, subnet);
      var _ := made.SetSubnetAddr(subnet, 0);
      count := 0;
      ghost var us, k := [], 0;
      for i := 0 to |universes|
        invariant made.Valid() && !made.on && count == |us| <= MAX_PORTS && k == i
        invariant us == Prefix(Same(universes[..i], subnet)) && mappings[..count] == Numbered(us)
        invariant made.View() == Run(Blank(), [Subnet(subnet)] + PortSettings(us))
      {
        if count >= MAX_PORTS {
          break;
        }
        AssignStep(universes, subnet, i);
        k := i + 1;
        var u := universes[i];
        if ((u - 1) / 16) % 16 != subnet {
          continue;
        }
        us := us + [u];
        var _ := made.SetPortAddr(count, Input, (u - 1) % 16, 0);
        mappings[count] := Mapping(u, count);
        count := count + 1;
      }
      AssignEnd(universes, subnet, k);
    }
  }

  lemma {:induction false} InsertedIn(keys: seq<int>, u: int)
    ensures u in Inserted(keys, u)
  {
    if keys != [] && keys[|keys| - 1] >= u {
      InsertedIn(keys[..|keys| - 1], u);
    }
  }

  /** Erasing a key that was just inserted. */
  lemma {:induction false} WithoutInserted(keys: seq<int>, u: int)
    requires u !in keys
    ensures Without(Inserted(keys, u), u) == keys
  {
    hide Without;
    if keys == [] {
      WithoutSnoc(keys, u, u);
      WithoutNothing(keys, u);
      assert keys + [u] == [u] && keys + [] == keys;
    } else {
      var before, last := keys[..|keys| - 1], keys[|keys| - 1];
      if last < u {
        WithoutSnoc(keys, u, u);
        WithoutNothing(keys, u);
        assert keys + [] == keys;
      } else {
        WithoutInserted(before, u);
        WithoutSnoc(Inserted(before, u), last, u);
      }
    }
  }

  lemma WithoutSnoc(keys: seq<int>, last: int, u: int)
    ensures Without(keys + [last], u) == Without(keys, u) + if last == u then [] else [last]
  {
    assert (keys + [last])[..|keys|] == keys;
  }

  lemma {:induction false} WithoutNothing(keys: seq<int>, u: int)
    requires u !in keys
    ensures Without(keys, u) == keys
  {
    if keys != [] {
      WithoutNothing(keys[..|keys| - 1], u);
    }
  }
}
