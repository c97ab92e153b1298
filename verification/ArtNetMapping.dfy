/** The universes that share the ports of one Art-Net node, and what each send attempts. */
module ArtNetMapping {
  import opened ArtNetBytes
  import opened Common
  import opened PortAddress

  datatype Mapping = Mapping(universe: int, port: nat)

  /** One datagram handed to the node: the address is what goes on the wire. */
  datatype Attempt = Attempt(universe: int, port: nat, address: byte)

  /** The keys of the universe table in order, the mapping, and the node's addresses while there is a node. */
  datatype Link = Link(universes: seq<int>, active: int, mapping: seq<Mapping>, board: Option<Board>)

  predicate Ascending(keys: seq<int>) {
    forall i, j :: 0 <= i < j < |keys| ==> keys[i] < keys[j]
  }

  // ----- choosing the universes

  /** The Art-Net subnet of a universe. */
  function Nibble(u: int): byte {
    ((u - 1) / 16) % 16
  }

  /** The universes of the given subnet. */
  function Same(keys: seq<int>, subnet: byte): seq<int> {
    if keys == [] then []
    else
      var u := keys[|keys| - 1];
      Same(keys[..|keys| - 1], subnet) + if Nibble(u) == subnet then [u] else []
  }

  function Prefix(keys: seq<int>): seq<int> {
    if |keys| <= MAX_PORTS then keys else keys[..MAX_PORTS]
  }

  function Chosen(keys: seq<int>): seq<int> {
    if keys == [] then [] else Prefix(Same(keys, Nibble(keys[0])))
  }

  function Numbered(keys: seq<int>): (m: seq<Mapping>)
    ensures |m| == |keys| && forall i :: 0 <= i < |m| ==> m[i] == Mapping(keys[i], i)
  {
    seq(|keys|, i requires 0 <= i < |keys| => Mapping(keys[i], i))
  }

  /** What the node is told about its input ports, one universe after the other. */
  function PortSettings(us: seq<int>): seq<Setting> {
    if us == [] then []
    else
      var k := |us| - 1;
      PortSettings(us[..k]) + [Port(k, Input, (us[k] - 1) % 16)]
  }

  function Settings(keys: seq<int>): seq<Setting>
    requires keys != []
  {
    [Subnet(Nibble(keys[0]))] + PortSettings(Chosen(keys))
  }

  lemma {:induction false} SameIn(keys: seq<int>, subnet: byte, u: int)
    ensures u in Same(keys, subnet) <==> u in keys && Nibble(u) == subnet
  {
    if keys != [] {
      SameIn(keys[..|keys| - 1], subnet, u);
      assert keys == keys[..|keys| - 1] + [keys[|keys| - 1]];
    }
  }

  lemma {:induction false} SameAscending(keys: seq<int>, subnet: byte)
    requires Ascending(keys)
    ensures Ascending(Same(keys, subnet))
    ensures forall i :: 0 <= i < |Same(keys, subnet)| ==> Same(keys, subnet)[i] <= keys[|keys| - 1]
  {
    if keys != [] {
      var before := keys[..|keys| - 1];
      SameAscending(before, subnet);
    }
  }

  /** How many universes of u's subnet, which is bits 4 to 7 of u - 1, come before u. */
  function Rank(keys: seq<int>, u: int): nat {
    if keys == [] then 0
    else
      var v := keys[|keys| - 1];
      Rank(keys[..|keys| - 1], u) + if v < u && (v - 1) / 16 % 16 == (u - 1) / 16 % 16 then 1 else 0
  }

  lemma RankInSame(keys: seq<int>, i: nat)
    requires Ascending(keys) && keys != [] && i < |Same(keys, Nibble(keys[0]))|
    ensures Rank(keys, Same(keys, Nibble(keys[0]))[i]) == i
  {
    var subnet := Nibble(keys[0]);
    SameIn(keys, subnet, Same(keys, subnet)[i]);
    SameAscending(keys, subnet);
    RankOf(keys, subnet, i, Same(keys, subnet)[i]);
  }

  lemma RankStep(keys: seq<int>, u: int)
    requires keys != []
    ensures var v := keys[|keys| - 1];
      Rank(keys, u) == Rank(keys[..|keys| - 1], u) + if v < u && Nibble(v) == Nibble(u) then 1 else 0
  {
  }

  lemma NoRank(u: int)
    ensures Rank([], u) == 0
  {
  }

  lemma {:induction false} RankOf(keys: seq<int>, subnet: byte, i: nat, u: int)
    requires Ascending(keys) && Nibble(u) == subnet
    requires i <= |Same(keys, subnet)|
    requires i < |Same(keys, subnet)| ==> Same(keys, subnet)[i] >= u
    requires i > 0 ==> Same(keys, subnet)[i - 1] < u
    ensures Rank(keys, u) == i
  {
    hide Nibble, Rank;
    NoRank(u);
    if keys != [] {
      var before := keys[..|keys| - 1];
      var v := keys[|keys| - 1];
      SameAscending(keys, subnet);
      SameAscending(before, subnet);
      RankStep(keys, u);
      if Nibble(v) == subnet && v < u {
        RankOf(before, subnet, i - 1, u);
      } else {
        RankOf(before, subnet, i, u);
      }
    }
  }

  /**
   * The chosen universes are the ones in the first one's subnet with fewer than four smaller
   * ones there; each is mapped to the port numbered by how many are smaller.
   */
  lemma ChosenExactly(keys: seq<int>, u: int, port: nat)
    requires Ascending(keys) && keys != []
    ensures Mapping(u, port) in Numbered(Chosen(keys)) <==>
      u in keys && Nibble(u) == Nibble(keys[0]) && port == Rank(keys, u) && port < MAX_PORTS
  {
    hide Nibble, Rank, Same;
    var same := Same(keys, Nibble(keys[0]));
    var m := Numbered(Chosen(keys));
    SameIn(keys, Nibble(keys[0]), u);
    if Mapping(u, port) in m {
      RankInSame(keys, port);
      assert same[port] == u;
    }
    if u in same && port == Rank(keys, u) && port < MAX_PORTS {
      var i :| 0 <= i < |same| && same[i] == u;
      RankInSame(keys, i);
      assert m[i] == Mapping(u, port);
    }
  }

  // ----- one instance

  /** refused: sACN is running and does not accept the universe, which is then erased again. */
  datatype Op =
    | Select(u: int)
    | Add(u: int, refused: bool)
    | Remove(u: int)
    | Init(created: bool, started: bool)
    | Send(oks: seq<bool>, retry: bool, created: bool, started: bool)

  /** Inserting a new key into the ordered table. */
  function Inserted(keys: seq<int>, u: int): seq<int> {
    if keys == [] then [u]
    else
      var last := keys[|keys| - 1];
      if last < u then keys + [u] else Inserted(keys[..|keys| - 1], u) + [last]
  }

  function Without(keys: seq<int>, u: int): seq<int> {
    if keys == [] then []
    else
      var last := keys[|keys| - 1];
      Without(keys[..|keys| - 1], u) + if last == u then [] else [last]
  }

  /** The mapping with the entry of u taken out. */
  function Unmapped(m: seq<Mapping>, u: int): seq<Mapping> {
    if m == [] then []
    else
      var last := m[|m| - 1];
      Unmapped(m[..|m| - 1], u) + if last.universe == u then [] else [last]
  }

  function Grown(l: Link, u: int): Link {
    if !IsUniverse(u) || u in l.universes || |l.universes| >= MAX_UNIVERSES then l
    else l.(universes := Inserted(l.universes, u))
  }

  predicate Removes(l: Link, u: int) {
    u in l.universes && |l.universes| > 1
  }

  function Dropped(l: Link, u: int): Link {
    if !Removes(l, u) then l
    else
      var rest := Without(l.universes, u);
      Link(rest, if l.active == u && rest != [] then rest[0] else l.active, Unmapped(l.mapping, u), l.board)
  }

  /** A new node, after whatever node there was has been destroyed. */
  function Connected(l: Link, created: bool, started: bool): Link {
    if l.universes == [] || !created || !started then l.(mapping := [], board := None)
    else l.(mapping := Numbered(Chosen(l.universes)), board := Some(Run(Blank(), Settings(l.universes))))
  }

  function AddressAt(b: Option<Board>, port: nat): byte {
    if b.Some? && port < |b.value.ins| then b.value.ins[port].addr else 0
  }

  function PortOf(m: seq<Mapping>, u: int): Option<nat> {
    if m == [] then None
    else if m[0].universe == u then Some(m[0].port)
    else PortOf(m[1..], u)
  }

  /** What a send hands to the node: its snapshots in order, skipping those without a port. */
  function Attempts(l: Link, k: nat): seq<Attempt>
    requires k <= |l.universes|
  {
    if k == 0 then []
    else
      var u := l.universes[k - 1];
      var port := PortOf(l.mapping, u);
      Attempts(l, k - 1) +
        if port == None then [] else [Attempt(u, port.value, AddressAt(l.board, port.value))]
  }

  function Sent(l: Link): seq<Attempt> {
    Attempts(l, |l.universes|)
  }

  predicate AnyFailed(attempts: seq<Attempt>, oks: seq<bool>) {
    exists i :: 0 <= i < |attempts| && attempts[i].port < |oks| && !oks[attempts[i].port]
  }

  function Apply(l: Link, op: Op): Link {
    match op
    case Select(u) =>
      var l' := Grown(l, u);
      if IsUniverse(u) && u in l'.universes then l'.(active := u) else l'
    case Add(u, refused) => if refused then l else Grown(l, u)
    case Remove(u) => Dropped(l, u)
    case Init(created, started) => Connected(l, created, started)
    case Send(oks, retry, created, started) =>
      if AnyFailed(Sent(l), oks) && retry then Connected(l, created, started) else l
  }

  function RunOps(l: Link, ops: seq<Op>): Link {
    if ops == [] then l else Apply(RunOps(l, ops[..|ops| - 1]), ops[|ops| - 1])
  }

  const NEW := Link([1], 1, [], None)

  // ----- what holds in every reachable state

  predicate Universes(l: Link) {
    Ascending(l.universes) && 1 <= |l.universes| <= MAX_UNIVERSES && l.active in l.universes &&
    forall u :: u in l.universes ==> IsUniverse(u)
  }

  /** Distinct universes of the table on distinct ports in the same order, each port at its universe's address. */
  predicate Mapped(l: Link) {
    (forall i :: 0 <= i < |l.mapping| ==>
      l.mapping[i].universe in l.universes && l.mapping[i].port < MAX_PORTS &&
      AddressAt(l.board, l.mapping[i].port) == (l.mapping[i].universe - 1) % 256) &&
    (forall i, j :: 0 <= i < j < |l.mapping| ==>
      l.mapping[i].universe < l.mapping[j].universe && l.mapping[i].port < l.mapping[j].port) &&
    (l.board == None ==> l.mapping == [])
  }

  predicate Good(l: Link) {
    Universes(l) && Mapped(l)
  }

  lemma {:induction false} InsertedFacts(keys: seq<int>, u: int)
    requires Ascending(keys) && u !in keys
    ensures Ascending(Inserted(keys, u)) && |Inserted(keys, u)| == |keys| + 1
    ensures forall v :: v in Inserted(keys, u) <==> v in keys || v == u
  {
    if keys != [] && keys[|keys| - 1] >= u {
      var before := keys[..|keys| - 1];
      assert keys == before + [keys[|keys| - 1]];
      InsertedFacts(before, u);
      var after := Inserted(before, u);
      forall i | 0 <= i < |after|
        ensures after[i] < keys[|keys| - 1]
      {
        assert after[i] in before || after[i] == u;
      }
    }
  }

  lemma {:induction false} WithoutIn(keys: seq<int>, u: int, v: int)
    ensures v in Without(keys, u) <==> v in keys && v != u
  {
    if keys != [] {
      WithoutIn(keys[..|keys| - 1], u, v);
      assert keys == keys[..|keys| - 1] + [keys[|keys| - 1]];
    }
  }

  lemma {:induction false} WithoutAscending(keys: seq<int>, u: int)
    requires Ascending(keys)
    ensures Ascending(Without(keys, u))
    ensures |Without(keys, u)| == if u in keys then |keys| - 1 else |keys|
  {
    if keys != [] {
      var before, last := keys[..|keys| - 1], keys[|keys| - 1];
      assert keys == before + [last];
      WithoutAscending(before, u);
      var rest := Without(before, u);
      forall i | 0 <= i < |rest|
        ensures rest[i] < last
      {
        WithoutIn(before, u, rest[i]);
        assert rest[i] in before;
      }
    }
  }

  lemma {:induction false} UnmappedFacts(m: seq<Mapping>, u: int, e: Mapping)
    ensures e in Unmapped(m, u) <==> e in m && e.universe != u
  {
    if m != [] {
      UnmappedFacts(m[..|m| - 1], u, e);
      assert m == m[..|m| - 1] + [m[|m| - 1]];
    }
  }

  predicate Ordered(m: seq<Mapping>) {
    forall i, j :: 0 <= i < j < |m| ==> m[i].universe < m[j].universe && m[i].port < m[j].port
  }

  lemma {:induction false} UnmappedOrdered(m: seq<Mapping>, u: int)
    requires Ordered(m)
    ensures Ordered(Unmapped(m, u))
  {
    if m != [] {
      var before, last := m[..|m| - 1], m[|m| - 1];
      UnmappedOrdered(before, u);
      var rest := Unmapped(before, u);
      forall i | 0 <= i < |rest|
        ensures rest[i].universe < last.universe && rest[i].port < last.port
      {
        var e := rest[i];
        assert e in rest;
        UnmappedFacts(before, u, e);
      }
    }
  }

  // ----- addresses of a new node

  lemma {:induction false} LastOfSettings(us: seq<int>, first: seq<Setting>, p: nat)
    requires |us| <= MAX_PORTS
    requires forall s :: s in first ==> s.Subnet?
    ensures LastAddr(first + PortSettings(us), Input, p) == if p < |us| then Some((us[p] - 1) % 16) else None
    ensures LastSubnet(first + PortSettings(us), 0) == LastSubnet(first, 0)
  {
    var all := first + PortSettings(us);
    if us == [] {
      assert all == first;
      NoPortsSet(first, p);
    } else {
      LastOfSettings(us[..|us| - 1], first, p);
      assert all[..|all| - 1] == first + PortSettings(us[..|us| - 1]);
    }
  }

  lemma {:induction false} NoPortsSet(settings: seq<Setting>, p: nat)
    requires forall s :: s in settings ==> s.Subnet?
    ensures LastAddr(settings, Input, p) == None
  {
    if settings != [] {
      assert settings[|settings| - 1] in settings;
      NoPortsSet(settings[..|settings| - 1], p);
    }
  }

  /** Port p of the mapped universe u sends to (u - 1) mod 256. */
  lemma NewAddresses(keys: seq<int>, p: nat)
    requires keys != [] && p < |Chosen(keys)|
    ensures AddressAt(Some(Run(Blank(), Settings(keys))), p) == (Chosen(keys)[p] - 1) % 256
  {
    hide Run, Blank, PortSettings, LastAddr;
    var us, subnet := Chosen(keys), Nibble(keys[0]);
    AddressFollowsSettings(Settings(keys), Input, p);
    LastOfSettings(us, [Subnet(subnet)], p);
    assert us[p] in Same(keys, subnet);
    SameIn(keys, subnet, us[p]);
    OneByte(us[p]);
  }

  lemma OneByte(u: int)
    ensures Joint(Nibble(u), (u - 1) % 16) == (u - 1) % 256
  {
    var low, rest := (u - 1) % 16, (u - 1) / 16;
    var nibble, high := rest % 16, rest / 16;
    assert u - 1 == high * 256 + (nibble * 16 + low);
    assert (u - 1) / 256 == high;
  }

  // ----- the invariant

  lemma MappedKept(l: Link, l': Link)
    requires Mapped(l) && l'.board == l.board && Ordered(l'.mapping)
    requires forall e :: e in l'.mapping ==> e in l.mapping && e.universe in l'.universes
    ensures Mapped(l')
  {
    assert l'.mapping != [] ==> l'.mapping[0] in l.mapping;
    forall i | 0 <= i < |l'.mapping|
      ensures l'.mapping[i].universe in l'.universes && l'.mapping[i].port < MAX_PORTS
      ensures AddressAt(l.board, l'.mapping[i].port) == (l'.mapping[i].universe - 1) % 256
    {
      var e := l'.mapping[i];
      assert e in l'.mapping;
    }
  }

  lemma GrownGood(l: Link, u: int)
    requires Good(l)
    ensures Good(Grown(l, u))
    ensures forall v :: v in l.universes ==> v in Grown(l, u).universes
  {
    if IsUniverse(u) && u !in l.universes && |l.universes| < MAX_UNIVERSES {
      hide Inserted;
      InsertedFacts(l.universes, u);
      MappedKept(l, Grown(l, u));
    }
  }

  lemma DroppedGood(l: Link, u: int)
    requires Good(l)
    ensures Good(Dropped(l, u))
  {
    if Removes(l, u) {
      hide Without, Unmapped;
      var l' := Dropped(l, u);
      WithoutAscending(l.universes, u);
      UnmappedOrdered(l.mapping, u);
      forall v
        ensures v in l'.universes <==> v in l.universes && v != u
      {
        WithoutIn(l.universes, u, v);
      }
      forall e | e in l'.mapping
        ensures e in l.mapping && e.universe in l'.universes
      {
        UnmappedFacts(l.mapping, u, e);
      }
      MappedKept(l, l');
    }
  }

  lemma ConnectedGood(l: Link, created: bool, started: bool)
    requires Good(l)
    ensures Good(Connected(l, created, started))
  {
    hide Mapped, Chosen, Run, Blank, Settings;
    var l' := Connected(l, created, started);
    if l'.board != None {
      NewMapped(l');
    } else {
      NotMapped(l');
    }
  }

  lemma NotMapped(l: Link)
    requires l.mapping == []
    ensures Mapped(l)
  {
  }

  lemma NewMapped(l: Link)
    requires l.universes != [] && Ascending(l.universes)
    requires l.mapping == Numbered(Chosen(l.universes)) && l.board == Some(Run(Blank(), Settings(l.universes)))
    ensures Mapped(l)
  {
    hide Run, Blank, Settings, Same, Nibble, AddressAt;
    var keys := l.universes;
    SameAscending(keys, Nibble(keys[0]));
    forall p | 0 <= p < |l.mapping|
      ensures l.mapping[p].universe in keys && l.mapping[p].port < MAX_PORTS
      ensures AddressAt(l.board, l.mapping[p].port) == (l.mapping[p].universe - 1) % 256
    {
      NewAddresses(keys, p);
      SameIn(keys, Nibble(keys[0]), Chosen(keys)[p]);
    }
  }

  lemma ApplyGood(l: Link, op: Op)
    requires Good(l)
    ensures Good(Apply(l, op))
  {
    hide Grown, Dropped, Connected, Mapped, AnyFailed, Sent;
    match op
    case Select(u) =>
      GrownGood(l, u);
      SameMapping(Grown(l, u), u);
    case Add(u, _) => GrownGood(l, u);
    case Remove(u) => DroppedGood(l, u);
    case Init(created, started) => ConnectedGood(l, created, started);
    case Send(_, _, created, started) => ConnectedGood(l, created, started);
  }

  lemma SameMapping(l: Link, u: int)
    requires Mapped(l)
    ensures Mapped(l.(active := u))
  {
  }

  lemma {:induction false} RunGood(ops: seq<Op>)
    ensures Good(RunOps(NEW, ops))
  {
    if ops != [] {
      RunGood(ops[..|ops| - 1]);
      ApplyGood(RunOps(NEW, ops[..|ops| - 1]), ops[|ops| - 1]);
    }
  }

  // ----- what a send attempts

  /** The mapping read as attempts, each with the address its universe calls for. */
  function Wanted(m: seq<Mapping>): (r: seq<Attempt>)
    ensures |r| == |m|
  {
    seq(|m|, i requires 0 <= i < |m| => Attempt(m[i].universe, m[i].port, (m[i].universe - 1) % 256))
  }

  lemma {:induction false} PortOfMapped(m: seq<Mapping>, i: nat)
    requires Ordered(m) && i < |m|
    ensures PortOf(m, m[i].universe) == Some(m[i].port)
  {
    if i > 0 {
      assert m[0].universe < m[i].universe;
      PortOfMapped(m[1..], i - 1);
      assert m[1..][i - 1] == m[i];
    }
  }

  lemma {:induction false} PortOfOther(m: seq<Mapping>, u: int)
    requires forall i :: 0 <= i < |m| ==> m[i].universe != u
    ensures PortOf(m, u) == None
  {
    if m != [] {
      PortOfOther(m[1..], u);
    }
  }

  /** The entries from c on, and only they, are at universes still to come. */
  predicate Split(m: seq<Mapping>, c: nat, rest: seq<int>) {
    c <= |m| && forall i :: 0 <= i < |m| ==> (m[i].universe in rest <==> c <= i)
  }

  /** After k snapshots, the first entries of the mapping have been attempted. */
  lemma {:induction false} AttemptsUpTo(l: Link, k: nat) returns (c: nat)
    requires Good(l) && k <= |l.universes|
    ensures Split(l.mapping, c, l.universes[k..]) && Attempts(l, k) == Wanted(l.mapping[..c])
  {
    hide Wanted, Good, Ordered, Attempts, Ascending;
    GoodOrder(l);
    if k == 0 {
      NothingWanted();
      NothingAttempted(l);
      c := 0;
      assert l.universes[0..] == l.universes && l.mapping[..0] == [];
    } else {
      c := AttemptsUpTo(l, k - 1);
      var u := l.universes[k - 1];
      KeysAfter(l.universes, k - 1);
      SplitNext(l.mapping, c, u, l.universes[k..]);
      hide Split;
      if c < |l.mapping| && l.mapping[c].universe == u {
        AttemptsMapped(l, k, c);
        OneMoreWanted(l.mapping, c);
        c := c + 1;
      } else {
        AttemptsOther(l, k);
      }
    }
  }

  predicate Above(rest: seq<int>, u: int) {
    forall i :: 0 <= i < |rest| ==> rest[i] > u
  }

  lemma KeysAfter(keys: seq<int>, k: nat)
    requires Ascending(keys) && k < |keys|
    ensures keys[k..] == [keys[k]] + keys[k + 1..] && Above(keys[k + 1..], keys[k])
  {
  }

  /** Only the first entry still to come can be at the next universe. */
  lemma SplitNext(m: seq<Mapping>, c: nat, u: int, rest: seq<int>)
    requires Ordered(m) && Split(m, c, [u] + rest) && Above(rest, u)
    ensures var found := c < |m| && m[c].universe == u;
      Split(m, if found then c + 1 else c, rest) && (!found ==> forall i :: 0 <= i < |m| ==> m[i].universe != u)
  {
    forall i | 0 <= i < |m|
      ensures c < i ==> m[i].universe > u
      ensures c <= i <==> m[i].universe == u || m[i].universe in rest
    {
      assert m[i].universe in [u] + rest <==> m[i].universe == u || m[i].universe in rest;
      if c < i {
        assert m[c].universe in [u] + rest && m[c].universe < m[i].universe;
      }
    }
  }

  lemma NothingAttempted(l: Link)
    ensures Attempts(l, 0) == []
  {
  }

  lemma AttemptsMapped(l: Link, k: nat, c: nat)
    requires Good(l) && 0 < k <= |l.universes| && c < |l.mapping| && l.mapping[c].universe == l.universes[k - 1]
    ensures var e := l.mapping[c];
      Attempts(l, k) == Attempts(l, k - 1) + [Attempt(e.universe, e.port, (e.universe - 1) % 256)]
  {
    hide AddressAt, PortOf;
    PortOfMapped(l.mapping, c);
  }

  lemma AttemptsOther(l: Link, k: nat)
    requires 0 < k <= |l.universes|
    requires forall i :: 0 <= i < |l.mapping| ==> l.mapping[i].universe != l.universes[k - 1]
    ensures Attempts(l, k) == Attempts(l, k - 1)
  {
    PortOfOther(l.mapping, l.universes[k - 1]);
    assert Attempts(l, k - 1) + [] == Attempts(l, k - 1);
  }

  lemma NothingWanted()
    ensures Wanted([]) == []
  {
  }

  lemma OneMoreWanted(m: seq<Mapping>, c: nat)
    requires c < |m|
    ensures m[..c + 1] == m[..c] + [m[c]]
    ensures Wanted(m[..c + 1]) ==
      Wanted(m[..c]) + [Attempt(m[c].universe, m[c].port, (m[c].universe - 1) % 256)]
  {
  }

  lemma NoneAhead(m: seq<Mapping>, c: nat, rest: seq<int>)
    requires Split(m, c, rest) && rest == []
    ensures c == |m|
  {
    if c < |m| {
      SomeAhead(m, c, rest);
    }
  }

  lemma SomeAhead(m: seq<Mapping>, c: nat, rest: seq<int>)
    requires Split(m, c, rest) && c < |m|
    ensures rest != []
  {
    assert m[c].universe in rest;
  }

  lemma GoodOrder(l: Link)
    requires Good(l)
    ensures Ordered(l.mapping) && Ascending(l.universes)
    ensures forall i :: 0 <= i < |l.mapping| ==> l.mapping[i].universe in l.universes
  {
  }

  /**
   * In every state an instance can reach, a send attempts each mapped universe exactly once, in
   * order, on its own port and at its own address, and attempts nothing else.
   */
  lemma SendIsMapping(ops: seq<Op>)
    ensures var l := RunOps(NEW, ops); Sent(l) == Wanted(l.mapping) && Ordered(l.mapping)
  {
    RunGood(ops);
    var l := RunOps(NEW, ops);
    var c := AttemptsUpTo(l, |l.universes|);
    NoneAhead(l.mapping, c, l.universes[|l.universes|..]);
    assert l.mapping[..c] == l.mapping;
  }

  /** Two attempts of one send carry the same address if and only if their universes agree modulo 256. */
  lemma SameAddressExactly(ops: seq<Op>, i: nat, j: nat)
    requires i < |Sent(RunOps(NEW, ops))| && j < |Sent(RunOps(NEW, ops))|
    ensures var sent := Sent(RunOps(NEW, ops));
      sent[i].address == sent[j].address <==> (sent[i].universe - sent[j].universe) % 256 == 0
  {
    hide Sent, RunOps;
    SendIsMapping(ops);
    var m := RunOps(NEW, ops).mapping;
    AgreeModulo(m[i].universe, m[j].universe);
  }

  lemma AgreeModulo(u: int, v: int)
    ensures (u - 1) % 256 == (v - 1) % 256 <==> (u - v) % 256 == 0
  {
  }

  /** Universes 1 and 257 are mapped together, and their data goes out under one address. */
  lemma TwoUniversesOneAddress()
    ensures Sent(RunOps(NEW, [Add(257, false), Init(true, true)])) == [Attempt(1, 0, 0), Attempt(257, 1, 0)]
  {
    hide Sent, Ordered, Nibble, Chosen, Grown;
    var ops := [Add(257, false), Init(true, true)];
    assert ops[..1] == [Add(257, false)] && ops[..1][..0] == [];
    Insert257();
    Choose257();
    SendIsMapping(ops);
  }

  lemma Insert257()
    ensures Grown(NEW, 257).universes == [1, 257]
  {
    assert Inserted([1], 257) == [1, 257];
  }

  lemma SameOne(u: int)
    ensures Same([u], 0) == if Nibble(u) == 0 then [u] else []
  {
    hide Nibble;
    assert [u][..0] == [];
    assert Same([], 0) == [];
  }

  lemma Choose257()
    ensures Chosen([1, 257]) == [1, 257]
  {
    SameOne(1);
    assert Nibble(1) == 0 && Nibble(257) == 0;
    hide Nibble;
    assert [1, 257][..1] == [1];
  }

  // ----- what each call does, in the numbers of the interface

  /** The datagram of one of the mapped universes fails. */
  predicate SomeFails(m: seq<Mapping>, oks: seq<bool>) {
    exists i :: 0 <= i < |m| && m[i].port < |oks| && !oks[m[i].port]
  }

  lemma FailureMeans(ops: seq<Op>, oks: seq<bool>)
    ensures AnyFailed(Sent(RunOps(NEW, ops)), oks) <==> SomeFails(RunOps(NEW, ops).mapping, oks)
  {
    SendIsMapping(ops);
    var m, sent := RunOps(NEW, ops).mapping, Sent(RunOps(NEW, ops));
    hide RunOps, Sent, Ordered;
    assert forall i :: 0 <= i < |m| ==> sent[i].port == m[i].port;
    if SomeFails(m, oks) {
      var i :| 0 <= i < |m| && m[i].port < |oks| && !oks[m[i].port];
      assert sent[i].port == m[i].port;
    }
  }

  /**
   * Connecting: after an init, or a send that reconnects, that meets with success, universe u is
   * mapped to port p if and only if it is in the table and in the subnet of the smallest universe,
   * and exactly p of the table's universes in that subnet are smaller, p below 4. Without success
   * nothing is mapped and there is no node.
   */
  lemma ConnectExactly(ops: seq<Op>, op: Op, u: int, p: nat)
    requires op.Init? || (op.Send? && op.retry && SomeFails(RunOps(NEW, ops).mapping, op.oks))
    ensures var l, l' := RunOps(NEW, ops), RunOps(NEW, ops + [op]);
      l'.universes == l.universes && l'.active == l.active &&
      if op.created && op.started then
        l'.board.Some? &&
        (Mapping(u, p) in l'.mapping <==>
          u in l.universes && (u - 1) / 16 % 16 == (l.universes[0] - 1) / 16 % 16 &&
          p == Rank(l.universes, u) && p < 4)
      else l'.mapping == [] && l'.board == None
  {
    hide RunOps, Sent, AnyFailed, SomeFails, Good, Connected, Rank;
    FailureMeans(ops, if op.Send? then op.oks else []);
    RunSnoc(ops, op);
    RunGood(ops);
    ConnectedStep(RunOps(NEW, ops), op.created, op.started, u, p);
  }

  lemma ConnectedStep(l: Link, created: bool, started: bool, u: int, p: nat)
    requires Good(l)
    ensures var l' := Connected(l, created, started);
      l'.universes == l.universes && l'.active == l.active &&
      if created && started then
        l'.board.Some? &&
        (Mapping(u, p) in l'.mapping <==>
          u in l.universes && (u - 1) / 16 % 16 == (l.universes[0] - 1) / 16 % 16 && p == Rank(l.universes, u) && p < 4)
      else l'.mapping == [] && l'.board == None
  {
    hide Chosen, Numbered, Rank, Run, Blank, Settings, Mapped;
    ChosenExactly(l.universes, u, p);
  }

  /** A send that meets with no failure, or before the cooldown is over, leaves everything as it is. */
  lemma SendKeepsExactly(ops: seq<Op>, op: Op)
    requires op.Send?
    requires !op.retry || !SomeFails(RunOps(NEW, ops).mapping, op.oks)
    ensures RunOps(NEW, ops + [op]) == RunOps(NEW, ops)
  {
    hide Sent, RunOps, Connected, AnyFailed, SomeFails;
    FailureMeans(ops, op.oks);
    RunSnoc(ops, op);
  }

  lemma RunSnoc(ops: seq<Op>, op: Op)
    ensures RunOps(NEW, ops + [op]) == Apply(RunOps(NEW, ops), op)
  {
    assert (ops + [op])[..|ops|] == ops;
  }

  /**
   * universe(u) makes an existing universe the active one, or a new one while there are fewer than
   * 64; addUniverse(u) does the same without selecting it, unless it is refused. Neither touches
   * the mapping or the node.
   */
  lemma GrowExactly(ops: seq<Op>, op: Op, v: int)
    requires op.Select? || op.Add?
    ensures var l, l' := RunOps(NEW, ops), RunOps(NEW, ops + [op]);
      var taken := op.u in l.universes || (|l.universes| < 64 && !(op.Add? && op.refused));
      (v in l'.universes <==> v in l.universes || (v == op.u && 1 <= v <= 63999 && taken)) &&
      l'.active == (if op.Select? && 1 <= op.u <= 63999 && taken then op.u else l.active) &&
      l'.mapping == l.mapping && l'.board == l.board
  {
    RunGood(ops);
    RunSnoc(ops, op);
    var l := RunOps(NEW, ops);
    hide RunOps, Inserted;
    if op.u !in l.universes {
      InsertedFacts(l.universes, op.u);
    }
  }

  /**
   * removeUniverse(u) takes the universe out of the table and of the mapping unless it is the last
   * one; the active universe moves only if it was removed, to the smallest one left.
   */
  lemma RemoveExactly(ops: seq<Op>, u: int, v: int, e: Mapping)
    ensures var l, l' := RunOps(NEW, ops), RunOps(NEW, ops + [Remove(u)]);
      var removed := u in l.universes && |l.universes| > 1;
      (v in l'.universes <==> v in l.universes && !(removed && v == u)) &&
      (e in l'.mapping <==> e in l.mapping && !(removed && e.universe == u)) &&
      l'.active in l'.universes && l'.board == l.board &&
      (if removed && l.active == u then v in l'.universes ==> l'.active <= v else l'.active == l.active)
  {
    RunGood(ops);
    RunSnoc(ops, Remove(u));
    RemovedStep(RunOps(NEW, ops), u, v, e);
  }

  lemma RemovedStep(l: Link, u: int, v: int, e: Mapping)
    requires Good(l)
    ensures var l' := Dropped(l, u);
      var removed := u in l.universes && |l.universes| > 1;
      (v in l'.universes <==> v in l.universes && !(removed && v == u)) &&
      (e in l'.mapping <==> e in l.mapping && !(removed && e.universe == u)) &&
      l'.active in l'.universes && l'.board == l.board &&
      (if removed && l.active == u then v in l'.universes ==> l'.active <= v else l'.active == l.active)
  {
    hide Mapped, Without, Unmapped, Ascending;
    DroppedGood(l, u);
    UnmappedFacts(l.mapping, u, e);
    WithoutIn(l.universes, u, v);
    var rest := Dropped(l, u).universes;
    if v in rest {
      FirstIsSmallest(rest, v);
    }
  }

  lemma FirstIsSmallest(keys: seq<int>, v: int)
    requires Ascending(keys) && v in keys
    ensures keys[0] <= v
  {
  }

  // ----- what becomes of a mapping

  /** A send connects anew when one of its datagrams failed and the cooldown is over. */
  predicate Reconnects(l: Link, op: Op) {
    op.Send? && op.retry && AnyFailed(Sent(l), op.oks)
  }

  /** The run leaves the node alone: no init, and no send that reconnects. */
  predicate Quiet(l: Link, ops: seq<Op>) {
    ops != [] ==>
      var before, op := ops[..|ops| - 1], ops[|ops| - 1];
      Quiet(l, before) && !op.Init? && !Reconnects(RunOps(l, before), op)
  }

  /** The universes a run takes out of the table, whether or not they are put back. */
  function Removed(l: Link, ops: seq<Op>): seq<int> {
    if ops == [] then []
    else
      var before, op := ops[..|ops| - 1], ops[|ops| - 1];
      Removed(l, before) +
        if op.Remove? && Removes(RunOps(l, before), op.u) then [op.u] else []
  }

  function Survivors(m: seq<Mapping>, gone: seq<int>): seq<Mapping> {
    if m == [] then []
    else
      var last := m[|m| - 1];
      Survivors(m[..|m| - 1], gone) + if last.universe in gone then [] else [last]
  }

  lemma {:induction false} SurvivorsStep(m: seq<Mapping>, gone: seq<int>, u: int)
    ensures Unmapped(Survivors(m, gone), u) == Survivors(m, gone + [u])
  {
    if m != [] {
      var before, last := m[..|m| - 1], m[|m| - 1];
      SurvivorsStep(before, gone, u);
      var s := Survivors(before, gone);
      if last.universe !in gone {
        assert (s + [last])[..|s|] == s;
      } else {
        assert s + [] == s;
      }
    }
  }

  lemma {:induction false} AllSurvive(m: seq<Mapping>)
    ensures Survivors(m, []) == m
  {
    if m != [] {
      AllSurvive(m[..|m| - 1]);
    }
  }

  /**
   * Whatever is selected, added, removed and sent without reconnecting, the mapping is the one
   * that was set up less the universes removed since: pairs and order are kept, and a universe
   * that is put back stays without a port.
   */
  lemma {:induction false} MappingIsSurvivors(l: Link, ops: seq<Op>)
    requires Quiet(l, ops)
    ensures RunOps(l, ops).mapping == Survivors(l.mapping, Removed(l, ops))
    ensures RunOps(l, ops).board == l.board
  {
    hide Survivors, Unmapped, Apply, Removes, Reconnects;
    if ops == [] {
      AllSurvive(l.mapping);
    } else {
      var before, op := ops[..|ops| - 1], ops[|ops| - 1];
      MappingIsSurvivors(l, before);
      QuietStep(RunOps(l, before), op);
      var gone := Removed(l, before);
      assert gone + [] == gone;
      if op.Remove? {
        SurvivorsStep(l.mapping, gone, op.u);
      }
    }
  }

  lemma QuietStep(l: Link, op: Op)
    requires !op.Init? && !Reconnects(l, op)
    ensures var l' := Apply(l, op);
      l'.board == l.board &&
      l'.mapping == if op.Remove? && Removes(l, op.u) then Unmapped(l.mapping, op.u) else l.mapping
  {
  }

  // ----- falling silent

  lemma {:induction false} NothingMapped(l: Link, k: nat)
    requires l.mapping == [] && k <= |l.universes|
    ensures Attempts(l, k) == []
  {
    if k > 0 {
      NothingMapped(l, k - 1);
    }
  }

  predicate NoInit(ops: seq<Op>) {
    forall op :: op in ops ==> !op.Init?
  }

  /** Nothing is mapped, so nothing is attempted, so nothing fails and nothing is connected anew. */
  lemma {:induction false} SilenceLasts(l: Link, ops: seq<Op>)
    requires l.mapping == [] && NoInit(ops)
    ensures var l' := RunOps(l, ops); l'.mapping == [] && Sent(l') == [] && l'.board == l.board
  {
    if ops == [] {
      NothingMapped(l, |l.universes|);
    } else {
      var before, op := ops[..|ops| - 1], ops[|ops| - 1];
      assert op in ops;
      SilenceLasts(l, before);
      var l' := RunOps(l, ops);
      NothingMapped(l', |l'.universes|);
    }
  }

  /**
   * From a reachable state no send attempts, or connects anew, whatever happens short of another
   * init, if and only if nothing is mapped. That need not show: the node may be up.
   */
  lemma SilentExactly(ops: seq<Op>)
    ensures var l := RunOps(NEW, ops);
      (forall rest :: NoInit(rest) ==> Sent(RunOps(l, rest)) == []) <==> l.mapping == []
  {
    var l := RunOps(NEW, ops);
    SendIsMapping(ops);
    if l.mapping == [] {
      forall rest | NoInit(rest)
        ensures Sent(RunOps(l, rest)) == []
      {
        SilenceLasts(l, rest);
      }
    } else {
      assert NoInit([]) && RunOps(l, []) == l;
      assert Sent(l)[0] == Wanted(l.mapping)[0];
    }
  }

  /** A send from a reachable state can find that a datagram failed if and only if something is mapped. */
  lemma FailureExactly(ops: seq<Op>)
    ensures var l := RunOps(NEW, ops);
      (exists oks: seq<bool> :: |oks| == MAX_PORTS && AnyFailed(Sent(l), oks)) <==> l.mapping != []
  {
    RunGood(ops);
    SendIsMapping(ops);
    var l := RunOps(NEW, ops);
    if l.mapping != [] {
      AllFail(l);
    }
  }

  lemma AllFail(l: Link)
    requires Good(l) && Sent(l) == Wanted(l.mapping) && l.mapping != []
    ensures AnyFailed(Sent(l), [false, false, false, false])
  {
    var oks := [false, false, false, false];
    var attempt := Sent(l)[0];
    assert attempt.port == l.mapping[0].port < MAX_PORTS;
    assert !oks[attempt.port];
  }

  /**
   * The one operation that silences an instance which has something mapped: taking out the only
   * universe mapped, or connecting anew, by init or after a failed datagram, without success.
   */
  predicate Silences(l: Link, op: Op) {
    match op
    case Remove(u) => Removes(l, u) && |l.mapping| == 1 && l.mapping[0].universe == u
    case Init(created, started) => !(created && started)
    case Send(_, _, created, started) => Reconnects(l, op) && !(created && started)
    case _ => false
  }

  lemma FallsSilentExactly(ops: seq<Op>, op: Op)
    requires RunOps(NEW, ops).mapping != []
    ensures RunOps(NEW, ops + [op]).mapping == [] <==> Silences(RunOps(NEW, ops), op)
  {
    RunGood(ops);
    assert (ops + [op])[..|ops|] == ops;
    SilencedStep(RunOps(NEW, ops), op);
  }

  lemma SilencedStep(l: Link, op: Op)
    requires Good(l) && l.mapping != []
    ensures Apply(l, op).mapping == [] <==> Silences(l, op)
  {
    hide Unmapped, AnyFailed, Sent, Run, Blank, Settings, Chosen, Same;
    SomethingChosen(l.universes);
    if op.Remove? {
      UnmappedAll(l.mapping, op.u);
    }
  }

  /** The first universe is in its own subnet. */
  lemma SomethingChosen(keys: seq<int>)
    requires keys != []
    ensures Chosen(keys) != []
  {
    SameIn(keys, Nibble(keys[0]), keys[0]);
  }

  lemma UnmappedAll(m: seq<Mapping>, u: int)
    requires Ordered(m) && m != []
    ensures Unmapped(m, u) == [] <==> |m| == 1 && m[0].universe == u
  {
    if |m| > 1 {
      assert m[0].universe < m[|m| - 1].universe;
      var e := if m[0].universe != u then m[0] else m[|m| - 1];
      UnmappedFacts(m, u, e);
    } else {
      assert m[..0] == [];
    }
  }

  /** A reconnection that fails: no node is left and nothing is mapped. */
  lemma {:induction false} LostByReconnecting(retries: seq<Op>)
    requires NoInit(retries)
    ensures var l := RunOps(NEW, [Init(true, true), Send([false, false, false, false], true, true, false)] + retries);
      l.board == None && l.mapping == [] && Sent(l) == []
  {
    hide RunOps, Sent, Connected, AnyFailed;
    var oks := [false, false, false, false];
    var start, send := Init(true, true), Send(oks, true, true, false);
    RunTwo(start, send);
    FirstSendFails();
    ConnectionLost(Apply(NEW, start));
    SilenceLasts(RunOps(NEW, [start, send]), retries);
    RunAppend(NEW, [start, send], retries);
  }

  lemma RunTwo(a: Op, b: Op)
    ensures RunOps(NEW, [a]) == Apply(NEW, a) && RunOps(NEW, [a, b]) == Apply(Apply(NEW, a), b)
  {
    hide Apply;
    assert [a, b][..1] == [a] && [a][..0] == [];
    RunNothing(NEW);
  }

  lemma ConnectionLost(l: Link)
    ensures Connected(l, true, false).mapping == [] && Connected(l, true, false).board == None
  {
  }

  lemma FirstSendFails()
    ensures AnyFailed(Sent(Apply(NEW, Init(true, true))), [false, false, false, false])
  {
    hide RunOps, Sent, Run, Blank, Settings, Chosen, AnyFailed, Good;
    var up := Apply(NEW, Init(true, true));
    RunTwo(Init(true, true), Init(true, true));
    SomethingChosen([1]);
    RunGood([Init(true, true)]);
    SendIsMapping([Init(true, true)]);
    AllFail(up);
  }

  lemma {:induction false} RunAppend(l: Link, first: seq<Op>, rest: seq<Op>)
    ensures RunOps(l, first + rest) == RunOps(RunOps(l, first), rest)
  {
    hide Apply;
    var all := first + rest;
    if rest == [] {
      assert all == first;
    } else {
      RunAppend(l, first, rest[..|rest| - 1]);
      assert all[..|all| - 1] == first + rest[..|rest| - 1];
    }
  }

  /** Removing the only universe of the mapped subnet: the node is up, a universe is left, nothing is sent. */
  lemma LostByRemoving()
    ensures var l := RunOps(NEW, [Add(17, false), Init(true, true), Remove(1)]);
      l.board.Some? && l.universes == [17] && l.mapping == [] && Sent(l) == []
  {
    hide Run, Blank, Settings, Chosen, Sent, Grown, Unmapped, Without, RunOps;
    RunThree(Add(17, false), Init(true, true), Remove(1));
    Insert17();
    Choose1();
    Without1();
    assert Numbered([1]) == [Mapping(1, 0)];
    SilenceLasts(RunOps(NEW, [Add(17, false), Init(true, true), Remove(1)]), []);
    RunNothing(RunOps(NEW, [Add(17, false), Init(true, true), Remove(1)]));
  }

  lemma RunNothing(l: Link)
    ensures RunOps(l, []) == l
  {
  }

  lemma RunThree(a: Op, b: Op, c: Op)
    ensures RunOps(NEW, [a, b, c]) == Apply(Apply(Apply(NEW, a), b), c)
  {
    hide Apply;
    assert [a, b, c][..2] == [a, b] && [a, b][..1] == [a] && [a][..0] == [];
    assert RunOps(NEW, [a]) == Apply(NEW, a);
  }

  lemma Insert17()
    ensures Grown(NEW, 17) == NEW.(universes := [1, 17])
  {
    assert Inserted([1], 17) == [1, 17];
  }

  lemma Choose1()
    ensures Chosen([1, 17]) == [1]
  {
    SameOne(1);
    assert Nibble(1) == 0 && Nibble(17) == 1;
    hide Nibble;
    assert [1, 17][..1] == [1];
  }

  lemma Without1()
    ensures Without([1, 17], 1) == [17] && Unmapped([Mapping(1, 0)], 1) == []
  {
    assert [1, 17][..1] == [1] && [1][..0] == [];
    assert Without([1], 1) == [];
    assert [Mapping(1, 0)][..0] == [];
  }
}
