/** Nodes that share a socket are linked in a ring through their peer pointers, one of them the master. */
module PeerRing {

  import opened Common

  class Node {
    var peer: Node?
    var master: bool
    var on: bool

    constructor ()
      ensures peer == null && master && !on
    {
      peer, master, on := null, true, false;
    }
  }

  ghost function Peers(r: seq<Node>): seq<Node?>
    reads r
  {
    seq(|r|, i requires 0 <= i < |r| reads r => r[i].peer)
  }

  ghost predicate NoRepeats(r: seq<Node>) {
    forall i, j :: 0 <= i < j < |r| ==> r[i] != r[j]
  }

  /** With these peer pointers, following them from r[0] visits r in order and comes back. */
  ghost predicate RingOf(r: seq<Node>, peers: seq<Node?>) {
    r != [] && |peers| == |r| && NoRepeats(r) &&
    forall i {:trigger peers[i]} :: 0 <= i < |r| ==> peers[i] == if i + 1 < |r| then r[i + 1] else r[0]
  }

  /** A node that has never been joined has no peer; every other one is in a ring. */
  ghost predicate GroupOf(r: seq<Node>, peers: seq<Node?>) {
    RingOf(r, peers) || (|r| == 1 && peers == [null])
  }

  ghost predicate Ring(r: seq<Node>)
    reads r
  {
    RingOf(r, Peers(r))
  }

  ghost predicate Group(r: seq<Node>)
    reads r
  {
    GroupOf(r, Peers(r))
  }

  ghost predicate OnlyMaster(r: seq<Node>, m: Node)
    reads r
  {
    forall i :: 0 <= i < |r| ==> (r[i].master <==> r[i] == m)
  }

  ghost function Members(r: seq<Node>): set<Node> {
    set i | 0 <= i < |r| :: r[i]
  }

  ghost function Rotate(r: seq<Node>, k: nat): (t: seq<Node>)
    requires k < |r|
    ensures |t| == |r|
  {
    r[k..] + r[..k]
  }

  /** A ring may be listed from any of its members. */
  lemma RotateRing(r: seq<Node>, peers: seq<Node?>, k: nat)
    requires k < |r| && RingOf(r, peers)
    ensures RingOf(Rotate(r, k), peers[k..] + peers[..k])
  {
  }

  lemma RotatedMembers(r: seq<Node>, k: nat)
    requires k < |r|
    ensures Members(Rotate(r, k)) == Members(r)
  {
    var t := Rotate(r, k);
    forall x | x in Members(r)
      ensures x in Members(t)
    {
      var i :| 0 <= i < |r| && r[i] == x;
      assert t[if i < k then i + |r| - k else i - k] == x;
    }
  }

  /** Following the pointers of a ring, the members are met in the order of the list and no other: it is unique. */
  lemma {:induction false} RingUnique(r: seq<Node>, t: seq<Node>, i: nat)
    requires Ring(r) && Ring(t) && r[0] == t[0] && i < |r|
    ensures i < |t| && r[i] == t[i]
  {
    if i > 0 {
      RingUnique(r, t, i - 1);
      assert Peers(r)[i - 1] == r[i - 1].peer == Peers(t)[i - 1];
    }
  }

  lemma Apart(r1: seq<Node>, r2: seq<Node>)
    requires Members(r1) !! Members(r2)
    ensures forall i, j :: 0 <= i < |r1| && 0 <= j < |r2| ==> r1[i] != r2[j]
  {
    forall i, j | 0 <= i < |r1| && 0 <= j < |r2|
      ensures r1[i] != r2[j]
    {
      assert r1[i] in Members(r1) && r2[j] in Members(r2);
    }
  }

  /** The node after n, which is n itself as long as it has no peer. */
  function Next(n: Node, peer: Node?): Node {
    if peer == null then n else peer
  }

  /** The ring that joining two groups makes; r1 and r2 list them from the nodes that are joined. */
  ghost function Joined<T>(r1: seq<T>, r2: seq<T>, apart: bool): seq<T>
    requires r1 != []
  {
    if apart then [r1[0]] + r2 + r1[1..] else r1
  }

  /** Two separate groups after both pointer writes of artnet_join. */
  lemma SplicedApart(r1: seq<Node>, p1: seq<Node?>, r2: seq<Node>, p2: seq<Node?>)
    requires GroupOf(r1, p1) && GroupOf(r2, p2) && Members(r1) !! Members(r2)
    ensures WalkOf(r2, p2)
    ensures RingOf(Joined(r1, r2, true), Joined(p1[0 := r2[0]], p2[|p2| - 1 := Next(r1[0], p1[0])], true))
  {
    var r := Joined(r1, r2, true);
    assert NoRepeats(r) by {
      JoinedNoRepeats(r1, r2);
    }
    hide NoRepeats, Members;
  }

  lemma JoinedNoRepeats(r1: seq<Node>, r2: seq<Node>)
    requires r1 != [] && NoRepeats(r1) && NoRepeats(r2) && Members(r1) !! Members(r2)
    ensures NoRepeats(Joined(r1, r2, true))
  {
    Apart(r1, r2);
  }

  /** One group after both pointer writes: the second undoes the first. */
  lemma SplicedWithin(r: seq<Node>, peers: seq<Node?>)
    requires GroupOf(r, peers)
    ensures RingOf(r, peers[0 := Next(r[0], peers[0])])
  {
  }

  /** A pointer walk from p[0] follows p, meets p[0] nowhere else, and stops at the end of p. */
  ghost predicate WalkOf(p: seq<Node>, peers: seq<Node?>) {
    p != [] && |peers| == |p| && (peers[|p| - 1] == null || peers[|p| - 1] == p[0]) &&
    forall i {:trigger peers[i]} :: 0 <= i < |p| - 1 ==> peers[i] == p[i + 1] && p[i + 1] != p[0]
  }

  /** The nodes the first loop visits when r[0] has just been pointed to r[k] of its own group. */
  ghost function PathWithin<T>(r: seq<T>, k: nat): seq<T>
    requires k < |r|
  {
    if k == 0 then [r[0]] else r[k..] + [r[0]]
  }

  lemma WalkWithin(r: seq<Node>, peers: seq<Node?>, k: nat)
    requires k < |r| && GroupOf(r, peers)
    ensures WalkOf(PathWithin(r, k), PathWithin(peers[0 := r[k]], k))
  {
  }

  /** The first loop of artnet_join: the last node before the walk ends or returns to its start. */
  method FindEnd(start: Node, ghost path: seq<Node>) returns (n: Node)
    requires WalkOf(path, Peers(path)) && path[0] == start
    ensures n == path[|path| - 1]
  {
    n := start;
    ghost var i := 0;
    while n.peer != null && n.peer != start
      invariant 0 <= i < |path| && n == path[i]
      decreases |path| - i
    {
      assert Peers(path)[i] == n.peer;
      n := n.peer;
      i := i + 1;
    }
    assert Peers(path)[i] == n.peer;
  }

  /** The second loop of artnet_join: every other node of the ring stops being master. */
  method Elect(first: Node, ghost ring: seq<Node>)
    requires Ring(ring) && ring[0] == first
    modifies ring`master
    ensures Ring(ring) && OnlyMaster(ring, first)
  {
    var n := first.peer;
    ghost var i := 1;
    assert Peers(ring)[0] == first.peer;
    while n != first
      invariant 1 <= i <= |ring| && n == if i == |ring| then first else ring[i]
      invariant forall j :: 1 <= j < i ==> !ring[j].master
      invariant Peers(ring) == old(Peers(ring))
      decreases |ring| - i
    {
      assert Peers(ring)[i] == n.peer;
      n.master := false;
      n := n.peer;
      i := i + 1;
    }
    first.master := true;
    assert Peers(ring) == old(Peers(ring));
  }

  lemma PeersJoined(r1: seq<Node>, r2: seq<Node>)
    requires r1 != []
    ensures Peers(Joined(r1, r2, true)) == Joined(Peers(r1), Peers(r2), true)
  {
    hide Peers;
    PeersOfBoth([r1[0]], r2);
    PeersOfBoth([r1[0]] + r2, r1[1..]);
    PeersOfBoth([r1[0]], r1[1..]);
    assert [r1[0]] + r1[1..] == r1;
  }

  lemma {:induction false} PeersOfBoth(a: seq<Node>, b: seq<Node>)
    ensures Peers(a + b) == Peers(a) + Peers(b)
    ensures |Peers(a)| == |a|
  {
  }

  /** Peers of r as they will be once a points to b. */
  ghost function Repointed(r: seq<Node>, a: Node, b: Node): seq<Node?>
    reads r
  {
    seq(|r|, i requires 0 <= i < |r| reads r => if r[i] == a then b else r[i].peer)
  }

  /** The pointer writes of artnet_join: n1 to n2, and the end of the walk from n2 to n1's old peer. */
  method Relink(n1: Node, n2: Node, ghost path: seq<Node>, ghost end: Node)
    requires WalkOf(path, Repointed(path, n1, n2)) && path[0] == n2 && path[|path| - 1] == end
    modifies n1`peer, end`peer
    ensures end.peer == Next(n1, old(n1.peer))
    ensures n1 != end ==> n1.peer == n2
  {
    var tmp := Next(n1, n1.peer);
    n1.peer := n2;
    assert Peers(path) == old(Repointed(path, n1, n2));
    var n := FindEnd(n2, path);
    n.peer := tmp;
  }

  /** Two groups as artnet_join finds them: separate, or one group listed from two of its nodes. */
  ghost predicate Joinable(r1: seq<Node>, r2: seq<Node>, apart: bool, k: nat) {
    r1 != [] && r2 != [] && NoRepeats(r1) && NoRepeats(r2) &&
    if apart then Members(r1) !! Members(r2) else k < |r1| && r2 == Rotate(r1, k)
  }

  ghost function Path<T>(r1: seq<T>, r2: seq<T>, apart: bool, k: nat): seq<T>
    requires apart || k < |r1|
  {
    if apart then r2 else PathWithin(r1, k)
  }

  lemma RepointedPath(r1: seq<Node>, r2: seq<Node>, apart: bool, k: nat)
    requires Joinable(r1, r2, apart, k)
    ensures Repointed(Path(r1, r2, apart, k), r1[0], r2[0]) == Path(Peers(r1)[0 := r2[0]], Peers(r2), apart, k)
  {
    if apart {
      Apart(r1, r2);
    }
  }

  /** Peers of the joined nodes once both pointers are written. */
  ghost function PeersAfter(r1: seq<Node>, p1: seq<Node?>, r2: seq<Node>, p2: seq<Node?>, apart: bool): seq<Node?>
    requires |p1| == |r1| > 0 && |p2| == |r2| > 0
  {
    var tmp := Next(r1[0], p1[0]);
    if apart then Joined(p1[0 := r2[0]], p2[|p2| - 1 := tmp], true) else p1[0 := tmp]
  }

  /** The walk ends where the second pointer must be written, and that makes the joined ring. */
  lemma Surgery(r1: seq<Node>, r2: seq<Node>, apart: bool, k: nat)
    requires Group(r1) && Group(r2) && Joinable(r1, r2, apart, k)
    ensures WalkOf(Path(r1, r2, apart, k), Repointed(Path(r1, r2, apart, k), r1[0], r2[0]))
    ensures RingOf(Joined(r1, r2, apart), PeersAfter(r1, Peers(r1), r2, Peers(r2), apart))
  {
    RepointedPath(r1, r2, apart, k);
    if apart {
      SplicedApart(r1, Peers(r1), r2, Peers(r2));
    } else {
      WalkWithin(r1, Peers(r1), k);
      SplicedWithin(r1, Peers(r1));
    }
  }

  lemma JoinableFacts(r1: seq<Node>, r2: seq<Node>, apart: bool, k: nat)
    requires Joinable(r1, r2, apart, k)
    ensures r1 != [] && r2 != [] && NoRepeats(r1) && NoRepeats(r2)
    ensures if apart then forall i, j :: 0 <= i < |r1| && 0 <= j < |r2| ==> r1[i] != r2[j]
            else k < |r1|
    ensures var path := Path(r1, r2, apart, k);
      path != [] && path[0] == r2[0] && path[|path| - 1] == if apart then r2[|r2| - 1] else r1[0]
  {
    if apart {
      Apart(r1, r2);
    }
  }

  lemma Indices(r: seq<Node>)
    requires r != [] && NoRepeats(r)
    ensures forall i :: 0 <= i < |r| ==> (r[i] == r[0] <==> i == 0) && (r[i] == r[|r| - 1] <==> i == |r| - 1)
  {
  }

  /** Relink, seen from the groups. */
  method LinkGroups(n1: Node, n2: Node, ghost r1: seq<Node>, ghost r2: seq<Node>, ghost apart: bool, ghost k: nat)
    requires Group(r1) && Group(r2) && Joinable(r1, r2, apart, k) && r1[0] == n1 && r2[0] == n2
    modifies r1`peer, r2`peer
    ensures Ring(Joined(r1, r2, apart))
  {
    hide GroupOf, RingOf, WalkOf, Repointed, Members, Joinable, Path, NoRepeats;
    JoinableFacts(r1, r2, apart, k);
    Surgery(r1, r2, apart, k);
    Indices(r1);
    Indices(r2);
    ghost var p1, p2 := Peers(r1), Peers(r2);
    Relink(n1, n2, Path(r1, r2, apart, k), if apart then r2[|r2| - 1] else n1);
    if apart {
      assert Peers(r1) == p1[0 := n2];
      assert Peers(r2) == p2[|p2| - 1 := Next(n1, p1[0])];
      PeersJoined(r1, r2);
    } else {
      assert Peers(r1) == p1[0 := Next(n1, p1[0])];
    }
  }

  /**
   * artnet_join. Two separate groups become one ring holding exactly their members; within one
   * group the ring is left as it was. Either way n1 ends as the only master. The return value is
   * ARTNET_ESTATE even then.
   */
  method Join(n1: Node, n2: Node, ghost r1: seq<Node>, ghost r2: seq<Node>, ghost apart: bool, ghost k: nat)
    returns (ret: int)
    requires Group(r1) && Group(r2) && Joinable(r1, r2, apart, k) && r1[0] == n1 && r2[0] == n2
    modifies r1`peer, r1`master, r2`peer, r2`master
    ensures ret == if n1.on || n2.on then -5 else -4
    ensures n1.on || n2.on ==> unchanged(r1) && unchanged(r2)
    ensures !n1.on && !n2.on ==> Ring(Joined(r1, r2, apart)) && OnlyMaster(Joined(r1, r2, apart), n1)
  {
    if n1.on || n2.on {
      ret := ARTNET_EACTION;
    } else {
      LinkGroups(n1, n2, r1, r2, apart, k);
      hide GroupOf, RingOf, Members;
      Elect(n1, Joined(r1, r2, apart));
      ret := ARTNET_ESTATE;
    }
  }

  /** The peer walk of artnet_read: handle is called for each other member once, in ring order. */
  method WalkPeers(n: Node, ghost r: seq<Node>) returns (visited: seq<Node>)
    requires Group(r) && r[0] == n
    ensures visited == r[1..]
  {
    visited := [];
    var tmp := n.peer;
    assert Peers(r)[0] == n.peer;
    while tmp != null && tmp != n
      invariant |visited| < |r| && visited == r[1..|visited| + 1]
      invariant tmp == if |visited| + 1 < |r| then r[|visited| + 1] else if n.peer == null then null else n
      decreases |r| - |visited|
    {
      assert Peers(r)[|visited| + 1] == tmp.peer;
      visited := visited + [tmp];
      tmp := tmp.peer;
    }
  }
}
