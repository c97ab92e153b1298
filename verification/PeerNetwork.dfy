/** All the nodes of a program: what any sequence of joins leaves. */
module PeerNetwork {
  import opened Common
  import opened PeerRing

  ghost function Everyone(rings: seq<seq<Node>>): set<Node> {
    set i, j | 0 <= i < |rings| && 0 <= j < |rings[i]| :: rings[i][j]
  }

  /** A group with exactly one master, or the empty place of one that has been joined to another. */
  ghost predicate Settled(r: seq<Node>)
    reads r
  {
    r == [] || (Group(r) && exists i :: 0 <= i < |r| && OnlyMaster(r, r[i]))
  }

  ghost predicate Disjoint(rings: seq<seq<Node>>) {
    forall a, b :: 0 <= a < b < |rings| ==> Members(rings[a]) !! Members(rings[b])
  }

  /** Every node is in exactly one group, and every group has exactly one master. */
  ghost predicate Network(rings: seq<seq<Node>>)
    reads Everyone(rings)
  {
    Disjoint(rings) &&
    forall a :: 0 <= a < |rings| ==>
      (forall i :: 0 <= i < |rings[a]| ==> rings[a][i] in Everyone(rings)) && Settled(rings[a])
  }

  /** A group may be listed from any of its nodes. */
  lemma ListedFrom(r: seq<Node>, i: nat)
    requires i < |r| && Group(r)
    ensures Group(Rotate(r, i)) && Members(Rotate(r, i)) == Members(r) && Rotate(r, i)[0] == r[i]
    ensures NoRepeats(r) && NoRepeats(Rotate(r, i))
  {
    RotatedMembers(r, i);
    assert Peers(Rotate(r, i)) == Peers(r)[i..] + Peers(r)[..i];
    if Ring(r) {
      RotateRing(r, Peers(r), i);
    } else {
      assert Rotate(r, i) == r;
    }
  }

  lemma RotateOn(r: seq<Node>, i: nat, j: nat) returns (k: nat)
    requires i < |r| && j < |r|
    ensures k < |r| && Rotate(r, j) == Rotate(Rotate(r, i), k)
  {
    k := if i <= j then j - i else j + |r| - i;
  }

  /** What joining makes of the groups: those of the two nodes become one, every other is untouched. */
  ghost function Merged(rings: seq<seq<Node>>, a: nat, i: nat, b: nat, j: nat): seq<seq<Node>>
    requires a < |rings| && b < |rings| && i < |rings[a]| && j < |rings[b]|
  {
    rings[b := []][a := Joined(Rotate(rings[a], i), Rotate(rings[b], j), a != b)]
  }

  lemma MergedMembers(rings: seq<seq<Node>>, a: nat, i: nat, b: nat, j: nat)
    requires a < |rings| && b < |rings| && i < |rings[a]| && j < |rings[b]|
    ensures Members(Joined(Rotate(rings[a], i), Rotate(rings[b], j), a != b)) == Members(rings[a]) + Members(rings[b])
  {
    RotatedMembers(rings[a], i);
    RotatedMembers(rings[b], j);
    hide Rotate;
    JoinedMembers(Rotate(rings[a], i), Rotate(rings[b], j));
  }

  lemma JoinedMembers(r1: seq<Node>, r2: seq<Node>)
    requires r1 != []
    ensures Members(Joined(r1, r2, true)) == Members(r1) + Members(r2)
  {
    var t := Joined(r1, r2, true);
    forall x | x in Members(r1) + Members(r2)
      ensures x in Members(t)
    {
      if x in Members(r2) {
        var i :| 0 <= i < |r2| && r2[i] == x;
        assert t[i + 1] == x;
      } else {
        var i :| 0 <= i < |r1| && r1[i] == x;
        assert t[if i == 0 then 0 else i + |r2|] == x;
      }
    }
  }

  lemma MergedDisjoint(rings: seq<seq<Node>>, a: nat, i: nat, b: nat, j: nat)
    requires Disjoint(rings) && a < |rings| && b < |rings| && i < |rings[a]| && j < |rings[b]|
    ensures Disjoint(Merged(rings, a, i, b, j))
  {
    MergedMembers(rings, a, i, b, j);
    hide Members, Rotate;
  }

  lemma RotatedIn(r: seq<Node>, k: nat)
    requires k < |r|
    ensures forall i :: 0 <= i < |r| ==> Rotate(r, k)[i] in r
  {
  }

  /** The groups of the two nodes, listed from them, are as artnet_join needs them. */
  lemma ListedForJoin(rings: seq<seq<Node>>, a: nat, i: nat, b: nat, j: nat) returns (k: nat)
    requires Network(rings) && a < |rings| && b < |rings| && i < |rings[a]| && j < |rings[b]|
    ensures var r1, r2 := Rotate(rings[a], i), Rotate(rings[b], j);
      Group(r1) && Group(r2) && Joinable(r1, r2, a != b, k) && r1[0] == rings[a][i] && r2[0] == rings[b][j] &&
      (forall c :: 0 <= c < |r1| ==> r1[c] in rings[a]) && (forall c :: 0 <= c < |r2| ==> r2[c] in rings[b])
  {
    hide Group, Members, Rotate;
    ListedFrom(rings[a], i);
    ListedFrom(rings[b], j);
    RotatedIn(rings[a], i);
    RotatedIn(rings[b], j);
    k := 0;
    if a == b {
      k := RotateOn(rings[a], i, j);
    }
  }

  /** Nodes of other groups are none of those that are joined. */
  lemma Elsewhere(rings: seq<seq<Node>>, a: nat, i: nat, c: nat)
    requires Disjoint(rings) && a < |rings| && i < |rings[a]| && c < |rings| && a != c
    ensures forall k, l :: 0 <= k < |rings[a]| && 0 <= l < |rings[c]| ==> Rotate(rings[a], i)[k] != rings[c][l]
  {
    hide Rotate;
    assert Members(rings[a]) !! Members(rings[c]);
    RotatedMembers(rings[a], i);
    Apart(Rotate(rings[a], i), rings[c]);
  }

  lemma NowSettled(r: seq<Node>, m: Node)
    requires Ring(r) && OnlyMaster(r, m) && r[0] == m
    ensures Settled(r)
  {
  }

  lemma NetworkOf(rings: seq<seq<Node>>)
    requires Disjoint(rings) && forall c :: 0 <= c < |rings| ==> Settled(rings[c])
    ensures Network(rings)
  {
    hide Settled, Disjoint;
  }

  /**
   * artnet_join on any two nodes: every node stays in exactly one group and every group keeps
   * exactly one master. Only the groups of the two nodes change: they become one, with n1 in charge.
   */
  method JoinAny(n1: Node, n2: Node, ghost rings: seq<seq<Node>>,
                 ghost a: nat, ghost i: nat, ghost b: nat, ghost j: nat)
    returns (ret: int)
    requires Network(rings) && a < |rings| && b < |rings| && i < |rings[a]| && j < |rings[b]|
    requires rings[a][i] == n1 && rings[b][j] == n2
    modifies rings[a]`peer, rings[a]`master, rings[b]`peer, rings[b]`master
    ensures ret == if n1.on || n2.on then -5 else -4
    ensures n1.on || n2.on ==> unchanged(rings[a]) && unchanged(rings[b])
    ensures !n1.on && !n2.on ==> Network(Merged(rings, a, i, b, j))
    ensures !n1.on && !n2.on ==> OnlyMaster(Merged(rings, a, i, b, j)[a], n1)
  {
    hide Group, Ring, Joinable, Rotate, OnlyMaster, Settled, Disjoint, Members;
    ghost var r1, r2 := Rotate(rings[a], i), Rotate(rings[b], j);
    ghost var k := ListedForJoin(rings, a, i, b, j);
    MergedDisjoint(rings, a, i, b, j);
    ret := Join(n1, n2, r1, r2, a != b, k);
    if !n1.on && !n2.on {
      ghost var after := Merged(rings, a, i, b, j);
      forall c | 0 <= c < |after|
        ensures Settled(after[c])
      {
        if c == a {
          NowSettled(after[a], n1);
        } else if c == b {
          NothingSettled();
        } else {
          Elsewhere(rings, a, i, c);
          Elsewhere(rings, b, j, c);
        }
      }
      NetworkOf(after);
    }
  }

  lemma NothingSettled()
    ensures Settled([])
  {
  }

  /** Nodes just created, each alone and its own master, form a network. */
  lemma NewNetwork(rings: seq<seq<Node>>)
    requires Disjoint(rings)
    requires forall c :: 0 <= c < |rings| ==>
      |rings[c]| == 1 && rings[c][0].peer == null && rings[c][0].master
    ensures Network(rings)
  {
    hide Disjoint, Settled;
    forall c | 0 <= c < |rings|
      ensures Settled(rings[c])
    {
      AloneSettled(rings[c]);
    }
    NetworkOf(rings);
  }

  lemma AloneSettled(r: seq<Node>)
    requires |r| == 1 && r[0].peer == null && r[0].master
    ensures Settled(r)
  {
    assert Peers(r) == [null];
    assert OnlyMaster(r, r[0]);
  }
}
