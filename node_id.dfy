/**
 * NodeId: one replica within one replication group, named by the group's id
 * (a string) and the replica's PeerId.
 */
module NodeIds {
  import opened Text
  import opened PeerIds

  datatype NodeId = NodeId(groupId: string, peerId: PeerId)

  /** std::string::compare: negative, zero or positive as `a` sorts before, with or after `b`. */
  function Compare(a: string, b: string): (rc: int)
    ensures rc < 0 <==> StringLess(a, b)
    ensures rc == 0 <==> a == b
    ensures rc > 0 <==> StringLess(b, a)
  {
    StringLessIrreflexive(a);
    StringLessTotal(a, b);
    StringLessAsymmetric(a, b);
    if StringLess(a, b) then -1 else if a == b then 0 else 1
  }

  /** operator<: the group ids are compared first, the peers only when the groups are equal. */
  predicate NodeLess(x: NodeId, y: NodeId) {
    var rc := Compare(x.groupId, y.groupId);
    rc < 0 || (rc == 0 && PeerLess(x.peerId, y.peerId))
  }

  /** operator==: same group id and same peer. */
  predicate NodeEq(x: NodeId, y: NodeId) {
    x.groupId == y.groupId && PeerEq(x.peerId, y.peerId)
  }

  /** operator!=, which the source writes out on its own. */
  predicate NodeNe(x: NodeId, y: NodeId) {
    x.groupId != y.groupId || !PeerEq(x.peerId, y.peerId)
  }

  /** NodeId::to_string: "group:" followed by the peer as operator<< prints it. */
  function NodeToString(n: NodeId): string {
    n.groupId + ":" + Render(n.peerId)
  }

  /** operator== is value equality and operator!= is its negation. */
  lemma NodeEqIsEquality(x: NodeId, y: NodeId)
    ensures NodeEq(x, y) <==> x == y
    ensures NodeNe(x, y) <==> !NodeEq(x, y)
  {
    PeerEqIsEquality(x.peerId, y.peerId);
  }

  /** The order is lexicographic: group id first, then peer. */
  lemma NodeLessIsLexicographic(x: NodeId, y: NodeId)
    ensures NodeLess(x, y)
        <==> StringLess(x.groupId, y.groupId) || (x.groupId == y.groupId && PeerLess(x.peerId, y.peerId))
  {
  }

  lemma NodeLessIrreflexive(x: NodeId)
    ensures !NodeLess(x, x)
  {
    PeerLessIrreflexive(x.peerId);
  }

  lemma NodeLessTransitive(x: NodeId, y: NodeId, z: NodeId)
    requires NodeLess(x, y) && NodeLess(y, z)
    ensures NodeLess(x, z)
  {
    if StringLess(x.groupId, y.groupId) && StringLess(y.groupId, z.groupId) {
      StringLessTransitive(x.groupId, y.groupId, z.groupId);
    } else if x.groupId == y.groupId && y.groupId == z.groupId {
      PeerLessTransitive(x.peerId, y.peerId, z.peerId);
    }
  }

  /** Within one group, nodes whose peers are of different variants are unordered. */
  lemma NodeLessAcrossVariants(x: NodeId, y: NodeId)
    requires x.groupId == y.groupId && x.peerId.Type() != y.peerId.Type()
    ensures !NodeLess(x, y) && !NodeLess(y, x) && !NodeEq(x, y)
  {
  }

  /**
   * A group id without ':' is everything before the first ':' of the node's
   * text, and everything after that ':' is the peer's text.
   */
  lemma NodeToStringStartsWithGroup(n: NodeId)
    requires forall i :: 0 <= i < |n.groupId| ==> n.groupId[i] != ':'
    ensures var s := NodeToString(n);
      && Span(s, IsNotColon) == |n.groupId| && s[..|n.groupId|] == n.groupId
      && s[|n.groupId|..] == ":" + Render(n.peerId)
  {
    var s := NodeToString(n);
    assert s == n.groupId + (":" + Render(n.peerId));
    SpanStopsAfter(n.groupId, ":" + Render(n.peerId), IsNotColon);
  }

  /**
   * As written, NodeId's constructor copies its peer with PeerId's copy
   * constructor, which drops the host name: nodes of one group built from two
   * different host names with one idx are equal, and print as "g::0".
   */
  lemma NodeIdAsWrittenMergesHostNames()
    ensures var a := NodeId("g", CopyAsWritten(HostNamePeer("node-a:8002", 0)));
            var b := NodeId("g", CopyAsWritten(HostNamePeer("node-b:8002", 0)));
            && NodeEq(a, b) && !NodeLess(a, b) && !NodeLess(b, a)
            && NodeToString(a) == "g::0"
  {
    var a := NodeId("g", CopyAsWritten(HostNamePeer("node-a:8002", 0)));
    assert IntToString(0) == "0";
    assert Render(a.peerId) == ":0";
  }
}
