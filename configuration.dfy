/**
 * Configuration: the set of peers that vote in a replication group at one
 * moment, changed in place by adding and removing peers, and compared with
 * other configurations and with lists of peers. `diffs` gives the peers to
 * drop and the peers to bring in when a leader moves the group from one
 * configuration to another.
 *
 * The C++ class keeps a std::set<PeerId> ordered by operator<; here the set is
 * a set of values, so two peers are one member exactly when they are equal
 * (see PeerIds.FixedLessIsStrictTotalOrder for the order under which the two
 * agree).
 */
module Membership {
  import opened PeerIds

  /** The distinct peers of a vector. */
  function Elems(list: seq<PeerId>): set<PeerId> {
    set p | p in list
  }

  /** Ascending in the order of a sorted container of peers, hence without repeats. */
  predicate StrictlyAscending(list: seq<PeerId>) {
    forall i, j :: 0 <= i < j < |list| ==> FixedLess(list[i], list[j])
  }

  /** A subset as large as its superset is the superset. */
  lemma SubsetOfSameSize(a: set<PeerId>, b: set<PeerId>)
    requires a <= b && |a| == |b|
    ensures a == b
  {
    assert b == a + (b - a);
    assert a * (b - a) == {};
    assert |b - a| == 0;
  }

  /** Every non-empty set of peers has a least element in the container order. */
  lemma {:induction false} HasLeast(s: set<PeerId>)
    requires s != {}
    ensures exists m :: m in s && forall y :: y in s && y != m ==> FixedLess(m, y)
    decreases |s|
  {
    var x :| x in s;
    if s != {x} {
      HasLeast(s - {x});
      var m :| m in s - {x} && forall y :: y in s - {x} && y != m ==> FixedLess(m, y);
      FixedLessIsStrictTotalOrder(m, x, m);
      if FixedLess(m, x) {
        assert forall y :: y in s && y != m ==> FixedLess(m, y);
      } else {
        forall y | y in s && y != x
          ensures FixedLess(x, y)
        {
          if y != m {
            FixedLessIsStrictTotalOrder(x, m, y);
          }
        }
      }
    }
  }

  /** Appending the least of the remaining peers keeps a list ascending and below the rest. */
  lemma AppendLeast(list: seq<PeerId>, rest: set<PeerId>, m: PeerId)
    requires StrictlyAscending(list)
    requires forall i, y :: 0 <= i < |list| && y in rest ==> FixedLess(list[i], y)
    requires m in rest && forall y :: y in rest && y != m ==> FixedLess(m, y)
    ensures StrictlyAscending(list + [m])
    ensures forall i, y :: 0 <= i < |list| + 1 && y in rest - {m} ==> FixedLess((list + [m])[i], y)
  {
    var l := list + [m];
    forall i, j | 0 <= i < j < |l|
      ensures FixedLess(l[i], l[j])
    {
      if j == |list| {
        assert l[j] == m;
      } else {
        assert l[i] == list[i] && l[j] == list[j];
      }
    }
  }

  // ---------------------------------------------------------------------------
  // diffs

  /** The two halves of a difference: peers only on the left, peers only on the right. */
  datatype Delta = Delta(included: set<PeerId>, excluded: set<PeerId>)

  /**
   * The difference between `current` and `target`: `included` is what only
   * `current` has, `excluded` what only `target` has.
   */
  function Diff(current: set<PeerId>, target: set<PeerId>): (d: Delta)
    ensures d.included <= current && d.included !! target && current - d.included <= target
    ensures d.excluded <= target && d.excluded !! current && target - d.excluded <= current
  {
    Delta(current - target, target - current)
  }

  /** Swapping the operands swaps the two halves. */
  lemma DiffMirror(a: set<PeerId>, b: set<PeerId>)
    ensures Diff(b, a) == Delta(Diff(a, b).excluded, Diff(a, b).included)
  {
  }

  /** Both halves are empty exactly when the configurations are equal. */
  lemma DiffEmptyIffEqual(a: set<PeerId>, b: set<PeerId>)
    ensures Diff(a, b) == Delta({}, {}) <==> a == b
  {
    if Diff(a, b) == Delta({}, {}) {
      assert a - b == {} && b - a == {};
      assert forall x :: x in a <==> x in b;
    }
  }

  /**
   * Dropping `included` from `a` and adding `excluded` gives `b`; and the
   * joint configuration a ∪ b is `a` grown by `excluded`, or `b` grown by
   * `included`.
   */
  lemma DiffTransforms(a: set<PeerId>, b: set<PeerId>)
    ensures (a - Diff(a, b).included) + Diff(a, b).excluded == b
    ensures a + Diff(a, b).excluded == a + b == b + Diff(a, b).included
    ensures Diff(a, b).included + (a * b) == a && Diff(a, b).excluded + (a * b) == b
  {
  }

  // ---------------------------------------------------------------------------
  // The class

  class Configuration {
    var peers: set<PeerId>

    /** An empty configuration. */
    constructor ()
      ensures peers == {}
    {
      peers := {};
    }

    /** From a vector: every listed peer, once. */
    constructor FromSeq(list: seq<PeerId>)
      ensures peers == Elems(list)
    {
      peers := {};
      new;
      AssignSeq(list);
    }

    /** From a set of peers. */
    constructor FromSet(s: set<PeerId>)
      ensures peers == s
    {
      peers := s;
    }

    /** operator= from a vector: clear, then insert every listed peer. */
    method AssignSeq(list: seq<PeerId>)
      modifies this
      ensures peers == Elems(list)
    {
      peers := {};
      for i := 0 to |list|
        invariant peers == Elems(list[..i])
      {
        assert list[..i + 1] == list[..i] + [list[i]];
        peers := peers + {list[i]};
      }
      assert list[..|list|] == list;
    }

    /** operator= from a set. */
    method AssignSet(s: set<PeerId>)
      modifies this
      ensures peers == s
    {
      peers := s;
    }

    /** reset: remove all peers. */
    method Reset()
      modifies this
      ensures peers == {}
    {
      peers := {};
    }

    predicate Empty()
      reads this
    {
      peers == {}
    }

    function Size(): nat
      reads this
    {
      |peers|
    }

    /** contains(peer). */
    predicate Contains(p: PeerId)
      reads this
    {
      p in peers
    }

    /** list_peers into a std::set: the destination is cleared, then holds the peers. */
    method ListPeersSet() returns (r: set<PeerId>)
      ensures r == peers
    {
      r := peers;
    }

    /**
     * list_peers into a std::vector: the destination is cleared, then holds
     * every peer once, in the container's ascending order.
     */
    method ListPeers() returns (list: seq<PeerId>)
      ensures Elems(list) == peers && |list| == |peers|
      ensures StrictlyAscending(list)
    {
      list := [];
      var rest := peers;
      while rest != {}
        invariant rest <= peers
        invariant Elems(list) == peers - rest
        invariant |list| + |rest| == |peers|
        invariant StrictlyAscending(list)
        invariant forall i, y :: 0 <= i < |list| && y in rest ==> FixedLess(list[i], y)
        decreases |rest|
      {
        HasLeast(rest);
        var m :| m in rest && forall y :: y in rest && y != m ==> FixedLess(m, y);
        assert Elems(list + [m]) == Elems(list) + {m};
        AppendLeast(list, rest, m);
        list := list + [m];
        rest := rest - {m};
      }
    }

    /** append_peers: the destination set gains every peer of the configuration. */
    method AppendPeers(into: set<PeerId>) returns (r: set<PeerId>)
      ensures into <= r && peers <= r
      ensures forall p :: p in r ==> p in into || p in peers
    {
      r := into + peers;
    }

    /** add_peer: true exactly when the peer was not yet a member. */
    method AddPeer(p: PeerId) returns (added: bool)
      modifies this
      ensures added <==> p !in old(peers)
      ensures peers == old(peers) + {p}
      ensures |peers| == if added then old(|peers|) + 1 else old(|peers|)
    {
      added := p !in peers;
      assert added ==> |peers + {p}| == |peers| + 1;
      assert !added ==> peers + {p} == peers;
      peers := peers + {p};
    }

    /** remove_peer: true exactly when the peer was a member; no other peer is touched. */
    method RemovePeer(p: PeerId) returns (removed: bool)
      modifies this
      ensures removed <==> p in old(peers)
      ensures peers == old(peers) - {p}
      ensures |peers| == if removed then old(|peers|) - 1 else old(|peers|)
    {
      removed := p in peers;
      assert !removed ==> peers - {p} == peers;
      peers := peers - {p};
    }

    /** contains(vector): true when every listed peer is a member (so for an empty list). */
    method ContainsAll(list: seq<PeerId>) returns (all: bool)
      ensures all <==> forall i :: 0 <= i < |list| ==> Contains(list[i])
      ensures all <==> Elems(list) <= peers
    {
      for i := 0 to |list|
        invariant forall k :: 0 <= k < i ==> list[k] in peers
      {
        if list[i] !in peers {
          return false;
        }
      }
      return true;
    }

    /** equals(vector): the distinct listed peers are exactly the members. */
    method EqualsList(list: seq<PeerId>) returns (same: bool)
      ensures same <==> Elems(list) == peers
    {
      var seen: set<PeerId> := {};
      for i := 0 to |list|
        invariant seen == Elems(list[..i])
        invariant seen <= peers
      {
        if list[i] !in peers {
          return false;
        }
        assert list[..i + 1] == list[..i] + [list[i]];
        seen := seen + {list[i]};
      }
      assert list[..|list|] == list;
      same := |seen| == |peers|;
      if same {
        SubsetOfSameSize(seen, peers);
      }
    }

    /** equals(Configuration): same size, and every member is a member of `rhs`. */
    method Equals(rhs: Configuration) returns (same: bool)
      ensures same <==> peers == rhs.peers
      ensures Size() != rhs.Size() ==> !same
    {
      if Size() != rhs.Size() {
        return false;
      }
      var rest := peers;
      while rest != {}
        invariant rest <= peers
        invariant peers - rest <= rhs.peers
        decreases |rest|
      {
        var x :| x in rest;
        if !rhs.Contains(x) {
          return false;
        }
        rest := rest - {x};
      }
      SubsetOfSameSize(peers, rhs.peers);
      return true;
    }

    /**
     * diffs: `included` becomes this − rhs and `excluded` becomes rhs − this.
     * `included` may be this configuration itself (`c.diffs(rhs, &c, &x)`):
     * the copy into it is then a self-assignment, and the erasing loop walks
     * `rhs`, so this becomes this − rhs. Otherwise both operands are left as
     * they were.
     */
    method Diffs(rhs: Configuration, included: Configuration, excluded: Configuration)
      requires included != excluded
      requires included != rhs && excluded != this && excluded != rhs
      modifies included, excluded
      ensures Delta(included.peers, excluded.peers) == Diff(old(peers), old(rhs.peers))
      ensures unchanged(rhs)
      ensures included != this ==> unchanged(this)
    {
      included.peers := peers;
      excluded.peers := rhs.peers;
      excluded.EraseAll(peers);
      included.EraseAll(rhs.peers);
    }

    /** Erase every peer of `s`, one at a time, as the loops of diffs do. */
    method EraseAll(s: set<PeerId>)
      modifies this
      ensures peers == old(peers) - s
    {
      var rest := s;
      while rest != {}
        invariant rest <= s
        invariant peers == old(peers) - (s - rest)
        decreases |rest|
      {
        var x :| x in rest;
        peers := peers - {x};
        rest := rest - {x};
      }
    }
  }

  /**
   * A membership change from {a, b, c} to {b, c, d}: the old configuration's
   * diffs against the new one drop a and bring in d, and the reverse call
   * mirrors it. Called with the old configuration as its own `included`, diffs
   * leaves in it only the dropped peer.
   */
  method MembershipChangeExample(a: PeerId, b: PeerId, c: PeerId, d: PeerId)
    returns (dropped: set<PeerId>, added: set<PeerId>, back: Delta, inPlace: set<PeerId>)
    requires a != b && a != c && a != d && b != c && b != d && c != d
    ensures dropped == {a} && added == {d}
    ensures back == Delta({d}, {a})
    ensures inPlace == {a}
  {
    var before := new Configuration.FromSeq([a, b, c]);
    var after := new Configuration.FromSeq([b, c, d]);
    var included := new Configuration();
    var excluded := new Configuration();
    before.Diffs(after, included, excluded);
    dropped, added := included.peers, excluded.peers;
    after.Diffs(before, included, excluded);
    back := Delta(included.peers, excluded.peers);
    before.Diffs(after, before, excluded);
    inPlace := before.peers;
  }
}
