/** Which nodes a traversal along translations can reach, and when those sets are components. */
module GraphComponents {
  import opened GraphPaths

  /** Some translation leads from u to v. */
  ghost predicate Hop<Msg(!new)>(net: Net<Msg>, u: nat, v: nat) {
    exists t :: 0 <= t < |net| && u in net[t].inputs && v in net[t].outputs
  }

  datatype Walk = Start(node: nat) | Extend(walk: Walk, node: nat)

  ghost function First(w: Walk): nat {
    if w.Start? then w.node else First(w.walk)
  }

  ghost predicate IsWalk<Msg(!new)>(net: Net<Msg>, w: Walk) {
    w.Extend? ==> IsWalk(net, w.walk) && Hop(net, w.walk.node, w.node)
  }

  ghost predicate Connected<Msg(!new)>(net: Net<Msg>, s: nat, v: nat) {
    exists w :: IsWalk(net, w) && First(w) == s && w.node == v
  }

  lemma ConnectedSelf<Msg(!new)>(net: Net<Msg>, s: nat)
    ensures Connected(net, s, s)
  {
    assert IsWalk(net, Start(s)) && First(Start(s)) == s;
  }

  lemma ConnectedHop<Msg(!new)>(net: Net<Msg>, s: nat, u: nat, v: nat)
    requires Connected(net, s, u) && Hop(net, u, v)
    ensures Connected(net, s, v)
  {
    var w :| IsWalk(net, w) && First(w) == s && w.node == u;
    assert IsWalk(net, Extend(w, v)) && First(Extend(w, v)) == s;
  }

  lemma {:induction false} WalkOn<Msg(!new)>(net: Net<Msg>, s: nat, w: Walk)
    requires Connected(net, s, First(w)) && IsWalk(net, w)
    ensures Connected(net, s, w.node)
    decreases w
  {
    if w.Extend? {
      WalkOn(net, s, w.walk);
      ConnectedHop(net, s, w.walk.node, w.node);
    }
  }

  lemma ConnectedTransitive<Msg(!new)>(net: Net<Msg>, s: nat, u: nat, v: nat)
    requires Connected(net, s, u) && Connected(net, u, v)
    ensures Connected(net, s, v)
  {
    var w :| IsWalk(net, w) && First(w) == u && w.node == v;
    WalkOn(net, s, w);
  }

  /** A set with s in it that no translation leaves holds everything connected to s. */
  lemma {:induction false} ClosedUnderWalks<Msg(!new)>(net: Net<Msg>, w: Walk, nodes: set<nat>)
    requires IsWalk(net, w) && First(w) in nodes
    requires forall u, v :: u in nodes && Hop(net, u, v) ==> v in nodes
    ensures w.node in nodes
    decreases w
  {
    if w.Extend? {
      ClosedUnderWalks(net, w.walk, nodes);
      assert Hop(net, w.walk.node, w.node);
    }
  }

  lemma {:induction false} PathIsConnected<Msg(!new)>(net: Net<Msg>, s: nat, p: seq<nat>, v: nat)
    requires SingleInputOutput(net) && IsPath(net, s, p, v)
    ensures Connected(net, s, v)
    decreases |p|
  {
    ConnectedSelf(net, s);
    if p != [] {
      var t := p[|p| - 1];
      PathIsConnected(net, s, p[..|p| - 1], net[t].inputs[0]);
      assert net[t].inputs[0] in net[t].inputs && v in net[t].outputs;
      ConnectedHop(net, s, net[t].inputs[0], v);
    }
  }

  lemma {:induction false} WalkIsPath<Msg(!new)>(net: Net<Msg>, w: Walk) returns (p: seq<nat>)
    requires SingleInputOutput(net) && IsWalk(net, w)
    ensures IsPath(net, First(w), p, w.node)
    decreases w
  {
    p := [];
    if w.Extend? {
      var q := WalkIsPath(net, w.walk);
      var t :| 0 <= t < |net| && w.walk.node in net[t].inputs && w.node in net[t].outputs;
      p := q + [t];
      assert p[..|q|] == q;
    }
  }

  /** With single inputs and outputs, a translation reaches what a traversal reaches. */
  lemma ReachableIsConnected<Msg(!new)>(net: Net<Msg>, s: nat, v: nat)
    requires SingleInputOutput(net)
    ensures Reachable(net, s, v) <==> Connected(net, s, v)
  {
    if Reachable(net, s, v) {
      var p :| IsPath(net, s, p, v);
      PathIsConnected(net, s, p, v);
    }
    if Connected(net, s, v) {
      var w :| IsWalk(net, w) && First(w) == s && w.node == v;
      var p := WalkIsPath(net, w);
    }
  }

  // ----- registration in both directions -----

  /** Every translation has a counterpart the other way round. */
  ghost predicate Paired<Msg(!new)>(net: Net<Msg>) {
    forall t :: 0 <= t < |net| ==> HasReverse(net, t)
  }

  ghost predicate HasReverse<Msg(!new)>(net: Net<Msg>, t: nat)
    requires t < |net|
  {
    exists r :: 0 <= r < |net| && net[r].inputs == net[t].outputs && net[r].outputs == net[t].inputs
  }

  lemma HopBack<Msg(!new)>(net: Net<Msg>, u: nat, v: nat)
    requires Paired(net) && Hop(net, u, v)
    ensures Hop(net, v, u)
  {
    var t :| 0 <= t < |net| && u in net[t].inputs && v in net[t].outputs;
    assert HasReverse(net, t);
    var r :| 0 <= r < |net| && net[r].inputs == net[t].outputs && net[r].outputs == net[t].inputs;
  }

  lemma {:induction false} WalkBack<Msg(!new)>(net: Net<Msg>, w: Walk)
    requires Paired(net) && IsWalk(net, w)
    ensures Connected(net, w.node, First(w))
    decreases w
  {
    ConnectedSelf(net, w.node);
    if w.Extend? {
      WalkBack(net, w.walk);
      HopBack(net, w.walk.node, w.node);
      ConnectedHop(net, w.node, w.node, w.walk.node);
      ConnectedTransitive(net, w.node, w.walk.node, First(w));
    }
  }

  /** With paired translations, being connected is an equivalence. */
  lemma SameComponent<Msg(!new)>(net: Net<Msg>, s: nat, u: nat)
    requires Paired(net) && Connected(net, s, u)
    ensures Connected(net, u, s)
    ensures forall v :: Connected(net, s, v) <==> Connected(net, u, v)
  {
    var w :| IsWalk(net, w) && First(w) == s && w.node == u;
    WalkBack(net, w);
    forall v ensures Connected(net, s, v) <==> Connected(net, u, v) {
      if Connected(net, s, v) {
        ConnectedTransitive(net, u, s, v);
      }
      if Connected(net, u, v) {
        ConnectedTransitive(net, s, u, v);
      }
    }
  }

  /** Without the reverse, being connected is not symmetric. */
  lemma OneWayIsNotSymmetric<Msg(!new)>(cb: (seq<Msg>, seq<Msg>) -> seq<Msg>)
    ensures var net := [Translation([0], [1], cb)];
      Connected(net, 0, 1) && !Connected(net, 1, 0)
  {
    var net := [Translation([0], [1], cb)];
    assert 0 in net[0].inputs && 1 in net[0].outputs;
    ConnectedSelf(net, 0);
    ConnectedHop(net, 0, 0, 1);
    forall w | IsWalk(net, w) && First(w) == 1 ensures w.node in {1} {
      ClosedUnderWalks(net, w, {1});
    }
  }

  // ----- traversal -----

  ghost predicate AllHopsIn<Msg(!new)>(net: Net<Msg>, u: nat, order: seq<nat>) {
    forall t, v :: 0 <= t < |net| && u in net[t].inputs && v in net[t].outputs ==> v in order
  }

  /** Visited nodes are connected to s, and all that left the queue have been followed. */
  ghost predicate Traversed<Msg(!new)>(net: Net<Msg>, s: nat, order: seq<nat>, queue: seq<nat>, hand: set<nat>) {
    && s in order
    && (forall v :: v in order ==> Connected(net, s, v))
    && (forall v :: v in queue ==> v in order)
    && (forall v :: v in order && v !in queue && v !in hand ==> AllHopsIn(net, v, order))
  }

  lemma TraversedMore<Msg(!new)>(net: Net<Msg>, s: nat, order: seq<nat>, queue: seq<nat>, u: nat, t: nat,
                                 order': seq<nat>, queue': seq<nat>)
    requires Traversed(net, s, order, queue, {u}) && u in order && t < |net| && u in net[t].inputs
    requires forall v :: v in order' <==> v in order || v in net[t].outputs
    requires forall v :: v in queue' <==> v in queue || (v in order' && v !in order)
    ensures Traversed(net, s, order', queue', {u})
  {
    forall v | v in order' ensures Connected(net, s, v) {
      if v !in order {
        assert Hop(net, u, v);
        ConnectedHop(net, s, u, v);
      }
    }
    forall v | v in order' && v !in queue' && v !in {u} ensures AllHopsIn(net, v, order') {
      assert AllHopsIn(net, v, order);
    }
  }

  lemma TraversedAll<Msg(!new)>(net: Net<Msg>, s: nat, order: seq<nat>)
    requires Traversed(net, s, order, [], {})
    ensures forall v :: v in order <==> Connected(net, s, v)
  {
    var nodes := set v | v in order;
    forall u, v | u in nodes && Hop(net, u, v) ensures v in nodes {
      assert u !in [] && u !in {};
      assert AllHopsIn(net, u, order);
    }
    forall v | Connected(net, s, v) ensures v in order {
      var w :| IsWalk(net, w) && First(w) == s && w.node == v;
      ClosedUnderWalks(net, w, nodes);
    }
  }
}
