/** Message nodes and translations, paths through them, and breadth-first search order. */
module GraphPaths {

  /** A translation from input nodes to output nodes; the callback sees inputs and old outputs. */
  datatype Translation<!Msg> = Translation(inputs: seq<nat>, outputs: seq<nat>, cb: (seq<Msg>, seq<Msg>) -> seq<Msg>)

  type Net<!Msg> = seq<Translation<Msg>>

  /** Input index i of translation t. */
  datatype Link = Link(translation: nat, input: nat)

  /** All translations connect nodes below n, and callbacks keep the number of outputs. */
  ghost predicate WellFormed<Msg(!new)>(net: Net<Msg>, n: nat) {
    forall t :: 0 <= t < |net| ==>
      && (forall i :: 0 <= i < |net[t].inputs| ==> net[t].inputs[i] < n)
      && (forall i :: 0 <= i < |net[t].outputs| ==> net[t].outputs[i] < n)
      && (forall ins, outs :: |net[t].cb(ins, outs)| == |outs|)
  }

  /** links[u] lists exactly the inputs that are node u. */
  ghost predicate Linked<Msg(!new)>(net: Net<Msg>, links: seq<seq<Link>>) {
    && (forall u, k :: 0 <= u < |links| && 0 <= k < |links[u]| ==>
          var e := links[u][k];
          e.translation < |net| && e.input < |net[e.translation].inputs| && net[e.translation].inputs[e.input] == u)
    && (forall t, i :: 0 <= t < |net| && 0 <= i < |net[t].inputs| ==>
          net[t].inputs[i] < |links| && Link(t, i) in links[net[t].inputs[i]])
  }

  // ----- one input and one output -----

  ghost predicate SingleInputOutput<Msg(!new)>(net: Net<Msg>) {
    forall t :: 0 <= t < |net| ==> |net[t].inputs| == 1 && |net[t].outputs| == 1
  }

  /** The translations p lead from node s to node v. */
  ghost predicate IsPath<Msg(!new)>(net: Net<Msg>, s: nat, p: seq<nat>, v: nat)
    requires SingleInputOutput(net)
  {
    if p == [] then v == s
    else
      var t := p[|p| - 1];
      t < |net| && net[t].outputs[0] == v && IsPath(net, s, p[..|p| - 1], net[t].inputs[0])
  }

  /** The message that the path makes of the source's message; before holds the old buffers. */
  ghost function PathValue<Msg(!new)>(net: Net<Msg>, s: nat, p: seq<nat>, v: nat, before: seq<Msg>): Msg
    requires SingleInputOutput(net) && WellFormed(net, |before|) && s < |before|
    requires IsPath(net, s, p, v)
  {
    if p == [] then before[s]
    else
      var t := p[|p| - 1];
      net[t].cb([PathValue(net, s, p[..|p| - 1], net[t].inputs[0], before)], [before[v]])[0]
  }

  ghost predicate Reachable<Msg(!new)>(net: Net<Msg>, s: nat, v: nat)
    requires SingleInputOutput(net)
  {
    exists p :: IsPath(net, s, p, v)
  }

  /** m is the composition of the callbacks along a path from s to v that no path undercuts. */
  ghost predicate ShortestPathValue<Msg(!new)>(net: Net<Msg>, s: nat, v: nat, before: seq<Msg>, m: Msg)
    requires SingleInputOutput(net) && WellFormed(net, |before|) && s < |before|
  {
    exists p ::
      && IsPath(net, s, p, v) && m == PathValue(net, s, p, v, before)
      && forall q :: IsPath(net, s, q, v) ==> |p| <= |q|
  }

  lemma PathSnoc<Msg(!new)>(net: Net<Msg>, s: nat, p: seq<nat>, u: nat, t: nat, before: seq<Msg>)
    requires SingleInputOutput(net) && WellFormed(net, |before|) && s < |before|
    requires IsPath(net, s, p, u) && t < |net| && net[t].inputs[0] == u
    ensures var v := net[t].outputs[0];
      && IsPath(net, s, p + [t], v)
      && PathValue(net, s, p + [t], v, before) == net[t].cb([PathValue(net, s, p, u, before)], [before[v]])[0]
  {
    assert (p + [t])[..|p|] == p;
  }

  // ----- breadth-first search -----

  type Paths = map<nat, seq<nat>>

  /** Every visited node has a path, and its buffer holds the value of that path. */
  ghost predicate Explained<Msg(!new)>(net: Net<Msg>, s: nat, before: seq<Msg>, buffers: seq<Msg>, paths: Paths)
    requires SingleInputOutput(net) && WellFormed(net, |before|) && s < |before|
  {
    && |buffers| == |before| && s in paths && paths[s] == []
    && forall v :: v in paths ==>
         v < |buffers| && IsPath(net, s, paths[v], v) && buffers[v] == PathValue(net, s, paths[v], v, before)
  }

  /** All translations that leave u lead to visited nodes at most one step further. */
  ghost predicate Finished<Msg(!new)>(net: Net<Msg>, paths: Paths, u: nat)
    requires SingleInputOutput(net) && u in paths
  {
    forall t :: 0 <= t < |net| && net[t].inputs[0] == u ==> Near(paths, net[t].outputs[0], u)
  }

  ghost predicate Near(paths: Paths, v: nat, u: nat)
    requires u in paths
  {
    v in paths && |paths[v]| <= |paths[u]| + 1
  }

  /** The queue goes outwards: no element is nearer than one before it, and all lie within one step of depth. */
  ghost predicate Ordered(paths: Paths, queue: seq<nat>, depth: nat) {
    && (forall i :: 0 <= i < |queue| ==> queue[i] in paths && depth <= |paths[queue[i]]|)
    && (forall i, j :: 0 <= i < j < |queue| ==> |paths[queue[i]]| <= |paths[queue[j]]|)
    && (forall v :: v in paths ==> |paths[v]| <= depth + 1)
  }

  /** Visited nodes outside the queue, other than the one in hand, are finished. */
  ghost predicate OthersFinished<Msg(!new)>(net: Net<Msg>, paths: Paths, queue: seq<nat>, hand: set<nat>)
    requires SingleInputOutput(net)
  {
    forall v :: v in paths && v !in queue && v !in hand ==> Finished(net, paths, v)
  }

  lemma ExplainMore<Msg(!new)>(net: Net<Msg>, s: nat, before: seq<Msg>, buffers: seq<Msg>, paths: Paths, u: nat, t: nat)
    requires SingleInputOutput(net) && WellFormed(net, |before|) && s < |before|
    requires Explained(net, s, before, buffers, paths) && u in paths
    requires t < |net| && net[t].inputs[0] == u && net[t].outputs[0] !in paths
    ensures var v := net[t].outputs[0];
      && u < |buffers| == |before| && v < |buffers|
      && Explained(net, s, before, buffers[v := net[t].cb([buffers[u]], [before[v]])[0]], paths[v := paths[u] + [t]])
  {
    PathSnoc(net, s, paths[u], u, t, before);
    hide IsPath, PathValue;
  }

  lemma OrderMore(paths: Paths, queue: seq<nat>, u: nat, v: nat, t: nat)
    requires u in paths && v !in paths && Ordered(paths, queue, |paths[u]|)
    ensures Ordered(paths[v := paths[u] + [t]], queue + [v], |paths[u]|)
  {
  }

  lemma NearMore(paths: Paths, w: nat, x: nat, v: nat, p: seq<nat>)
    requires x in paths && v !in paths && Near(paths, w, x)
    ensures Near(paths[v := p], w, x)
  {
  }

  /** A new node at the end of the queue, one step from the node in hand. */
  lemma Discover<Msg(!new)>(net: Net<Msg>, s: nat, before: seq<Msg>, buffers: seq<Msg>, buffers': seq<Msg>,
                      paths: Paths, queue: seq<nat>, u: nat, t: nat)
    requires SingleInputOutput(net) && WellFormed(net, |before|) && s < |before|
    requires Explained(net, s, before, buffers, paths) && u in paths
    requires Ordered(paths, queue, |paths[u]|) && OthersFinished(net, paths, queue, {u})
    requires t < |net| && net[t].inputs[0] == u && net[t].outputs[0] !in paths
    requires var v := net[t].outputs[0];
      buffers' == buffers[v := net[t].cb([buffers[u]], [before[v]])[0]]
    ensures var v := net[t].outputs[0]; var paths' := paths[v := paths[u] + [t]];
      && Explained(net, s, before, buffers', paths')
      && Ordered(paths', queue + [v], |paths'[u]|) && OthersFinished(net, paths', queue + [v], {u})
      && Near(paths', v, u)
  {
    hide Explained, Ordered, WellFormed;
    var v := net[t].outputs[0];
    var paths' := paths[v := paths[u] + [t]];
    ExplainMore(net, s, before, buffers, paths, u, t);
    OrderMore(paths, queue, u, v, t);
    forall w | w in paths' && w !in queue + [v] && w !in {u} ensures Finished(net, paths', w) {
      assert Finished(net, paths, w);
      forall t' | 0 <= t' < |net| && net[t'].inputs[0] == w ensures Near(paths', net[t'].outputs[0], w) {
        NearMore(paths, net[t'].outputs[0], w, v, paths[u] + [t]);
      }
    }
  }

  /** The nodes are listed by the lengths of their paths. */
  ghost predicate Outwards(paths: Paths, called: seq<nat>) {
    && (forall i :: 0 <= i < |called| ==> called[i] in paths)
    && forall i, j :: 0 <= i < j < |called| ==> |paths[called[i]]| <= |paths[called[j]]|
  }

  /** Some path to u is no longer than any path to v. */
  ghost predicate NoFarther<Msg(!new)>(net: Net<Msg>, s: nat, u: nat, v: nat)
    requires SingleInputOutput(net)
  {
    exists p :: IsPath(net, s, p, u) && forall q :: IsPath(net, s, q, v) ==> |p| <= |q|
  }

  lemma NoFartherSelf<Msg(!new)>(net: Net<Msg>, s: nat, v: nat, before: seq<Msg>, m: Msg)
    requires SingleInputOutput(net) && WellFormed(net, |before|) && s < |before|
    requires ShortestPathValue(net, s, v, before, m)
    ensures NoFarther(net, s, v, v)
  {
  }

  // ----- the search loop -----

  ghost predicate SameNodes(visited: seq<bool>, paths: Paths) {
    && (forall v :: v in paths ==> v < |visited|)
    && (forall v :: 0 <= v < |visited| ==> (visited[v] <==> v in paths))
  }

  /** The search state between two nodes. */
  ghost predicate BetweenNodes<Msg(!new)>(net: Net<Msg>, s: nat, before: seq<Msg>, buffers: seq<Msg>,
                                          visited: seq<bool>, queue: seq<nat>, paths: Paths)
    requires SingleInputOutput(net) && WellFormed(net, |before|) && s < |before|
  {
    && Explained(net, s, before, buffers, paths) && SameNodes(visited, paths)
    && OthersFinished(net, paths, queue, {})
    && (queue != [] ==> queue[0] in paths && Ordered(paths, queue, |paths[queue[0]]|))
  }

  /** The search state with node u taken from the queue and k of its links followed. */
  ghost predicate InHand<Msg(!new)>(net: Net<Msg>, s: nat, before: seq<Msg>, buffers: seq<Msg>,
                                    visited: seq<bool>, queue: seq<nat>, paths: Paths, u: nat, links: seq<Link>, k: nat)
    requires SingleInputOutput(net) && WellFormed(net, |before|) && s < |before|
  {
    && Explained(net, s, before, buffers, paths) && SameNodes(visited, paths)
    && u in paths && OthersFinished(net, paths, queue, {u}) && Ordered(paths, queue, |paths[u]|)
    && k <= |links|
    && forall j :: 0 <= j < k ==> links[j].translation < |net| && Near(paths, net[links[j].translation].outputs[0], u)
  }

  lemma StartSearch<Msg(!new)>(net: Net<Msg>, s: nat, before: seq<Msg>, visited: seq<bool>)
    requires SingleInputOutput(net) && WellFormed(net, |before|) && s < |before| == |visited|
    requires forall v :: 0 <= v < |visited| ==> (visited[v] <==> v == s)
    ensures BetweenNodes(net, s, before, before, visited, [s], map[s := []])
  {
  }

  lemma TakeNode<Msg(!new)>(net: Net<Msg>, s: nat, before: seq<Msg>, buffers: seq<Msg>, visited: seq<bool>,
                            queue: seq<nat>, paths: Paths, links: seq<Link>)
    requires SingleInputOutput(net) && WellFormed(net, |before|) && s < |before| && queue != []
    requires BetweenNodes(net, s, before, buffers, visited, queue, paths)
    ensures InHand(net, s, before, buffers, visited, queue[1..], paths, queue[0], links, 0)
  {
    var u, rest := queue[0], queue[1..];
    assert queue == [u] + rest;
    forall v | v in paths && v !in rest && v !in {u} ensures Finished(net, paths, v) {
      assert v !in queue;
    }
  }

  /** Following one link: nothing to do, or one new node. */
  lemma FollowedLink<Msg(!new)>(net: Net<Msg>, s: nat, before: seq<Msg>, buffers: seq<Msg>, visited: seq<bool>,
                                queue: seq<nat>, paths: Paths, u: nat, links: seq<Link>, k: nat,
                                buffers': seq<Msg>, visited': seq<bool>, queue': seq<nat>)
    returns (paths': Paths)
    requires SingleInputOutput(net) && WellFormed(net, |before|) && s < |before|
    requires InHand(net, s, before, buffers, visited, queue, paths, u, links, k) && k < |links|
    requires |visited'| == |visited| == |before|
    requires var t := links[k].translation;
      && t < |net| && net[t].inputs[0] == u
      && var v := net[t].outputs[0];
         && (visited[v] ==> buffers' == buffers && visited' == visited && queue' == queue)
         && (!visited[v] ==>
              && buffers' == buffers[v := net[t].cb([buffers[u]], [buffers[v]])[0]] && buffers[v] == before[v]
              && visited' == visited[v := true] && queue' == queue + [v])
    ensures InHand(net, s, before, buffers', visited', queue', paths', u, links, k + 1)
    ensures var t := links[k].translation; var v := net[t].outputs[0];
      paths' == if visited[v] then paths else paths[v := paths[u] + [t]]
  {
    hide Explained, OthersFinished;
    var t := links[k].translation;
    var v := net[t].outputs[0];
    if visited[v] {
      paths' := paths;
      assert Near(paths, v, u);
    } else {
      hide Ordered, Near;
      Discover(net, s, before, buffers, buffers', paths, queue, u, t);
      paths' := paths[v := paths[u] + [t]];
      forall j | 0 <= j < k ensures Near(paths', net[links[j].translation].outputs[0], u) {
        NearMore(paths, net[links[j].translation].outputs[0], u, v, paths[u] + [t]);
      }
    }
  }

  /** A node one step from the node in hand is at least as far out as all listed before. */
  lemma OutwardsStep<Msg(!new)>(net: Net<Msg>, s: nat, before: seq<Msg>, buffers: seq<Msg>, visited: seq<bool>,
                                queue: seq<nat>, paths: Paths, u: nat, links: seq<Link>, k: nat, v: nat, t: nat,
                                paths': Paths, called: seq<nat>, called': seq<nat>)
    requires SingleInputOutput(net) && WellFormed(net, |before|) && s < |before| && v < |visited|
    requires InHand(net, s, before, buffers, visited, queue, paths, u, links, k) && Outwards(paths, called)
    requires paths' == if visited[v] then paths else paths[v := paths[u] + [t]]
    requires called' == if visited[v] then called else called + [v]
    ensures Outwards(paths', called')
  {
    hide Explained, OthersFinished;
  }

  lemma NodeDone<Msg(!new)>(net: Net<Msg>, s: nat, before: seq<Msg>, buffers: seq<Msg>, visited: seq<bool>,
                            queue: seq<nat>, paths: Paths, u: nat, links: seq<Link>)
    requires SingleInputOutput(net) && WellFormed(net, |before|) && s < |before|
    requires InHand(net, s, before, buffers, visited, queue, paths, u, links, |links|)
    requires forall t :: 0 <= t < |net| && net[t].inputs[0] == u ==> Link(t, 0) in links
    ensures BetweenNodes(net, s, before, buffers, visited, queue, paths)
  {
    forall t | 0 <= t < |net| && net[t].inputs[0] == u ensures Near(paths, net[t].outputs[0], u) {
      var j :| 0 <= j < |links| && links[j] == Link(t, 0);
      assert Near(paths, net[links[j].translation].outputs[0], u);
    }
    assert Finished(net, paths, u);
    forall v | v in paths && v !in queue ensures Finished(net, paths, v) {
      assert v == u || v !in {u};
    }
  }

  /** When everything visited is finished, no path leads out, and none is shorter than the recorded one. */
  lemma {:induction false} NoneShorter<Msg(!new)>(net: Net<Msg>, s: nat, paths: Paths, q: seq<nat>, v: nat)
    requires SingleInputOutput(net) && s in paths && paths[s] == []
    requires forall u :: u in paths ==> Finished(net, paths, u)
    requires IsPath(net, s, q, v)
    ensures v in paths && |paths[v]| <= |q|
    decreases |q|
  {
    if q != [] {
      var t := q[|q| - 1];
      var u := net[t].inputs[0];
      NoneShorter(net, s, paths, q[..|q| - 1], u);
      assert Finished(net, paths, u);
      assert Near(paths, net[t].outputs[0], u);
    }
  }

  /** At the end the visited nodes are the reachable ones, with values along shortest paths. */
  lemma SearchResult<Msg(!new)>(net: Net<Msg>, s: nat, before: seq<Msg>, buffers: seq<Msg>, paths: Paths)
    requires SingleInputOutput(net) && WellFormed(net, |before|) && s < |before|
    requires Explained(net, s, before, buffers, paths)
    requires forall u :: u in paths ==> Finished(net, paths, u)
    ensures forall v :: v in paths <==> Reachable(net, s, v)
    ensures forall v :: v in paths ==> v < |buffers| && ShortestPathValue(net, s, v, before, buffers[v])
    ensures forall u, v :: u in paths && v in paths && |paths[u]| <= |paths[v]| ==> NoFarther(net, s, u, v)
  {
    forall u, v | u in paths && v in paths && |paths[u]| <= |paths[v]| ensures NoFarther(net, s, u, v) {
      forall q | IsPath(net, s, q, v) ensures |paths[u]| <= |q| {
        NoneShorter(net, s, paths, q, v);
      }
      assert IsPath(net, s, paths[u], u);
    }
    forall v ensures v in paths <==> Reachable(net, s, v) {
      if v in paths {
        assert IsPath(net, s, paths[v], v);
      }
      if Reachable(net, s, v) {
        var q :| IsPath(net, s, q, v);
        NoneShorter(net, s, paths, q, v);
      }
    }
    forall v | v in paths ensures v < |buffers| && ShortestPathValue(net, s, v, before, buffers[v]) {
      forall q | IsPath(net, s, q, v) ensures |paths[v]| <= |q| {
        NoneShorter(net, s, paths, q, v);
      }
      assert IsPath(net, s, paths[v], v) && buffers[v] == PathValue(net, s, paths[v], v, before);
    }
  }
}
