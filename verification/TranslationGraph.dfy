/** The translation graph: registration, translation with input barriers, and plain traversal. */
module TranslationGraph {
  import opened GraphComponents
  import opened GraphPaths
  import opened Sequences

  datatype MessageIdentifier = MessageIdentifier(topicName: string, version: nat)

  const MAX_NUM_INPUTS := 32

  /** A call of on_translated: the node and its message at that moment. */
  datatype Call<Msg> = Call(node: nat, message: Msg)

  /** What happens to the translation nodes, over all calls. */
  datatype Event = Mark(translation: nat, input: nat) | Fire(translation: nat)

  // ----- the input barrier -----

  /** The inputs of translation t that were marked since it last fired. */
  ghost function MarkedSince(events: seq<Event>, t: nat): set<nat> {
    if events == [] then {}
    else
      var e, rest := events[|events| - 1], events[..|events| - 1];
      if e == Fire(t) then {}
      else if e.Mark? && e.translation == t then MarkedSince(rest, t) + {e.input}
      else MarkedSince(rest, t)
  }

  function Below(n: nat): (s: set<nat>)
    ensures forall i :: i in s <==> 0 <= i < n
    ensures |s| == n
  {
    if n == 0 then {} else Below(n - 1) + {n - 1}
  }

  lemma {:induction false} FullSubset(s: set<nat>, n: nat)
    requires s <= Below(n)
    ensures |s| <= n && (|s| == n ==> s == Below(n))
    decreases n
  {
    if n > 0 {
      FullSubset(s - {n - 1}, n - 1);
      if n - 1 in s {
        assert s == (s - {n - 1}) + {n - 1};
      }
    } else {
      assert s == {};
    }
  }

  /** A translation fires only when each of its inputs was marked since it last fired. */
  ghost predicate FiresReady<Msg(!new)>(net: Net<Msg>, events: seq<Event>) {
    forall k :: 0 <= k < |events| && events[k].Fire? ==> FireReadyAt(net, events, k)
  }

  ghost predicate FireReadyAt<Msg(!new)>(net: Net<Msg>, events: seq<Event>, k: nat)
    requires k < |events| && events[k].Fire?
  {
    var t := events[k].translation;
    t < |net| && MarkedSince(events[..k], t) == Below(|net[t].inputs|)
  }

  ghost function FiredIn(events: seq<Event>): seq<nat> {
    if events == [] then []
    else
      var e, rest := events[|events| - 1], FiredIn(events[..|events| - 1]);
      if e.Fire? then rest + [e.translation] else rest
  }

  ghost function MarkedAfter(events: seq<Event>, e: Event, t: nat): set<nat> {
    if e == Fire(t) then {}
    else if e.Mark? && e.translation == t then MarkedSince(events, t) + {e.input}
    else MarkedSince(events, t)
  }

  lemma EventSnoc<Msg(!new)>(net: Net<Msg>, events: seq<Event>, e: Event)
    requires FiresReady(net, events)
    requires e.Fire? ==>
      e.translation < |net| && MarkedSince(events, e.translation) == Below(|net[e.translation].inputs|)
    ensures FiresReady(net, events + [e])
    ensures FiredIn(events + [e]) == if e.Fire? then FiredIn(events) + [e.translation] else FiredIn(events)
    ensures forall t :: MarkedSince(events + [e], t) == MarkedAfter(events, e, t)
  {
    var all := events + [e];
    assert all[..|events|] == events;
    forall k | 0 <= k < |all| && all[k].Fire? ensures FireReadyAt(net, all, k) {
      if k < |events| {
        assert FireReadyAt(net, events, k);
        assert all[..k] == events[..k];
      }
    }
  }

  /** The ready bits are the inputs marked since the last firing, and not all of them. */
  ghost predicate Barrier<Msg(!new)>(net: Net<Msg>, events: seq<Event>, ready: seq<set<nat>>, t: nat)
    requires t < |net| == |ready|
  {
    && ready[t] == MarkedSince(events, t)
    && ready[t] <= Below(|net[t].inputs|)
    && |net[t].inputs| <= MAX_NUM_INPUTS
    && (net[t].inputs != [] ==> |ready[t]| < |net[t].inputs|)
  }

  lemma BarrierElsewhere<Msg(!new)>(net: Net<Msg>, events: seq<Event>, ready: seq<set<nat>>, e: Event,
                                    events': seq<Event>, ready': seq<set<nat>>)
    requires |net| == |ready| == |ready'| && FiresReady(net, events) && events' == events + [e]
    requires e.translation < |net| && forall t :: 0 <= t < |net| && t != e.translation ==> ready'[t] == ready[t]
    requires e.Fire? ==> MarkedSince(events, e.translation) == Below(|net[e.translation].inputs|)
    requires forall t :: 0 <= t < |net| && t != e.translation ==> Barrier(net, events, ready, t)
    ensures forall t :: 0 <= t < |net| && t != e.translation ==> Barrier(net, events', ready', t)
  {
    EventSnoc(net, events, e);
    forall t | 0 <= t < |net| && t != e.translation ensures Barrier(net, events', ready', t) {
      assert Barrier(net, events, ready, t);
      assert MarkedSince(events', t) == MarkedAfter(events, e, t);
    }
  }

  /** Firing a translation with all bits set clears them. */
  lemma FireKeeps<Msg(!new)>(net: Net<Msg>, events: seq<Event>, ready: seq<set<nat>>, t: nat)
    requires t < |net| == |ready| && FiresReady(net, events) && |net[t].inputs| <= MAX_NUM_INPUTS
    requires forall u :: 0 <= u < |net| && u != t ==> Barrier(net, events, ready, u)
    requires MarkedSince(events, t) == Below(|net[t].inputs|)
    ensures var events', ready' := events + [Fire(t)], ready[t := {}];
      && FiresReady(net, events') && FiredIn(events') == FiredIn(events) + [t]
      && forall u :: 0 <= u < |net| ==> Barrier(net, events', ready', u)
  {
    EventSnoc(net, events, Fire(t));
    BarrierElsewhere(net, events, ready, Fire(t), events + [Fire(t)], ready[t := {}]);
    assert MarkedSince(events + [Fire(t)], t) == MarkedAfter(events, Fire(t), t);
    hide FiresReady;
  }

  // ----- one search -----

  /** Write the callback's results to the output buffers, in order. */
  function Write<Msg>(buffers: seq<Msg>, outputs: seq<nat>, values: seq<Msg>): (r: seq<Msg>)
    requires |outputs| == |values| && forall i :: 0 <= i < |outputs| ==> outputs[i] < |buffers|
    ensures |r| == |buffers| && forall v :: 0 <= v < |buffers| && v !in outputs ==> r[v] == buffers[v]
    decreases |outputs|
  {
    if outputs == [] then buffers
    else Write(buffers[outputs[0] := values[0]], outputs[1..], values[1..])
  }

  function Gather<Msg>(buffers: seq<Msg>, nodes: seq<nat>): (r: seq<Msg>)
    requires forall i :: 0 <= i < |nodes| ==> nodes[i] < |buffers|
    ensures |r| == |nodes| && forall i :: 0 <= i < |nodes| ==> r[i] == buffers[nodes[i]]
  {
    seq(|nodes|, i requires 0 <= i < |nodes| => buffers[nodes[i]])
  }

  ghost function CallNodes<Msg>(calls: seq<Call<Msg>>): (ns: seq<nat>)
    ensures |ns| == |calls| && forall i :: 0 <= i < |calls| ==> ns[i] == calls[i].node
  {
    seq(|calls|, i requires 0 <= i < |calls| => calls[i].node)
  }

  /**
   * The called nodes are visited, their messages are those of the call, and all other buffers are
   * the old ones; nodes in pending have been written but not visited yet.
   */
  ghost predicate Consistent<Msg(!new)>(source: nat, before: seq<Msg>, buffers: seq<Msg>, visited: seq<bool>,
                                        calls: seq<Call<Msg>>, queue: seq<nat>, pending: seq<nat>)
  {
    && |buffers| == |before| == |visited| && source < |visited| && source !in pending
    && (forall v :: 0 <= v < |visited| ==> (visited[v] <==> v == source || v in CallNodes(calls)))
    && Distinct(CallNodes(calls)) && source !in CallNodes(calls)
    && (forall k :: 0 <= k < |calls| ==> calls[k].node < |buffers| && buffers[calls[k].node] == calls[k].message)
    && (forall v :: 0 <= v < |buffers| && v !in CallNodes(calls) && v !in pending ==> buffers[v] == before[v])
    && (forall k :: 0 <= k < |queue| ==> queue[k] < |visited| && visited[queue[k]])
  }

  lemma WriteConsistent<Msg(!new)>(source: nat, before: seq<Msg>, buffers: seq<Msg>, visited: seq<bool>,
                                   calls: seq<Call<Msg>>, queue: seq<nat>, outputs: seq<nat>, values: seq<Msg>)
    requires Consistent(source, before, buffers, visited, calls, queue, [])
    requires |values| == |outputs| && forall i :: 0 <= i < |outputs| ==> outputs[i] < |buffers| && !visited[outputs[i]]
    ensures Consistent(source, before, Write(buffers, outputs, values), visited, calls, queue, outputs)
  {
  }

  lemma VisitConsistent<Msg(!new)>(source: nat, before: seq<Msg>, buffers: seq<Msg>, visited: seq<bool>,
                                   calls: seq<Call<Msg>>, queue: seq<nat>, pending: seq<nat>)
    requires pending != [] && pending[0] < |visited|
    requires Consistent(source, before, buffers, visited, calls, queue, pending)
    ensures var v := pending[0];
      if visited[v] then Consistent(source, before, buffers, visited, calls, queue, pending[1..])
      else
        Consistent(source, before, buffers, visited[v := true], calls + [Call(v, buffers[v])], queue + [v],
                   pending[1..])
  {
    var v := pending[0];
    assert pending == [v] + pending[1..];
    if !visited[v] {
      assert CallNodes(calls + [Call(v, buffers[v])]) == CallNodes(calls) + [v];
    }
  }

  /** The outputs not visited before, in order and once each. */
  ghost function Fresh(outputs: seq<nat>, visited: seq<bool>): (ns: seq<nat>)
    requires forall i :: 0 <= i < |outputs| ==> outputs[i] < |visited|
    ensures forall v :: v in ns ==> v in outputs
    ensures forall v :: v in outputs && !visited[v] ==> v in ns
    decreases |outputs|
  {
    if outputs == [] then []
    else if visited[outputs[0]] then Fresh(outputs[1..], visited)
    else [outputs[0]] + Fresh(outputs[1..], visited[outputs[0] := true])
  }

  // ----- the values written -----

  /** Running the callback of translation t on the current buffers. */
  function Fired<Msg(!new)>(net: Net<Msg>, buffers: seq<Msg>, t: nat): (r: seq<Msg>)
    requires t < |net|
    requires forall i :: 0 <= i < |net[t].inputs| ==> net[t].inputs[i] < |buffers|
    requires forall i :: 0 <= i < |net[t].outputs| ==> net[t].outputs[i] < |buffers|
    requires forall ins, outs :: |net[t].cb(ins, outs)| == |outs|
    ensures |r| == |buffers|
  {
    Write(buffers, net[t].outputs, net[t].cb(Gather(buffers, net[t].inputs), Gather(buffers, net[t].outputs)))
  }

  /** The buffers after running these translations, in order. */
  ghost function Replay<Msg(!new)>(net: Net<Msg>, buffers: seq<Msg>, fired: seq<nat>): (r: seq<Msg>)
    requires WellFormed(net, |buffers|)
    ensures |r| == |buffers|
  {
    if fired == [] then buffers
    else
      var n := |fired| - 1;
      var r := Replay(net, buffers, fired[..n]);
      if fired[n] < |net| then Fired(net, r, fired[n]) else r
  }

  lemma ReplayMore<Msg(!new)>(net: Net<Msg>, buffers: seq<Msg>, fired: seq<nat>, t: nat)
    requires WellFormed(net, |buffers|) && t < |net|
    ensures Replay(net, buffers, []) == buffers
    ensures Replay(net, buffers, fired + [t]) == Fired(net, Replay(net, buffers, fired), t)
  {
    assert (fired + [t])[..|fired|] == fired;
  }

  lemma FiredConsistent<Msg(!new)>(net: Net<Msg>, t: nat, source: nat, before: seq<Msg>, buffers: seq<Msg>,
                                   visited: seq<bool>, calls: seq<Call<Msg>>, queue: seq<nat>)
    requires WellFormed(net, |buffers|) && t < |net| && |visited| == |buffers|
    requires Consistent(source, before, buffers, visited, calls, queue, [])
    requires forall i :: 0 <= i < |net[t].outputs| ==> !visited[net[t].outputs[i]]
    ensures Consistent(source, before, Fired(net, buffers, t), visited, calls, queue, net[t].outputs)
  {
    hide Consistent;
    WriteConsistent(source, before, buffers, visited, calls, queue, net[t].outputs,
                    net[t].cb(Gather(buffers, net[t].inputs), Gather(buffers, net[t].outputs)));
  }

  /** No node is written by two firings. */
  ghost predicate Apart<Msg(!new)>(net: Net<Msg>, fired: seq<nat>) {
    forall a, b, v :: 0 <= a < b < |fired| && fired[a] < |net| && fired[b] < |net| && v in net[fired[a]].outputs
      ==> v !in net[fired[b]].outputs
  }

  ghost predicate WrittenBy<Msg(!new)>(net: Net<Msg>, fired: seq<nat>, v: nat) {
    exists a :: 0 <= a < |fired| && fired[a] < |net| && v in net[fired[a]].outputs
  }

  /** A node that none of the firings writes keeps its buffer. */
  lemma {:induction false} Unwritten<Msg(!new)>(net: Net<Msg>, buffers: seq<Msg>, fired: seq<nat>, v: nat)
    requires WellFormed(net, |buffers|) && v < |buffers|
    requires forall a :: 0 <= a < |fired| && fired[a] < |net| ==> v !in net[fired[a]].outputs
    ensures Replay(net, buffers, fired)[v] == buffers[v]
    decreases |fired|
  {
    if fired != [] {
      Unwritten(net, buffers, fired[..|fired| - 1], v);
    }
  }

  /**
   * What a firing leaves in its outputs stays: the results of its callback for the input buffers as
   * they were when it fired, and for the output buffers as they were before the search.
   */
  lemma {:induction false} FiringStays<Msg(!new)>(net: Net<Msg>, before: seq<Msg>, fired: seq<nat>, a: nat, i: nat)
    requires WellFormed(net, |before|) && Apart(net, fired) && a < |fired| && fired[a] < |net|
    requires i < |net[fired[a]].outputs| && Distinct(net[fired[a]].outputs)
    ensures var t := net[fired[a]];
      Replay(net, before, fired)[t.outputs[i]]
        == t.cb(Gather(Replay(net, before, fired[..a]), t.inputs), Gather(before, t.outputs))[i]
    decreases |fired|
  {
    if a == |fired| - 1 {
      LastFiring(net, before, fired, i);
    } else {
      hide Replay, WellFormed;
      var rest := fired[..|fired| - 1];
      assert rest[..a] == fired[..a];
      FiringStays(net, before, rest, a, i);
      LastElsewhere(net, before, fired, net[fired[a]].outputs[i]);
    }
  }

  lemma LastFiring<Msg(!new)>(net: Net<Msg>, before: seq<Msg>, fired: seq<nat>, i: nat)
    requires WellFormed(net, |before|) && Apart(net, fired) && fired != [] && fired[|fired| - 1] < |net|
    requires i < |net[fired[|fired| - 1]].outputs| && Distinct(net[fired[|fired| - 1]].outputs)
    ensures var t, rest := net[fired[|fired| - 1]], fired[..|fired| - 1];
      Replay(net, before, fired)[t.outputs[i]]
        == t.cb(Gather(Replay(net, before, rest), t.inputs), Gather(before, t.outputs))[i]
  {
    var t, rest := net[fired[|fired| - 1]], fired[..|fired| - 1];
    var r := Replay(net, before, rest);
    assert rest + [fired[|fired| - 1]] == fired;
    ReplayMore(net, before, rest, fired[|fired| - 1]);
    hide Replay;
    forall k | 0 <= k < |t.outputs| ensures r[t.outputs[k]] == before[t.outputs[k]] {
      Unwritten(net, before, rest, t.outputs[k]);
    }
    assert Gather(r, t.outputs) == Gather(before, t.outputs);
    WriteAt(r, t.outputs, t.cb(Gather(r, t.inputs), Gather(r, t.outputs)), i);
  }

  lemma LastElsewhere<Msg(!new)>(net: Net<Msg>, before: seq<Msg>, fired: seq<nat>, v: nat)
    requires WellFormed(net, |before|) && fired != [] && v < |before|
    requires fired[|fired| - 1] < |net| ==> v !in net[fired[|fired| - 1]].outputs
    ensures Replay(net, before, fired)[v] == Replay(net, before, fired[..|fired| - 1])[v]
  {
  }

  lemma {:induction false} WriteAt<Msg>(buffers: seq<Msg>, outputs: seq<nat>, values: seq<Msg>, i: nat)
    requires |outputs| == |values| && (forall k :: 0 <= k < |outputs| ==> outputs[k] < |buffers|)
    requires Distinct(outputs) && i < |outputs|
    ensures Write(buffers, outputs, values)[outputs[i]] == values[i]
    decreases |outputs|
  {
    if i > 0 {
      WriteAt(buffers[outputs[0] := values[0]], outputs[1..], values[1..], i - 1);
    } else {
      assert outputs[0] !in outputs[1..];
    }
  }

  /** The outputs of the fired translations are the called nodes, none of them written by two firings. */
  ghost predicate FiredApart<Msg(!new)>(net: Net<Msg>, fired: seq<nat>, called: seq<nat>) {
    && (forall a :: 0 <= a < |fired| ==> fired[a] < |net| && forall v :: v in net[fired[a]].outputs ==> v in called)
    && (forall v :: v in called ==> WrittenBy(net, fired, v))
    && Apart(net, fired)
  }

  ghost function Unvisited(visited: seq<bool>): nat {
    if visited == [] then 0 else Unvisited(visited[..|visited| - 1]) + (if visited[|visited| - 1] then 0 else 1)
  }

  lemma {:induction false} VisitOne(visited: seq<bool>, v: nat)
    requires v < |visited| && !visited[v]
    ensures Unvisited(visited[v := true]) < Unvisited(visited)
  {
    var n := |visited| - 1;
    if v == n {
      assert visited[v := true][..n] == visited[..n];
    } else {
      VisitOne(visited[..n], v);
      assert visited[v := true][..n] == visited[..n][v := true];
    }
  }

  lemma FreshStep(outputs: seq<nat>, visited: seq<bool>)
    requires outputs != [] && forall i :: 0 <= i < |outputs| ==> outputs[i] < |visited|
    ensures if visited[outputs[0]] then Fresh(outputs, visited) == Fresh(outputs[1..], visited)
      else Fresh(outputs, visited) == [outputs[0]] + Fresh(outputs[1..], visited[outputs[0] := true])
  {
  }

  lemma FreshNone(visited: seq<bool>)
    ensures Fresh([], visited) == []
  {
  }

  lemma CallNodesSnoc<Msg>(calls: seq<Call<Msg>>, c: Call<Msg>)
    ensures CallNodes(calls + [c]) == CallNodes(calls) + [c.node]
  {
  }

  lemma SameLength<Msg(!new)>(source: nat, before: seq<Msg>, buffers: seq<Msg>, visited: seq<bool>,
                              calls: seq<Call<Msg>>, queue: seq<nat>, pending: seq<nat>)
    requires Consistent(source, before, buffers, visited, calls, queue, pending)
    ensures |buffers| == |visited|
  {
  }

  lemma QueueNodes<Msg(!new)>(source: nat, before: seq<Msg>, buffers: seq<Msg>, visited: seq<bool>,
                              calls: seq<Call<Msg>>, queue: seq<nat>)
    requires Consistent(source, before, buffers, visited, calls, queue, []) && queue != []
    ensures queue[0] < |buffers|
    ensures Consistent(source, before, buffers, visited, calls, queue[1..], [])
  {
  }

  lemma UnvisitedOutputs<Msg(!new)>(source: nat, before: seq<Msg>, buffers: seq<Msg>, visited: seq<bool>,
                                    calls: seq<Call<Msg>>, queue: seq<nat>, outputs: seq<nat>)
    requires Consistent(source, before, buffers, visited, calls, queue, [])
    requires forall i :: 0 <= i < |outputs| ==> outputs[i] < |visited| && !visited[outputs[i]]
    ensures forall v :: v in outputs <==> v in Fresh(outputs, visited)
    ensures forall v :: v in Fresh(outputs, visited) ==> v !in CallNodes(calls)
  {
  }

  lemma StartConsistent<Msg(!new)>(source: nat, before: seq<Msg>, visited: seq<bool>, net: Net<Msg>)
    requires |visited| == |before| && source < |before|
    requires forall v :: 0 <= v < |visited| ==> (visited[v] <==> v == source)
    ensures Consistent(source, before, before, visited, [], [source], [])
    ensures FiredApart(net, [], CallNodes<Msg>([]))
  {
  }

  /** Nothing changes, or the translation fires and all its outputs, not visited before, are called and queued. */
  ghost predicate LinkOutcome<Msg(!new)>(net: Net<Msg>, t: nat, done: bool, buffers: seq<Msg>, buffers': seq<Msg>,
                                         visited: seq<bool>, visited': seq<bool>, calls: seq<Call<Msg>>,
                                         calls': seq<Call<Msg>>, queue: seq<nat>, queue': seq<nat>)
    requires WellFormed(net, |buffers|) && t < |net| && |visited| == |buffers|
  {
    var outputs := net[t].outputs;
    if done then
      && (forall i :: 0 <= i < |outputs| ==> !visited[outputs[i]])
      && buffers' == Fired(net, buffers, t)
      && queue' == queue + Fresh(outputs, visited) && CallNodes(calls') == CallNodes(calls) + Fresh(outputs, visited)
    else buffers' == buffers && visited' == visited && calls' == calls && queue' == queue
  }

  /** With one output, following a link either does nothing or visits that output. */
  lemma SingleLink<Msg(!new)>(net: Net<Msg>, e: Link, u: nat, source: nat, before: seq<Msg>, done: bool,
                              buffers: seq<Msg>, buffers': seq<Msg>, visited: seq<bool>, visited': seq<bool>,
                              calls: seq<Call<Msg>>, calls': seq<Call<Msg>>, queue: seq<nat>, queue': seq<nat>)
    requires SingleInputOutput(net) && WellFormed(net, |before|) && e.translation < |net| && e.input < 1
    requires net[e.translation].inputs[e.input] == u
    requires Consistent(source, before, buffers, visited, calls, queue, [])
    requires Consistent(source, before, buffers', visited', calls', queue', [])
    requires |buffers| == |before| == |visited|
    requires LinkOutcome(net, e.translation, done, buffers, buffers', visited, visited', calls, calls', queue, queue')
    requires !done ==> visited[net[e.translation].outputs[0]]
    ensures var t := net[e.translation]; var v := t.outputs[0];
      && (visited[v] ==> buffers' == buffers && visited' == visited && queue' == queue)
      && (!visited[v] ==>
           && buffers' == buffers[v := t.cb([buffers[u]], [buffers[v]])[0]] && buffers[v] == before[v]
           && visited' == visited[v := true] && queue' == queue + [v])
      && CallNodes(calls') == if visited[v] then CallNodes(calls) else CallNodes(calls) + [v]
  {
    var t := net[e.translation];
    var v := t.outputs[0];
    if done {
      assert t.outputs == [v] && t.inputs == [u];
      assert Gather(buffers, t.inputs) == [buffers[u]] && Gather(buffers, t.outputs) == [buffers[v]];
      SingleWrite(buffers, v, t.cb([buffers[u]], [buffers[v]]));
      assert Fresh([v], visited) == [v] + Fresh([], visited[v := true]);
      assert visited' == visited[v := true];
    }
  }

  lemma SingleWrite<Msg>(buffers: seq<Msg>, v: nat, values: seq<Msg>)
    requires v < |buffers| && |values| == 1
    ensures Write(buffers, [v], values) == buffers[v := values[0]]
  {
    assert Write(buffers[v := values[0]], [], []) == buffers[v := values[0]];
  }

  lemma CallsInOrder<Msg(!new)>(net: Net<Msg>, s: nat, calls: seq<Call<Msg>>, paths: Paths)
    requires SingleInputOutput(net) && Outwards(paths, CallNodes(calls))
    requires forall u, v :: u in paths && v in paths && |paths[u]| <= |paths[v]| ==> NoFarther(net, s, u, v)
    ensures forall j, k :: 0 <= j < k < |calls| ==> NoFarther(net, s, calls[j].node, calls[k].node)
  {
    hide NoFarther;
    forall j, k | 0 <= j < k < |calls| ensures NoFarther(net, s, calls[j].node, calls[k].node) {
      assert CallNodes(calls)[j] == calls[j].node && CallNodes(calls)[k] == calls[k].node;
    }
  }

  lemma EndSearch<Msg(!new)>(net: Net<Msg>, s: nat, before: seq<Msg>, buffers: seq<Msg>, visited: seq<bool>,
                             calls: seq<Call<Msg>>, paths: Paths)
    requires SingleInputOutput(net) && WellFormed(net, |before|) && s < |before|
    requires Consistent(s, before, buffers, visited, calls, [], [])
    requires BetweenNodes(net, s, before, buffers, visited, [], paths)
    requires Outwards(paths, CallNodes(calls))
    ensures forall v :: v in CallNodes(calls) <==> v != s && Reachable(net, s, v)
    ensures forall k :: 0 <= k < |calls| ==> ShortestPathValue(net, s, calls[k].node, before, calls[k].message)
    ensures forall j, k :: 0 <= j < k < |calls| ==> NoFarther(net, s, calls[j].node, calls[k].node)
  {
    forall u | u in paths ensures Finished(net, paths, u) {
      assert u !in [] && u !in {};
    }
    SearchResult(net, s, before, buffers, paths);
    hide Reachable, ShortestPathValue, NoFarther, Explained, OthersFinished;
    CallsInOrder(net, s, calls, paths);
    hide Outwards;
    forall v ensures v in CallNodes(calls) <==> v != s && v in paths {
      if v in CallNodes(calls) {
        var k :| 0 <= k < |calls| && CallNodes(calls)[k] == v;
        assert calls[k].node == v;
        assert visited[v];
      }
    }
    forall k | 0 <= k < |calls| ensures ShortestPathValue(net, s, calls[k].node, before, calls[k].message) {
      assert CallNodes(calls)[k] in CallNodes(calls);
    }
  }

  lemma FiredOne<Msg(!new)>(net: Net<Msg>, fired: seq<nat>, called: seq<nat>, t: nat, found: seq<nat>)
    requires FiredApart(net, fired, called) && t < |net|
    requires forall v :: v in net[t].outputs <==> v in found
    requires forall v :: v in found ==> v !in called
    ensures FiredApart(net, fired + [t], called + found)
  {
    var fired', called' := fired + [t], called + found;
    forall v | v in called' ensures exists a :: 0 <= a < |fired'| && fired'[a] < |net| && v in net[fired'[a]].outputs {
      if v in called {
        var a :| 0 <= a < |fired| && fired[a] < |net| && v in net[fired[a]].outputs;
        assert fired'[a] == fired[a];
      } else {
        assert fired'[|fired|] == t;
      }
    }
  }

  // ----- every link is followed -----

  /** The link was not skipped without cause: an output is visited, or its input was marked. */
  ghost predicate Followed<Msg(!new)>(net: Net<Msg>, e: Link, visited: seq<bool>, news: seq<Event>) {
    && e.translation < |net|
    && (|| (exists o :: o in net[e.translation].outputs && o < |visited| && visited[o])
        || Mark(e.translation, e.input) in news)
  }

  ghost predicate FollowedUpTo<Msg(!new)>(net: Net<Msg>, links: seq<Link>, k: nat, visited: seq<bool>, news: seq<Event>)
  {
    k <= |links| && forall j :: 0 <= j < k ==> Followed(net, links[j], visited, news)
  }

  /** All links of the visited nodes that are neither waiting nor in hand were followed. */
  ghost predicate AllFollowed<Msg(!new)>(net: Net<Msg>, links: seq<seq<Link>>, visited: seq<bool>, queue: seq<nat>,
                                         hand: set<nat>, news: seq<Event>)
  {
    forall v :: 0 <= v < |links| && v < |visited| && visited[v] && v !in queue && v !in hand ==>
      FollowedUpTo(net, links[v], |links[v]|, visited, news)
  }

  /** Visiting goes on, and newly visited nodes wait in the queue. */
  ghost predicate VisitedMore(visited: seq<bool>, queue: seq<nat>, visited': seq<bool>, queue': seq<nat>) {
    && |visited'| == |visited| && queue <= queue'
    && (forall v :: 0 <= v < |visited| && visited[v] ==> visited'[v])
    && (forall v :: 0 <= v < |visited| && visited'[v] && !visited[v] ==> v in queue')
  }

  lemma VisitedSame(visited: seq<bool>, queue: seq<nat>)
    ensures VisitedMore(visited, queue, visited, queue)
  {
  }

  lemma VisitedFresh<Msg(!new)>(source: nat, before: seq<Msg>, buffers: seq<Msg>, buffers': seq<Msg>,
                                visited: seq<bool>,
                                visited': seq<bool>, calls: seq<Call<Msg>>, calls': seq<Call<Msg>>, queue: seq<nat>,
                                queue': seq<nat>, found: seq<nat>)
    requires Consistent(source, before, buffers, visited, calls, queue, [])
    requires Consistent(source, before, buffers', visited', calls', queue', [])
    requires CallNodes(calls') == CallNodes(calls) + found && queue' == queue + found
    ensures VisitedMore(visited, queue, visited', queue')
  {
  }

  lemma FollowedStays<Msg(!new)>(net: Net<Msg>, links: seq<Link>, k: nat, visited: seq<bool>, queue: seq<nat>,
                                 news: seq<Event>, visited': seq<bool>, queue': seq<nat>, news': seq<Event>)
    requires FollowedUpTo(net, links, k, visited, news) && VisitedMore(visited, queue, visited', queue')
    requires news <= news'
    ensures FollowedUpTo(net, links, k, visited', news')
  {
    forall j | 0 <= j < k ensures Followed(net, links[j], visited', news') {
      assert Followed(net, links[j], visited, news);
    }
  }

  lemma AllFollowedStays<Msg(!new)>(net: Net<Msg>, links: seq<seq<Link>>, visited: seq<bool>, queue: seq<nat>, u: nat,
                                    news: seq<Event>, visited': seq<bool>, queue': seq<nat>, news': seq<Event>)
    requires AllFollowed(net, links, visited, queue, {u}, news) && VisitedMore(visited, queue, visited', queue')
    requires news <= news'
    ensures AllFollowed(net, links, visited', queue', {u}, news')
  {
    forall v | 0 <= v < |links| && v < |visited'| && visited'[v] && v !in queue' && v !in {u}
      ensures FollowedUpTo(net, links[v], |links[v]|, visited', news')
    {
      assert visited[v] && v !in queue;
      FollowedStays(net, links[v], |links[v]|, visited, queue, news, visited', queue', news');
    }
  }

  lemma AllFollowedTake<Msg(!new)>(net: Net<Msg>, links: seq<seq<Link>>, visited: seq<bool>, queue: seq<nat>,
                                   news: seq<Event>)
    requires AllFollowed(net, links, visited, queue, {}, news) && queue != []
    ensures AllFollowed(net, links, visited, queue[1..], {queue[0]}, news)
  {
    assert queue == [queue[0]] + queue[1..];
  }

  lemma AllFollowedDone<Msg(!new)>(net: Net<Msg>, links: seq<seq<Link>>, visited: seq<bool>, queue: seq<nat>, u: nat,
                                   news: seq<Event>)
    requires AllFollowed(net, links, visited, queue, {u}, news) && u < |links|
    requires FollowedUpTo(net, links[u], |links[u]|, visited, news)
    ensures AllFollowed(net, links, visited, queue, {}, news)
  {
  }

  lemma NoCalls<Msg>()
    ensures CallNodes<Msg>([]) == []
  {
  }

  lemma NoneFollowed<Msg(!new)>(net: Net<Msg>, links: seq<Link>, visited: seq<bool>, news: seq<Event>)
    ensures FollowedUpTo(net, links, 0, visited, news)
  {
  }

  lemma StartFollowed<Msg(!new)>(net: Net<Msg>, links: seq<seq<Link>>, visited: seq<bool>, node: nat, news: seq<Event>)
    requires forall v :: 0 <= v < |visited| ==> (visited[v] <==> v == node)
    ensures AllFollowed(net, links, visited, [node], {}, news)
  {
  }

  /** One more link of the node in hand. */
  lemma LinkFollowed<Msg(!new)>(net: Net<Msg>, links: seq<seq<Link>>, u: nat, k: nat, visited: seq<bool>,
                                queue: seq<nat>, visited': seq<bool>, queue': seq<nat>, start: seq<Event>,
                                events: seq<Event>, events': seq<Event>)
    requires start <= events <= events' && u < |links| && k < |links[u]|
    requires AllFollowed(net, links, visited, queue, {u}, events[|start|..])
    requires FollowedUpTo(net, links[u], k, visited, events[|start|..])
    requires VisitedMore(visited, queue, visited', queue')
    requires Followed(net, links[u][k], visited', events'[|events|..])
    ensures start <= events' && AllFollowed(net, links, visited', queue', {u}, events'[|start|..])
    ensures FollowedUpTo(net, links[u], k + 1, visited', events'[|start|..])
  {
    var news, news' := events[|start|..], events'[|start|..];
    assert news' == news + events'[|events|..];
    AllFollowedStays(net, links, visited, queue, u, news, visited', queue', news');
    FollowedStays(net, links[u], k, visited, queue, news, visited', queue', news');
    assert Followed(net, links[u][k], visited', news');
  }

  /** At the end every input that is a visited node was marked, unless an output is visited. */
  ghost predicate AllInputsFollowed<Msg(!new)>(net: Net<Msg>, visited: seq<bool>, news: seq<Event>) {
    forall t, i ::
      && 0 <= t < |net| && 0 <= i < |net[t].inputs|
      && net[t].inputs[i] < |visited| && visited[net[t].inputs[i]] ==>
      Followed(net, Link(t, i), visited, news)
  }

  lemma NothingWaits<Msg(!new)>(net: Net<Msg>, links: seq<seq<Link>>, visited: seq<bool>, news: seq<Event>)
    requires Linked(net, links) && AllFollowed(net, links, visited, [], {}, news) && |visited| == |links|
    ensures AllInputsFollowed(net, visited, news)
  {
    forall t, i |
      && 0 <= t < |net| && 0 <= i < |net[t].inputs|
      && net[t].inputs[i] < |visited| && visited[net[t].inputs[i]]
      ensures Followed(net, Link(t, i), visited, news)
    {
      var v := net[t].inputs[i];
      assert Link(t, i) in links[v];
      var j :| 0 <= j < |links[v]| && links[v][j] == Link(t, i);
      assert v !in [] && v !in {};
      assert FollowedUpTo(net, links[v], |links[v]|, visited, news);
      assert Followed(net, links[v][j], visited, news);
    }
  }

  /** What following a link adds to the history: nothing, or the mark, and the firing that completes the inputs. */
  ghost predicate LinkEvents<Msg(!new)>(net: Net<Msg>, events: seq<Event>, events': seq<Event>, e: Link, done: bool)
    requires e.translation < |net|
  {
    var marked := events + [Mark(e.translation, e.input)];
    && (done <==> MarkedSince(marked, e.translation) == Below(|net[e.translation].inputs|))
    && events' == if done then marked + [Fire(e.translation)] else marked
  }

  // ----- plain traversal -----

  ghost predicate SameOrder(visited: seq<bool>, order: seq<nat>) {
    && (forall v :: v in order ==> v < |visited|)
    && (forall v :: 0 <= v < |visited| ==> (visited[v] <==> v in order))
  }

  ghost predicate OutputsIn<Msg(!new)>(net: Net<Msg>, e: Link, order: seq<nat>) {
    e.translation < |net| && forall v :: v in net[e.translation].outputs ==> v in order
  }

  lemma OutputsStay<Msg(!new)>(net: Net<Msg>, links: seq<Link>, k: nat, order: seq<nat>, order': seq<nat>)
    requires k < |links| && links[k].translation < |net|
    requires forall j :: 0 <= j < k ==> OutputsIn(net, links[j], order)
    requires forall v :: v in order' <==> v in order || v in net[links[k].translation].outputs
    ensures forall j :: 0 <= j < k + 1 ==> OutputsIn(net, links[j], order')
  {
    forall j | 0 <= j < k + 1 ensures OutputsIn(net, links[j], order') {
      if j < k {
        assert OutputsIn(net, links[j], order);
      }
    }
  }

  lemma TraversedStart<Msg(!new)>(net: Net<Msg>, s: nat)
    ensures Traversed(net, s, [s], [s], {})
  {
    ConnectedSelf(net, s);
  }

  lemma TraversedTake<Msg(!new)>(net: Net<Msg>, s: nat, order: seq<nat>, queue: seq<nat>)
    requires queue != [] && Traversed(net, s, order, queue, {})
    ensures queue[0] in order && Traversed(net, s, order, queue[1..], {queue[0]})
  {
    assert queue == [queue[0]] + queue[1..];
    forall v | v in order && v !in queue[1..] && v !in {queue[0]} ensures AllHopsIn(net, v, order) {
      assert v !in queue;
    }
  }

  lemma TraversedDone<Msg(!new)>(net: Net<Msg>, s: nat, order: seq<nat>, queue: seq<nat>, u: nat, links: seq<Link>)
    requires Traversed(net, s, order, queue, {u})
    requires forall j :: 0 <= j < |links| ==> OutputsIn(net, links[j], order)
    requires forall t, i :: 0 <= t < |net| && 0 <= i < |net[t].inputs| && net[t].inputs[i] == u ==> Link(t, i) in links
    ensures Traversed(net, s, order, queue, {})
  {
    forall t, v | 0 <= t < |net| && u in net[t].inputs && v in net[t].outputs ensures v in order {
      var i :| 0 <= i < |net[t].inputs| && net[t].inputs[i] == u;
      var j :| 0 <= j < |links| && links[j] == Link(t, i);
      assert OutputsIn(net, links[j], order);
    }
    assert AllHopsIn(net, u, order);
    forall v | v in order && v !in queue ensures AllHopsIn(net, v, order) {
      assert v == u || v !in {u};
    }
  }

  // ----- adding nodes and translations -----

  ghost predicate Known(events: seq<Event>, n: nat) {
    forall k :: 0 <= k < |events| ==> events[k].translation < n
  }

  /** The nodes have the indexes below n, one each. */
  ghost predicate Numbered(nodes: map<MessageIdentifier, nat>, n: nat) {
    && |nodes| == n
    && (forall id :: id in nodes ==> nodes[id] < n)
    && (forall a, b :: a in nodes && b in nodes && nodes[a] == nodes[b] ==> a == b)
  }

  lemma Renumbered(nodes: map<MessageIdentifier, nat>, n: nat, id: MessageIdentifier)
    requires Numbered(nodes, n)
    ensures id !in nodes ==> Numbered(nodes[id := n], n + 1)
  {
  }

  function Indexes(nodes: map<MessageIdentifier, nat>, ids: seq<MessageIdentifier>): (r: seq<nat>)
    requires forall i :: 0 <= i < |ids| ==> ids[i] in nodes
    ensures |r| == |ids| && forall i :: 0 <= i < |ids| ==> r[i] == nodes[ids[i]]
  {
    seq(|ids|, i requires 0 <= i < |ids| => nodes[ids[i]])
  }

  lemma WellFormedMore<Msg(!new)>(net: Net<Msg>, n: nat)
    requires WellFormed(net, n)
    ensures WellFormed(net, n + 1)
  {
  }

  lemma WellFormedNode<Msg(!new)>(net: Net<Msg>, node: Translation<Msg>, n: nat)
    requires WellFormed(net, n)
    requires forall i :: 0 <= i < |node.inputs| ==> node.inputs[i] < n
    requires forall i :: 0 <= i < |node.outputs| ==> node.outputs[i] < n
    requires forall ins, outs :: |node.cb(ins, outs)| == |outs|
    ensures WellFormed(net + [node], n)
  {
  }

  lemma LinkedMore<Msg(!new)>(net: Net<Msg>, links: seq<seq<Link>>)
    requires Linked(net, links)
    ensures Linked(net, links + [[]])
  {
  }

  lemma KnownMore(events: seq<Event>, n: nat)
    requires Known(events, n)
    ensures Known(events, n + 1)
  {
  }

  lemma {:induction false} NothingMarked(events: seq<Event>, n: nat)
    requires Known(events, n)
    ensures MarkedSince(events, n) == {}
    decreases |events|
  {
    if events != [] {
      assert events[|events| - 1].translation != n;
      NothingMarked(events[..|events| - 1], n);
    }
  }

  lemma BarriersMore<Msg(!new)>(net: Net<Msg>, events: seq<Event>, ready: seq<set<nat>>, node: Translation<Msg>)
    requires |ready| == |net| && Known(events, |net|) && |node.inputs| <= MAX_NUM_INPUTS
    requires forall t :: 0 <= t < |net| ==> Barrier(net, events, ready, t)
    ensures forall t :: 0 <= t < |net| + 1 ==> Barrier(net + [node], events, ready + [{}], t)
  {
    NothingMarked(events, |net|);
    forall t | 0 <= t < |net| + 1 ensures Barrier(net + [node], events, ready + [{}], t) {
      if t < |net| {
        assert Barrier(net, events, ready, t);
      }
    }
  }

  lemma FiresMore<Msg(!new)>(net: Net<Msg>, events: seq<Event>, node: Translation<Msg>)
    requires FiresReady(net, events)
    ensures FiresReady(net + [node], events)
  {
    forall k | 0 <= k < |events| && events[k].Fire? ensures FireReadyAt(net + [node], events, k) {
      assert FireReadyAt(net, events, k);
    }
  }

  /** Linked, with only the first n inputs of the new translation. */
  ghost predicate LinkedUpTo<Msg(!new)>(net: Net<Msg>, node: Translation<Msg>, links: seq<seq<Link>>, n: nat)
    requires n <= |node.inputs|
  {
    Linked(net + [Translation(node.inputs[..n], node.outputs, node.cb)], links)
  }

  lemma LinkedNone<Msg(!new)>(net: Net<Msg>, node: Translation<Msg>, links: seq<seq<Link>>)
    requires Linked(net, links)
    ensures LinkedUpTo(net, node, links, 0)
  {
  }

  lemma LinkedAll<Msg(!new)>(net: Net<Msg>, node: Translation<Msg>, links: seq<seq<Link>>)
    requires LinkedUpTo(net, node, links, |node.inputs|)
    ensures Linked(net + [node], links)
  {
    assert node.inputs[..|node.inputs|] == node.inputs;
  }

  lemma LinkMore<Msg(!new)>(net: Net<Msg>, node: Translation<Msg>, links: seq<seq<Link>>, n: nat)
    requires n < |node.inputs| && node.inputs[n] < |links| && LinkedUpTo(net, node, links, n)
    ensures LinkedUpTo(net, node, links[node.inputs[n] := links[node.inputs[n]] + [Link(|net|, n)]], n + 1)
  {
    var links': seq<seq<Link>> := links[node.inputs[n] := links[node.inputs[n]] + [Link(|net|, n)]];
    var part := net + [Translation(node.inputs[..n], node.outputs, node.cb)];
    var part' := net + [Translation(node.inputs[..n + 1], node.outputs, node.cb)];
    forall t, i | 0 <= t < |part'| && 0 <= i < |part'[t].inputs|
      ensures part'[t].inputs[i] < |links'| && Link(t, i) in links'[part'[t].inputs[i]]
    {
      if t < |net| || i < n {
        assert part[t].inputs[i] == part'[t].inputs[i];
        assert Link(t, i) in links[part[t].inputs[i]];
      }
    }
    forall u, k | 0 <= u < |links'| && 0 <= k < |links'[u]|
      ensures var e := links'[u][k];
        e.translation < |part'| && e.input < |part'[e.translation].inputs| && part'[e.translation].inputs[e.input] == u
    {
      if k < |links[u]| {
        assert links'[u][k] == links[u][k];
      }
    }
  }

  // ----- the graph -----

  class Graph<Msg(!new)> {
    var nodes: map<MessageIdentifier, nat>
    var buffers: seq<Msg>            // MessageNode::_buffer, by node index
    var links: seq<seq<Link>>        // MessageNode::_translations, by node index
    var net: Net<Msg>
    var inputsReady: seq<set<nat>>   // TranslationNode::_inputs_ready
    var visited: seq<bool>
    ghost var events: seq<Event>

    ghost predicate Valid()
      reads `nodes, `buffers, `links, `net, `inputsReady, `events
    {
      && |links| == |buffers| && Numbered(nodes, |buffers|)
      && WellFormed(net, |buffers|) && Linked(net, links)
      && |inputsReady| == |net|
      && (forall t :: 0 <= t < |net| ==> Barrier(net, events, inputsReady, t))
      && FiresReady(net, events) && Known(events, |net|)
    }

    constructor ()
      ensures Valid() && nodes == map[] && net == [] && buffers == []
    {
      nodes, buffers, links, net, inputsReady, visited, events := map[], [], [], [], [], [], [];
    }

    /** A new node with the next free index, unless the identifier is taken. */
    method AddNodeIfNotExists(id: MessageIdentifier, buffer: Msg) returns (added: bool)
      requires Valid()
      modifies `nodes, `buffers, `links
      ensures Valid()
      ensures added <==> id !in old(nodes)
      ensures added ==> nodes == old(nodes)[id := |old(buffers)|] && buffers == old(buffers) + [buffer]
      ensures !added ==> nodes == old(nodes) && buffers == old(buffers)
    {
      if id in nodes {
        return false;
      }
      hide Numbered, WellFormed, Linked, Barrier, FiresReady, Known;
      Renumbered(nodes, |buffers|, id);
      WellFormedMore(net, |buffers|);
      LinkedMore(net, links);
      nodes := nodes[id := |buffers|];
      buffers := buffers + [buffer];
      links := links + [[]];
      return true;
    }

    /** All nodes must exist already. */
    method AddTranslation(cb: (seq<Msg>, seq<Msg>) -> seq<Msg>, inputs: seq<MessageIdentifier>,
                          outputs: seq<MessageIdentifier>)
      requires Valid() && |inputs| <= MAX_NUM_INPUTS
      requires forall i :: 0 <= i < |inputs| ==> inputs[i] in nodes
      requires forall i :: 0 <= i < |outputs| ==> outputs[i] in nodes
      requires forall ins, outs :: |cb(ins, outs)| == |outs|
      modifies `net, `links, `inputsReady
      ensures Valid()
      ensures net == old(net) + [Translation(Indexes(nodes, inputs), Indexes(nodes, outputs), cb)]
    {
      hide Barrier, FiresReady, Linked, Indexes, Known, WellFormed;
      var node := Translation(Indexes(nodes, inputs), Indexes(nodes, outputs), cb);
      WellFormedNode(net, node, |buffers|);
      KnownMore(events, |net|);
      BarriersMore(net, events, inputsReady, node);
      FiresMore(net, events, node);
      var ls := AddInputs(node);
      net, links, inputsReady := net + [node], ls, inputsReady + [{}];
    }

    /** Tell each input node of a new translation about it. */
    method AddInputs(node: Translation<Msg>) returns (ls: seq<seq<Link>>)
      requires Linked(net, links) && forall i :: 0 <= i < |node.inputs| ==> node.inputs[i] < |links|
      ensures |ls| == |links| && Linked(net + [node], ls)
    {
      hide Linked, LinkedUpTo;
      ls := links;
      LinkedNone(net, node, ls);
      for i := 0 to |node.inputs|
        invariant |ls| == |links| && LinkedUpTo(net, node, ls, i)
      {
        LinkMore(net, node, ls, i);
        ls := ls[node.inputs[i] := ls[node.inputs[i]] + [Link(|net|, i)]];
      }
      LinkedAll(net, node, ls);
    }

    method AnyVisited(outputs: seq<nat>) returns (any: bool)
      requires forall i :: 0 <= i < |outputs| ==> outputs[i] < |visited|
      ensures any <==> exists i :: 0 <= i < |outputs| && visited[outputs[i]]
    {
      for i := 0 to |outputs|
        invariant forall k :: 0 <= k < i ==> !visited[outputs[k]]
      {
        if visited[outputs[i]] {
          return true;
        }
      }
      return false;
    }

    method SetInputReady(e: Link)
      requires Valid() && e.translation < |net| && e.input < |net[e.translation].inputs|
      modifies `inputsReady, `events
      ensures |inputsReady| == |net| && FiresReady(net, events) && Known(events, |net|)
      ensures FiredIn(events) == old(FiredIn(events))
      ensures forall t :: 0 <= t < |net| && t != e.translation ==> Barrier(net, events, inputsReady, t)
      ensures inputsReady[e.translation] == old(inputsReady[e.translation]) + {e.input}
      ensures inputsReady[e.translation] == MarkedSince(events, e.translation)
      ensures events == old(events) + [Mark(e.translation, e.input)]
    {
      var bits := inputsReady[e.translation] + {e.input};
      ghost var mark := Mark(e.translation, e.input);
      EventSnoc(net, events, mark);
      BarrierElsewhere(net, events, inputsReady, mark, events + [mark], inputsReady[e.translation := bits]);
      assert Barrier(net, events, inputsReady, e.translation);
      assert MarkedSince(events + [mark], e.translation) == MarkedAfter(events, mark, e.translation);
      events := events + [mark];
      inputsReady := inputsReady[e.translation := bits];
    }

    /** Run the callback if every input is ready. */
    method TryTranslate(t: nat) returns (done: bool)
      requires |links| == |buffers| && WellFormed(net, |buffers|) && |inputsReady| == |net| && t < |net|
      requires FiresReady(net, events) && Known(events, |net|) && net[t].inputs != []
      requires |net[t].inputs| <= MAX_NUM_INPUTS
      requires forall u :: 0 <= u < |net| && u != t ==> Barrier(net, events, inputsReady, u)
      requires inputsReady[t] == MarkedSince(events, t) && inputsReady[t] <= Below(|net[t].inputs|)
      modifies `inputsReady, `events, `buffers
      ensures |inputsReady| == |net| && FiresReady(net, events) && Known(events, |net|)
      ensures forall u :: 0 <= u < |net| ==> Barrier(net, events, inputsReady, u)
      ensures done <==> old(inputsReady[t]) == Below(|net[t].inputs|)
      ensures events == if done then old(events) + [Fire(t)] else old(events)
      ensures |buffers| == |old(buffers)|
      ensures if done
        then FiredIn(events) == old(FiredIn(events)) + [t]
          && buffers == Fired(net, old(buffers), t)
        else events == old(events) && buffers == old(buffers)
    {
      hide FiresReady, MarkedSince, FiredIn, Fired;
      FullSubset(inputsReady[t], |net[t].inputs|);
      done := |inputsReady[t]| == |net[t].inputs|;
      if done {
        hide Barrier;
        FireKeeps(net, events, inputsReady, t);
        buffers := Fired(net, buffers, t);
        events := events + [Fire(t)];
        inputsReady := inputsReady[t := {}];
      }
    }

    /** Visit the outputs of a translation that has just fired. */
    method VisitOutputs(outputs: seq<nat>, source: nat, ghost before: seq<Msg>, calls: seq<Call<Msg>>, queue: seq<nat>)
      returns (calls': seq<Call<Msg>>, queue': seq<nat>)
      requires Consistent(source, before, buffers, visited, calls, queue, outputs)
      requires forall i :: 0 <= i < |outputs| ==> outputs[i] < |visited|
      modifies `visited
      ensures Consistent(source, before, buffers, visited, calls', queue', [])
      ensures queue' == queue + Fresh(outputs, old(visited))
      ensures CallNodes(calls') == CallNodes(calls) + Fresh(outputs, old(visited))
      ensures Unvisited(visited) + |queue'| <= old(Unvisited(visited)) + |queue|
    {
      hide Consistent, Unvisited, CallNodes, Fresh;
      calls', queue' := calls, queue;
      ghost var rest := Fresh(outputs, visited);
      assert outputs[0..] == outputs;
      for j := 0 to |outputs|
        invariant |visited| == old(|visited|)
        invariant Consistent(source, before, buffers, visited, calls', queue', outputs[j..])
        invariant rest == Fresh(outputs[j..], visited)
        invariant queue' + rest == queue + Fresh(outputs, old(visited))
        invariant CallNodes(calls') + rest == CallNodes(calls) + Fresh(outputs, old(visited))
        invariant Unvisited(visited) + |queue'| <= old(Unvisited(visited)) + |queue|
      {
        var v := outputs[j];
        assert outputs[j..][0] == v && outputs[j..][1..] == outputs[j + 1..];
        FreshStep(outputs[j..], visited);
        SameLength(source, before, buffers, visited, calls', queue', outputs[j..]);
        VisitConsistent(source, before, buffers, visited, calls', queue', outputs[j..]);
        if visited[v] {
          continue;
        }
        VisitOne(visited, v);
        CallNodesSnoc(calls', Call(v, buffers[v]));
        rest := rest[1..];
        visited := visited[v := true];
        calls' := calls' + [Call(v, buffers[v])];
        queue' := queue' + [v];
      }
      assert outputs[|outputs|..] == [];
      FreshNone(visited);
    }

    /** Mark an input and fire the translation if that completes it; one with a single input always fires. */
    method MarkAndTry(e: Link) returns (done: bool)
      requires Valid() && e.translation < |net| && e.input < |net[e.translation].inputs|
      modifies `inputsReady, `events, `buffers
      ensures Valid() && |buffers| == |old(buffers)|
      ensures LinkEvents(net, old(events), events, e, done)
      ensures |net[e.translation].inputs| == 1 ==> done
      ensures done ==>
        FiredIn(events) == old(FiredIn(events)) + [e.translation] && buffers == Fired(net, old(buffers), e.translation)
      ensures !done ==> FiredIn(events) == old(FiredIn(events)) && buffers == old(buffers)
    {
      hide FiresReady, Linked, MarkedSince, FiredIn;
      assert Barrier(net, events, inputsReady, e.translation);
      SetInputReady(e);
      SingleFull(inputsReady[e.translation], |net[e.translation].inputs|, e.input);
      done := TryTranslate(e.translation);
    }

    /** One translation of the current node: skip it, mark its input, or fire it. */
    method FollowLink(e: Link, source: nat, ghost before: seq<Msg>, calls: seq<Call<Msg>>, queue: seq<nat>)
      returns (calls': seq<Call<Msg>>, queue': seq<nat>, done: bool)
      requires Valid() && e.translation < |net| && e.input < |net[e.translation].inputs|
      requires |visited| == |buffers| && Consistent(source, before, buffers, visited, calls, queue, [])
      modifies `inputsReady, `events, `buffers, `visited
      ensures Valid() && |visited| == |buffers| == |old(buffers)|
      ensures Consistent(source, before, buffers, visited, calls', queue', [])
      ensures Unvisited(visited) + |queue'| <= old(Unvisited(visited)) + |queue|
      ensures VisitedMore(old(visited), queue, visited, queue') && old(events) <= events
      ensures Followed(net, e, visited, events[|old(events)|..])
      ensures if exists i :: 0 <= i < |net[e.translation].outputs| && old(visited)[net[e.translation].outputs[i]]
        then !done && events == old(events)
        else LinkEvents(net, old(events), events, e, done)
      ensures FiredIn(events) == old(FiredIn(events)) + (if done then [e.translation] else [])
      ensures LinkOutcome(net, e.translation, done, old(buffers), buffers, old(visited), visited, calls, calls',
                          queue, queue')
      ensures |net[e.translation].inputs| == 1 && !done ==>
        exists i :: 0 <= i < |net[e.translation].outputs| && old(visited)[net[e.translation].outputs[i]]
    {
      hide Consistent, FiresReady, Linked, Fresh, CallNodes, Unvisited, FiredIn, MarkedSince, Barrier, Fired, Known;
      hide Numbered;
      var t := e.translation;
      var any := AnyVisited(net[t].outputs);
      VisitedSame(visited, queue);
      if any {
        return calls, queue, false;
      }
      done := MarkAndTry(e);
      assert events[|old(events)|] == Mark(e.translation, e.input);
      calls', queue' := calls, queue;
      if done {
        var outputs := net[t].outputs;
        FiredConsistent(net, t, source, before, old(buffers), visited, calls, queue);
        calls', queue' := VisitOutputs(outputs, source, before, calls, queue);
        VisitedFresh(source, before, old(buffers), buffers, old(visited), visited, calls, calls', queue, queue',
                     Fresh(outputs, old(visited)));
        SameLength(source, before, buffers, visited, calls', queue', []);
      }
    }

    method ResetNodesVisited()
      modifies `visited
      ensures visited == seq(|buffers|, i => false)
    {
      visited := seq(|buffers|, i => false);
    }

    /** Visit the outputs of one translation, whether or not its inputs are ready. */
    method PlainVisit(outputs: seq<nat>, order: seq<nat>, queue: seq<nat>) returns (order': seq<nat>, queue': seq<nat>)
      requires forall i :: 0 <= i < |outputs| ==> outputs[i] < |visited|
      requires SameOrder(visited, order) && Distinct(order)
      modifies `visited
      ensures |visited| == |old(visited)| && SameOrder(visited, order') && Distinct(order') && order <= order'
      ensures forall v :: v in order' <==> v in order || v in outputs
      ensures forall v :: v in queue' <==> v in queue || (v in order' && v !in order)
      ensures Unvisited(visited) + |queue'| <= old(Unvisited(visited)) + |queue|
    {
      order', queue' := order, queue;
      for j := 0 to |outputs|
        invariant |visited| == |old(visited)| && SameOrder(visited, order') && Distinct(order') && order <= order'
        invariant forall v :: v in order' <==> v in order || v in outputs[..j]
        invariant forall v :: v in queue' <==> v in queue || (v in order' && v !in order)
        invariant Unvisited(visited) + |queue'| <= old(Unvisited(visited)) + |queue|
      {
        assert outputs[..j + 1] == outputs[..j] + [outputs[j]];
        if visited[outputs[j]] {
          continue;
        }
        VisitOne(visited, outputs[j]);
        visited := visited[outputs[j] := true];
        queue' := queue' + [outputs[j]];
        order' := order' + [outputs[j]];
      }
      assert outputs[..|outputs|] == outputs;
    }

    /** All links of the next node of the queue, in a plain traversal. */
    method PlainNode(source: nat, order: seq<nat>, queue: seq<nat>) returns (order': seq<nat>, queue': seq<nat>)
      requires Valid() && |visited| == |buffers| && queue != []
      requires SameOrder(visited, order) && Distinct(order) && Traversed(net, source, order, queue, {})
      modifies `visited
      ensures |visited| == |buffers| && SameOrder(visited, order') && Distinct(order') && order <= order'
      ensures Traversed(net, source, order', queue', {})
      ensures Unvisited(visited) + |queue'| < old(Unvisited(visited)) + |queue|
    {
      hide Valid, Unvisited, Traversed, Distinct, AllHopsIn;
      ValidNet();
      TraversedTake(net, source, order, queue);
      var current := queue[0];
      ValidLinks(current);
      order', queue' := order, queue[1..];
      for k := 0 to |links[current]|
        invariant |visited| == |buffers| && SameOrder(visited, order') && Distinct(order') && order <= order'
        invariant Traversed(net, source, order', queue', {current}) && current in order'
        invariant Unvisited(visited) + |queue'| < old(Unvisited(visited)) + |queue|
        invariant forall j :: 0 <= j < k ==> OutputsIn(net, links[current][j], order')
      {
        var e := links[current][k];
        ghost var order0, queue0 := order', queue';
        order', queue' := PlainVisit(net[e.translation].outputs, order', queue');
        TraversedMore(net, source, order0, queue0, current, e.translation, order', queue');
        OutputsStay(net, links[current], k, order0, order');
      }
      TraversedDone(net, source, order', queue', current, links[current]);
    }

    /** Visit a node and all that translations lead to from it, each once; the callback gets them in this order. */
    method IterateBFS(node: nat) returns (order: seq<nat>)
      requires Valid() && node < |buffers|
      modifies `visited
      ensures order != [] && order[0] == node && Distinct(order)
      ensures forall v :: v in order <==> Connected(net, node, v)
      ensures forall v :: v in order ==> v < |buffers|
    {
      hide Valid, Unvisited, Traversed, Connected;
      ResetNodesVisited();
      visited := visited[node := true];
      var queue: seq<nat> := [node];
      order := [node];
      TraversedStart(net, node);
      while queue != []
        invariant |visited| == |buffers| && SameOrder(visited, order) && Distinct(order) && [node] <= order
        invariant Traversed(net, node, order, queue, {})
        decreases Unvisited(visited) + |queue|
      {
        order, queue := PlainNode(node, order, queue);
      }
      TraversedAll(net, node, order);
    }

    lemma ValidNet()
      requires Valid()
      ensures WellFormed(net, |buffers|) && |links| == |buffers|
    {
    }

    lemma ValidLinked()
      requires Valid()
      ensures Linked(net, links) && |links| == |buffers|
    {
    }

    lemma ValidLinks(u: nat)
      requires Valid() && u < |links|
      ensures forall k :: 0 <= k < |links[u]| ==>
        var e := links[u][k];
        e.translation < |net| && e.input < |net[e.translation].inputs| && net[e.translation].inputs[e.input] == u
      ensures forall t, i :: 0 <= t < |net| && 0 <= i < |net[t].inputs| && net[t].inputs[i] == u ==>
        Link(t, i) in links[u]
    {
    }

    /** One link of the node in hand, with its effect on the record of firings and on the search. */
    method LinkStep(u: nat, k: nat, source: nat, ghost before: seq<Msg>, calls: seq<Call<Msg>>, queue: seq<nat>,
                    ghost start: seq<Event>, ghost base: seq<nat>, ghost fired: seq<nat>, ghost paths: Paths)
      returns (calls': seq<Call<Msg>>, queue': seq<nat>, ghost fired': seq<nat>, ghost paths': Paths)
      requires start <= events && AllFollowed(net, links, visited, queue, {u}, events[|start|..])
      requires u < |links| && FollowedUpTo(net, links[u], k, visited, events[|start|..])
      requires Valid() && k < |links[u]| && |visited| == |buffers| == |before|
      requires Consistent(source, before, buffers, visited, calls, queue, [])
      requires FiredIn(events) == base + fired && FiredApart(net, fired, CallNodes(calls))
      requires WellFormed(net, |before|) && source < |before|
      requires buffers == Replay(net, before, fired)
      requires SingleInputOutput(net) ==> InHand(net, source, before, buffers, visited, queue, paths, u, links[u], k)
      modifies `inputsReady, `events, `buffers, `visited
      ensures Valid() && |visited| == |buffers| == |before|
      ensures Consistent(source, before, buffers, visited, calls', queue', [])
      ensures FiredIn(events) == base + fired' && FiredApart(net, fired', CallNodes(calls'))
      ensures buffers == Replay(net, before, fired')
      ensures Unvisited(visited) + |queue'| <= old(Unvisited(visited)) + |queue|
      ensures SingleInputOutput(net) ==>
        InHand(net, source, before, buffers, visited, queue', paths', u, links[u], k + 1)
      ensures start <= events && AllFollowed(net, links, visited, queue', {u}, events[|start|..])
      ensures FollowedUpTo(net, links[u], k + 1, visited, events[|start|..])
      ensures SingleInputOutput(net) && Outwards(paths, CallNodes(calls)) ==> Outwards(paths', CallNodes(calls'))
    {
      hide Outwards, AllFollowed, FollowedUpTo, Followed, LinkEvents, VisitedMore, Valid, FiredIn, CallNodes, Unvisited;
      hide InHand, Fresh, Write, Gather, Replay, FiredApart, Consistent;
      var e := links[u][k];
      ValidLinks(u);
      ghost var t := e.translation;
      ghost var done;
      calls', queue', done := FollowLink(e, source, before, calls, queue);
      LinkFollowed(net, links, u, k, old(visited), queue, visited, queue', start, old(events), events);
      fired' := fired;
      paths' := paths;
      if done {
        UnvisitedOutputs(source, before, old(buffers), old(visited), calls, queue, net[t].outputs);
        FiredOne(net, fired, CallNodes(calls), t, Fresh(net[t].outputs, old(visited)));
        ReplayMore(net, before, fired, t);
        fired' := fired + [t];
      }
      if SingleInputOutput(net) {
        SingleLink(net, e, u, source, before, done, old(buffers), buffers, old(visited), visited, calls, calls',
                   queue, queue');
        paths' := FollowedLink(net, source, before, old(buffers), old(visited), queue, paths, u, links[u], k,
                               buffers, visited, queue');
        if Outwards(paths, CallNodes(calls)) {
          OutwardsStep(net, source, before, old(buffers), old(visited), queue, paths, u, links[u], k,
                       net[t].outputs[0], t, paths', CallNodes(calls), CallNodes(calls'));
        }
      }
    }

    /** All links of the next node of the queue. */
    method TranslateNode(source: nat, ghost before: seq<Msg>, calls: seq<Call<Msg>>, queue: seq<nat>,
                         ghost start: seq<Event>, ghost base: seq<nat>, ghost fired: seq<nat>, ghost paths: Paths)
      returns (calls': seq<Call<Msg>>, queue': seq<nat>, ghost fired': seq<nat>, ghost paths': Paths)
      requires start <= events && AllFollowed(net, links, visited, queue, {}, events[|start|..])
      requires Valid() && |visited| == |buffers| == |before| && queue != []
      requires Consistent(source, before, buffers, visited, calls, queue, [])
      requires FiredIn(events) == base + fired && FiredApart(net, fired, CallNodes(calls))
      requires WellFormed(net, |before|) && source < |before|
      requires buffers == Replay(net, before, fired)
      requires SingleInputOutput(net) ==> BetweenNodes(net, source, before, buffers, visited, queue, paths)
      modifies `inputsReady, `events, `buffers, `visited
      ensures Valid() && |visited| == |buffers| == |before|
      ensures Consistent(source, before, buffers, visited, calls', queue', [])
      ensures FiredIn(events) == base + fired' && FiredApart(net, fired', CallNodes(calls'))
      ensures buffers == Replay(net, before, fired')
      ensures Unvisited(visited) + |queue'| < old(Unvisited(visited)) + |queue|
      ensures SingleInputOutput(net) ==> BetweenNodes(net, source, before, buffers, visited, queue', paths')
      ensures start <= events && AllFollowed(net, links, visited, queue', {}, events[|start|..])
      ensures SingleInputOutput(net) && Outwards(paths, CallNodes(calls)) ==> Outwards(paths', CallNodes(calls'))
    {
      hide Outwards, AllFollowed, FollowedUpTo, Followed, Valid, FiredIn, CallNodes, Unvisited;
      hide InHand, BetweenNodes, FiredApart, Consistent, Replay;
      ValidNet();
      QueueNodes(source, before, buffers, visited, calls, queue);
      var current := queue[0];
      calls', queue', fired', paths' := calls, queue[1..], fired, paths;
      AllFollowedTake(net, links, visited, queue, events[|start|..]);
      NoneFollowed(net, links[current], visited, events[|start|..]);
      if SingleInputOutput(net) {
        TakeNode(net, source, before, buffers, visited, queue, paths, links[current]);
      }
      for k := 0 to |links[current]|
        invariant Valid() && |visited| == |buffers| == |before|
        invariant Consistent(source, before, buffers, visited, calls', queue', [])
        invariant FiredIn(events) == base + fired' && FiredApart(net, fired', CallNodes(calls'))
        invariant buffers == Replay(net, before, fired')
        invariant Unvisited(visited) + |queue'| < old(Unvisited(visited)) + |queue|
        invariant SingleInputOutput(net) ==>
          InHand(net, source, before, buffers, visited, queue', paths', current, links[current], k)
        invariant start <= events && AllFollowed(net, links, visited, queue', {current}, events[|start|..])
        invariant FollowedUpTo(net, links[current], k, visited, events[|start|..])
        invariant SingleInputOutput(net) && Outwards(paths, CallNodes(calls)) ==> Outwards(paths', CallNodes(calls'))
      {
        calls', queue', fired', paths' :=
          LinkStep(current, k, source, before, calls', queue', start, base, fired', paths');
      }
      AllFollowedDone(net, links, visited, queue', current, events[|start|..]);
      if SingleInputOutput(net) {
        ValidLinks(current);
        NodeDone(net, source, before, buffers, visited, queue', paths', current, links[current]);
      }
    }

    /**
     * Translate from a node.  on_translated is called with the returned calls: once for each node
     * written, after its only write, and never for the source.  The buffers are those that running
     * the fired translations in order leaves.
     */
    method Translate(node: nat) returns (calls: seq<Call<Msg>>, ghost fired: seq<nat>)
      requires Valid() && node < |buffers|
      modifies `visited, `buffers, `inputsReady, `events
      ensures Valid()
      ensures Consistent(node, old(buffers), buffers, visited, calls, [], [])
      ensures FiredIn(events) == old(FiredIn(events)) + fired && FiredApart(net, fired, CallNodes(calls))
      ensures WellFormed(net, |old(buffers)|) && buffers == Replay(net, old(buffers), fired)
      ensures old(events) <= events && AllInputsFollowed(net, visited, events[|old(events)|..])
      ensures SingleInputOutput(net) ==>
        && (forall v :: v in CallNodes(calls) <==> v != node && Reachable(net, node, v))
        && (forall k :: 0 <= k < |calls| ==>
              ShortestPathValue(net, node, calls[k].node, old(buffers), calls[k].message))
        && (forall j, k :: 0 <= j < k < |calls| ==> NoFarther(net, node, calls[j].node, calls[k].node))
    {
      hide AllFollowed, Followed, Valid, Consistent, FiredIn, FiredApart, CallNodes, Unvisited, InHand, BetweenNodes;
      hide Linked;
      ghost var before, single := buffers, SingleInputOutput(net);
      ghost var paths: Paths := map[node := []];
      ValidNet();
      ResetNodesVisited();
      var queue: seq<nat> := [node];
      visited := visited[node := true];
      calls, fired := [], [];
      StartConsistent(node, before, visited, net);
      ghost var start := events;
      StartFollowed(net, links, visited, node, events[|start|..]);
      NoCalls<Msg>();
      if single {
        StartSearch(net, node, before, visited);
      }
      while queue != []
        invariant Valid() && |visited| == |buffers| == |before|
        invariant Consistent(node, before, buffers, visited, calls, queue, [])
        invariant FiredIn(events) == old(FiredIn(events)) + fired && FiredApart(net, fired, CallNodes(calls))
        invariant buffers == Replay(net, before, fired)
        invariant single ==> BetweenNodes(net, node, before, buffers, visited, queue, paths)
        invariant single ==> Outwards(paths, CallNodes(calls))
        invariant start <= events && AllFollowed(net, links, visited, queue, {}, events[|start|..])
        decreases Unvisited(visited) + |queue|
      {
        hide Replay;
        calls, queue, fired, paths :=
          TranslateNode(node, before, calls, queue, start, old(FiredIn(events)), fired, paths);
      }
      ValidLinked();
      NothingWaits(net, links, visited, events[|start|..]);
      if single {
        EndSearch(net, node, before, buffers, visited, calls, paths);
      }
    }
  }

  lemma SingleFull(s: set<nat>, n: nat, i: nat)
    requires i in s
    ensures n == 1 && s <= Below(1) ==> |s| == n
  {
    if n == 1 && s <= Below(1) {
      assert s == {0};
    }
  }
}
