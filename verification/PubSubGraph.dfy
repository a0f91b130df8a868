/** The publications and subscriptions that topics call for, and the messages passed on between them. */
module PubSubGraph {
  import opened GraphComponents
  import opened GraphPaths
  import opened Registration
  import opened Results
  import opened Sequences
  import opened TranslationGraph

  // ----- what a set of topics calls for -----

  datatype NodeData = NodeData(
    hasExternalPublisher: bool,
    hasExternalSubscriber: bool,
    subscription: Option<nat>,
    publication: Option<nat>,
    visited: bool
  )

  datatype TopicInfo = TopicInfo(id: MessageIdentifier, numSubscribers: int, numPublishers: int)

  ghost function Publishers(nodes: map<MessageIdentifier, nat>, topics: seq<TopicInfo>): set<nat> {
    set k | 0 <= k < |topics| && topics[k].id in nodes && topics[k].numPublishers > 0 :: nodes[topics[k].id]
  }

  ghost function Subscribers(nodes: map<MessageIdentifier, nat>, topics: seq<TopicInfo>): set<nat> {
    set k | 0 <= k < |topics| && topics[k].id in nodes && topics[k].numSubscribers > 0 :: nodes[topics[k].id]
  }

  ghost function Component<Msg(!new)>(net: Net<Msg>, n: nat, u: nat): (c: set<nat>) {
    set v | 0 <= v < n && Connected(net, u, v)
  }

  /** Several publishers and a subscriber, or one publisher and a subscriber on another node. */
  predicate RequireTranslation(publishers: nat, subscribers: nat, subscribersWithoutPublisher: nat) {
    (publishers >= 2 && subscribers >= 1) || (publishers == 1 && subscribersWithoutPublisher >= 1)
  }

  ghost predicate Required<Msg(!new)>(net: Net<Msg>, n: nat, pubs: set<nat>, subs: set<nat>, u: nat) {
    var c := Component(net, n, u);
    RequireTranslation(|pubs * c|, |subs * c|, |(subs - pubs) * c|)
  }

  lemma RequiredTogether<Msg(!new)>(net: Net<Msg>, n: nat, pubs: set<nat>, subs: set<nat>, u: nat, v: nat)
    requires Paired(net) && Connected(net, u, v)
    ensures Required(net, n, pubs, subs, u) <==> Required(net, n, pubs, subs, v)
  {
    SameComponent(net, u, v);
    assert Component(net, n, u) == Component(net, n, v);
  }

  /** Translation is required exactly when some message has to get from a publisher to a subscriber elsewhere. */
  lemma RequiredMeaning<Msg(!new)>(net: Net<Msg>, n: nat, pubs: set<nat>, subs: set<nat>, u: nat)
    ensures Required(net, n, pubs, subs, u) <==>
      exists p, s :: p in Component(net, n, u) && s in Component(net, n, u) && p in pubs && s in subs && p != s
  {
    var c := Component(net, n, u);
    var here, there, alone := pubs * c, subs * c, (subs - pubs) * c;
    if Required(net, n, pubs, subs, u) {
      if |here| >= 2 {
        var s :| s in there;
        var p := AnotherElement(here, s);
      } else {
        var s :| s in alone;
        var p :| p in here;
      }
    }
    if p, s :| p in c && s in c && p in pubs && s in subs && p != s {
      assert p in here && s in there;
      assert here != {} && there != {};
      if |here| == 1 {
        assert here == {p} by {
          assert {p} <= here;
          SubsetOfSameSize({p}, here);
        }
        assert s !in pubs by {
          assert s !in here;
        }
        NonEmpty(alone, s);
      } else {
        assert |here| >= 2 && |there| >= 1 by {
          NonEmpty(here, p);
          NonEmpty(there, s);
        }
      }
    }
  }

  lemma AnotherElement(s: set<nat>, a: nat) returns (b: nat)
    requires |s| >= 2
    ensures b in s && b != a
  {
    var rest := s - {a};
    assert |rest| >= 1;
    b :| b in rest;
  }

  lemma SubsetOfSameSize(a: set<nat>, b: set<nat>)
    requires a <= b && |a| == |b|
    ensures a == b
  {
    assert b == a + (b - a);
    assert |b - a| == 0;
  }

  lemma NonEmpty(s: set<nat>, x: nat)
    requires x in s
    ensures |s| >= 1
  {
  }

  // ----- one pass over the graph -----

  ghost predicate Created(before: NodeData, after: NodeData) {
    || (before.publication.None? && after.publication.Some?)
    || (before.subscription.None? && after.subscription.Some?)
  }

  ghost function Handles(node: NodeData): set<nat> {
    (if node.publication.Some? then {node.publication.value} else {})
    + (if node.subscription.Some? then {node.subscription.value} else {})
  }

  /** All endpoints have handles of their own, which the factories have returned before. */
  ghost predicate OwnHandles(data: seq<NodeData>, next: nat) {
    && (forall u :: 0 <= u < |data| ==>
          && (data[u].publication.Some? ==> data[u].publication.value < next)
          && (data[u].subscription.Some? ==> data[u].subscription.value < next))
    && (forall u, v :: 0 <= u < v < |data| ==> Handles(data[u]) !! Handles(data[v]))
    && (forall u :: 0 <= u < |data| && data[u].publication.Some? ==> data[u].publication != data[u].subscription)
  }

  /** Endpoints are as before, gone, or made with a handle from first on. */
  ghost predicate KeptOrNew(before: NodeData, after: NodeData, first: nat) {
    && (after.publication.Some? ==> after.publication == before.publication || after.publication.value >= first)
    && (after.subscription.Some? ==> after.subscription == before.subscription || after.subscription.value >= first)
  }

  ghost predicate AllKeptOrNew(before: seq<NodeData>, data: seq<NodeData>, first: nat) {
    |before| == |data| && forall u :: 0 <= u < |data| ==> KeptOrNew(before[u], data[u], first)
  }

  lemma OneMoreNode(data: seq<NodeData>, next: nat, v: nat, node: NodeData, next': nat)
    requires v < |data| && OwnHandles(data, next) && next <= next' && KeptOrNew(data[v], node, next)
    requires node.publication.Some? ==> node.publication.value < next'
    requires node.subscription.Some? ==> node.subscription.value < next'
    requires node.publication.Some? ==> node.publication != node.subscription
    ensures OwnHandles(data[v := node], next')
  {
  }

  lemma OwnBelow(data: seq<NodeData>, next: nat, v: nat)
    requires v < |data| && OwnHandles(data, next)
    ensures data[v].publication.Some? ==> data[v].publication.value < next
    ensures data[v].subscription.Some? ==> data[v].subscription.value < next
    ensures data[v].publication.Some? ==> data[v].publication != data[v].subscription
  {
  }

  lemma NewerIsNew(before: NodeData, after: NodeData, next: nat, first: nat)
    requires KeptOrNew(before, after, next) && first <= next
    ensures KeptOrNew(before, after, first)
  {
  }

  lemma SomeMoreNodes(before: seq<NodeData>, data: seq<NodeData>, data': seq<NodeData>, order: seq<nat>, next: nat,
                      first: nat)
    requires |before| == |data| == |data'| && first <= next && AllKeptOrNew(before, data, first)
    requires forall v :: v in order ==> v < |data| && KeptOrNew(before[v], data'[v], next)
    requires forall v :: 0 <= v < |data| && v !in order ==> data'[v] == data[v]
    ensures AllKeptOrNew(before, data', first)
  {
    forall u | 0 <= u < |data| ensures KeptOrNew(before[u], data'[u], first) {
      if u in order {
        NewerIsNew(before[u], data'[u], next, first);
      }
    }
  }

  lemma NoHandles(data: seq<NodeData>)
    requires forall u :: 0 <= u < |data| ==> data[u].publication.None? && data[u].subscription.None?
    ensures OwnHandles(data, 0)
  {
  }

  lemma SameHandles(data: seq<NodeData>, next: nat, data': seq<NodeData>)
    requires |data| == |data'| && OwnHandles(data, next)
    requires forall u :: 0 <= u < |data| ==>
      data'[u].publication == data[u].publication && data'[u].subscription == data[u].subscription
    ensures OwnHandles(data', next) && AllKeptOrNew(data, data', next)
  {
    assert forall u :: 0 <= u < |data| ==> Handles(data'[u]) == Handles(data[u]);
  }

  /** A publication for the subscribers, a subscription for the publishers, and existing ones are kept. */
  ghost predicate Settled(before: NodeData, after: NodeData, publisher: bool, subscriber: bool, required: bool) {
    && after.visited
    && after.hasExternalPublisher == publisher && after.hasExternalSubscriber == subscriber
    && (after.publication.Some? <==> required && subscriber)
    && (after.subscription.Some? <==> required && publisher)
    && (before.publication.Some? && after.publication.Some? ==> after.publication == before.publication)
    && (before.subscription.Some? && after.subscription.Some? ==> after.subscription == before.subscription)
  }

  /** The flags are those of the topics, and the rest is as before. */
  ghost predicate Flagged(before: seq<NodeData>, data: seq<NodeData>, pubs: set<nat>, subs: set<nat>, u: nat)
    requires u < |before| == |data|
  {
    data[u] == before[u].(hasExternalPublisher := u in pubs, hasExternalSubscriber := u in subs, visited := false)
  }

  function Cleared(data: seq<NodeData>): (r: seq<NodeData>)
    ensures |r| == |data|
    ensures forall u :: 0 <= u < |data| ==>
      r[u] == data[u].(hasExternalPublisher := false, hasExternalSubscriber := false, visited := false)
  {
    seq(|data|, u requires 0 <= u < |data| =>
      data[u].(hasExternalPublisher := false, hasExternalSubscriber := false, visited := false))
  }

  lemma NoTopics(nodes: map<MessageIdentifier, nat>)
    ensures Publishers(nodes, []) == {} && Subscribers(nodes, []) == {}
  {
  }

  lemma MarkOne(nodes: map<MessageIdentifier, nat>, topics: seq<TopicInfo>, k: nat)
    requires k < |topics|
    ensures var id, all, more := topics[k].id, topics[..k], topics[..k + 1];
      && Publishers(nodes, more) == Publishers(nodes, all)
           + (if id in nodes && topics[k].numPublishers > 0 then {nodes[id]} else {})
      && Subscribers(nodes, more) == Subscribers(nodes, all)
           + (if id in nodes && topics[k].numSubscribers > 0 then {nodes[id]} else {})
  {
    var all, more := topics[..k], topics[..k + 1];
    assert more == all + [topics[k]];
    forall i | 0 <= i < |all| ensures more[i] == all[i] {}
  }

  /** Every node is either settled, together with its component, or still as flagged at the start. */
  ghost predicate Progress<Msg(!new)>(net: Net<Msg>, before: seq<NodeData>, data: seq<NodeData>,
                                      pubs: set<nat>, subs: set<nat>, u: nat)
    requires u < |before| == |data|
  {
    if data[u].visited then
      && Settled(before[u], data[u], u in pubs, u in subs, Required(net, |data|, pubs, subs, u))
      && forall v :: 0 <= v < |data| && Connected(net, u, v) ==> data[v].visited
    else
      Flagged(before, data, pubs, subs, u)
  }

  ghost function Nodes(order: seq<nat>): (s: set<nat>)
    ensures forall v :: v in s <==> v in order
  {
    set v | v in order
  }

  lemma ListedBelow(order: seq<nat>, n: nat)
    requires forall v :: v in order ==> v < n
    ensures forall i :: 0 <= i < |order| ==> order[i] in order && order[i] < n
  {
    forall i | 0 <= i < |order| ensures order[i] in order && order[i] < n {
      assert order[i] in order;
    }
  }

  /** How many of the first j nodes are marked. */
  ghost function MarkedCount(order: seq<nat>, j: nat, marked: set<nat>): nat
    requires j <= |order|
  {
    |marked * Nodes(order[..j])|
  }

  /** One more node of a list without repetitions. */
  lemma CountOne(order: seq<nat>, j: nat, marked: set<nat>)
    requires j < |order| && Distinct(order)
    ensures MarkedCount(order, j + 1, marked) == MarkedCount(order, j, marked) + (if order[j] in marked then 1 else 0)
  {
    assert order[..j + 1] == order[..j] + [order[j]];
    assert order[j] !in order[..j];
    if order[j] in marked {
      assert marked * Nodes(order[..j + 1]) == marked * Nodes(order[..j]) + {order[j]};
    } else {
      assert marked * Nodes(order[..j + 1]) == marked * Nodes(order[..j]);
    }
  }

  lemma CountAll(order: seq<nat>, marked: set<nat>)
    ensures MarkedCount(order, 0, marked) == 0
    ensures MarkedCount(order, |order|, marked) == |marked * Nodes(order)|
  {
    assert order[..|order|] == order;
    assert marked * Nodes(order[..0]) == {};
  }

  /** Settling one whole component. */
  lemma ComponentSettled<Msg(!new)>(net: Net<Msg>, before: seq<NodeData>, data: seq<NodeData>, data': seq<NodeData>,
                                    pubs: set<nat>, subs: set<nat>, s: nat, order: seq<nat>)
    requires Paired(net) && |before| == |data| == |data'| && s < |data| && !data[s].visited
    requires forall u :: 0 <= u < |data| ==> Progress(net, before, data, pubs, subs, u)
    requires forall v: nat :: v in order <==> v < |data| && Connected(net, s, v)
    requires forall v :: v in order ==>
      Settled(before[v], data'[v], v in pubs, v in subs, Required(net, |data|, pubs, subs, s))
    requires forall v :: 0 <= v < |data| && v !in order ==> data'[v] == data[v]
    ensures forall u :: 0 <= u < |data'| ==> Progress(net, before, data', pubs, subs, u)
    ensures data'[s].visited
    ensures forall u :: 0 <= u < |data| && data[u].visited ==> u !in order
    ensures forall v :: v in order ==> data'[v].visited
  {
    ConnectedSelf(net, s);
    forall v | v in order ensures !data[v].visited {
      assert Progress(net, before, data, pubs, subs, v);
      ComponentUntouched(net, before, data, pubs, subs, s, v);
    }
    forall u | 0 <= u < |data'| ensures Progress(net, before, data', pubs, subs, u) {
      assert Progress(net, before, data, pubs, subs, u);
      if u in order {
        RequiredTogether(net, |data|, pubs, subs, s, u);
        SameComponent(net, s, u);
      }
    }
  }

  /** Flagged, except that it may count as visited already. */
  ghost predicate Ready(before: NodeData, now: NodeData, publisher: bool, subscriber: bool) {
    now == before.(hasExternalPublisher := publisher, hasExternalSubscriber := subscriber, visited := now.visited)
  }

  /** The component of an unvisited node is as flagged at the start. */
  lemma ComponentReady<Msg(!new)>(net: Net<Msg>, before: seq<NodeData>, data: seq<NodeData>, data': seq<NodeData>,
                                  pubs: set<nat>, subs: set<nat>, s: nat, order: seq<nat>)
    requires Paired(net) && |before| == |data| == |data'| && s < |data| && !data[s].visited
    requires forall u :: 0 <= u < |data| ==> Progress(net, before, data, pubs, subs, u)
    requires forall v: nat :: v in order <==> v < |data| && Connected(net, s, v)
    requires data' == data[s := data[s].(visited := true)]
    ensures forall v :: v in order ==> Ready(before[v], data'[v], v in pubs, v in subs)
    ensures forall v :: v in order ==>
      data'[v].hasExternalPublisher == (v in pubs) && data'[v].hasExternalSubscriber == (v in subs)
    ensures forall v :: 0 <= v < |data| && v !in order ==> data'[v] == data[v]
  {
    ConnectedSelf(net, s);
    forall v | v in order ensures Flagged(before, data, pubs, subs, v) {
      assert Progress(net, before, data, pubs, subs, v);
      ComponentUntouched(net, before, data, pubs, subs, s, v);
    }
  }

  /** The component is what a traversal returns, so the counts are those of the component. */
  lemma CountedComponent<Msg(!new)>(net: Net<Msg>, n: nat, pubs: set<nat>, subs: set<nat>, s: nat, order: seq<nat>,
                                    required: bool)
    requires forall v: nat :: v in order <==> v < n && Connected(net, s, v)
    requires required ==
      RequireTranslation(|pubs * Nodes(order)|, |subs * Nodes(order)|, |(subs - pubs) * Nodes(order)|)
    ensures required == Required(net, n, pubs, subs, s)
  {
    assert Nodes(order) == Component(net, n, s);
  }

  /** An unvisited node has an unvisited component. */
  lemma ComponentUntouched<Msg(!new)>(net: Net<Msg>, before: seq<NodeData>, data: seq<NodeData>,
                                      pubs: set<nat>, subs: set<nat>, s: nat, v: nat)
    requires Paired(net) && |before| == |data| && s < |data| && v < |data| && !data[s].visited
    requires Progress(net, before, data, pubs, subs, v) && Connected(net, s, v)
    ensures Flagged(before, data, pubs, subs, v)
  {
    SameComponent(net, s, v);
    ConnectedSelf(net, s);
  }

  method BuildNodes<Msg(!new)>(namespaceName: string, topics: seq<Topic<Msg>>)
    returns (g: Graph<Msg>, nodeData: seq<NodeData>)
    ensures fresh(g) && g.Valid() && g.net == [] && |nodeData| == |g.buffers|
    ensures g.nodes.Keys == FullIdSet(namespaceName, Ids(topics))
    ensures forall u :: 0 <= u < |nodeData| ==> nodeData[u] == NodeData(false, false, None, None, false)
  {
    g := new Graph<Msg>();
    hide g.Valid, FullIdSet, FullId;
    NoFullIds(namespaceName);
    nodeData := [];
    assert topics[..0] == [];
    for i := 0 to |topics|
      invariant fresh(g) && g.Valid() && g.net == [] && |nodeData| == |g.buffers|
      invariant g.nodes.Keys == FullIdSet(namespaceName, Ids(topics[..i]))
      invariant forall u :: 0 <= u < |nodeData| ==> nodeData[u] == NodeData(false, false, None, None, false)
    {
      assert Ids(topics[..i + 1]) == Ids(topics[..i]) + [topics[i].id];
      FullIdSetMore(namespaceName, Ids(topics[..i]), topics[i].id);
      var added := g.AddNodeIfNotExists(FullId(namespaceName, topics[i].id), topics[i].messageBuffer);
      if added {
        nodeData := nodeData + [NodeData(false, false, None, None, false)];
      }
    }
    assert topics[..|topics|] == topics;
  }

  /** The flags and endpoints that these publishers and subscribers call for. */
  ghost predicate Reconciled<Msg(!new)>(net: Net<Msg>, data: seq<NodeData>, pubs: set<nat>, subs: set<nat>) {
    forall u :: 0 <= u < |data| ==>
      && data[u].visited
      && data[u].hasExternalPublisher == (u in pubs) && data[u].hasExternalSubscriber == (u in subs)
      && (data[u].publication.Some? <==> Required(net, |data|, pubs, subs, u) && u in subs)
      && (data[u].subscription.Some? <==> Required(net, |data|, pubs, subs, u) && u in pubs)
  }

  ghost predicate EndpointsKept(before: NodeData, after: NodeData) {
    && (before.publication.Some? && after.publication.Some? ==> after.publication == before.publication)
    && (before.subscription.Some? && after.subscription.Some? ==> after.subscription == before.subscription)
  }

  /** Which endpoints exist depends on the topics alone. */
  lemma OneOutcome<Msg(!new)>(net: Net<Msg>, a: seq<NodeData>, b: seq<NodeData>, pubs: set<nat>, subs: set<nat>)
    requires |a| == |b| && Reconciled(net, a, pubs, subs) && Reconciled(net, b, pubs, subs)
    ensures forall u :: 0 <= u < |a| ==>
      && !Created(a[u], b[u])
      && (EndpointsKept(a[u], b[u]) ==> a[u] == b[u])
  {
  }

  lemma NewEndpoints(before: seq<NodeData>, data: seq<NodeData>, first: nat, next: nat)
    requires AllKeptOrNew(before, data, first) && OwnHandles(data, next)
    ensures |before| == |data| && forall u :: 0 <= u < |data| ==>
      && (data[u].publication.Some? && data[u].publication != before[u].publication ==>
            first <= data[u].publication.value < next)
      && (data[u].subscription.Some? && data[u].subscription != before[u].subscription ==>
            first <= data[u].subscription.value < next)
  {
  }

  lemma FlaggedHandles(before: seq<NodeData>, next: nat, data: seq<NodeData>, pubs: set<nat>, subs: set<nat>)
    requires |before| == |data| && forall u :: 0 <= u < |data| ==> Flagged(before, data, pubs, subs, u)
    requires OwnHandles(before, next)
    ensures OwnHandles(data, next) && AllKeptOrNew(before, data, next)
  {
    forall u | 0 <= u < |data|
      ensures data[u].publication == before[u].publication && data[u].subscription == before[u].subscription
    {
      assert Flagged(before, data, pubs, subs, u);
    }
    hide Flagged, OwnHandles;
    SameHandles(before, next, data);
  }

  lemma StartProgress<Msg(!new)>(net: Net<Msg>, before: seq<NodeData>, data: seq<NodeData>, pubs: set<nat>,
                                 subs: set<nat>)
    requires |before| == |data| && forall u :: 0 <= u < |data| ==> Flagged(before, data, pubs, subs, u)
    ensures forall u :: 0 <= u < |data| ==> Progress(net, before, data, pubs, subs, u)
  {
    forall u | 0 <= u < |data| ensures Progress(net, before, data, pubs, subs, u) {
      assert Flagged(before, data, pubs, subs, u);
    }
  }

  lemma EndProgress<Msg(!new)>(net: Net<Msg>, before: seq<NodeData>, data: seq<NodeData>, pubs: set<nat>,
                               subs: set<nat>)
    requires |before| == |data|
    requires forall u :: 0 <= u < |data| ==> Progress(net, before, data, pubs, subs, u)
    requires forall u :: 0 <= u < |data| ==> data[u].visited
    ensures Reconciled(net, data, pubs, subs)
    ensures forall u :: 0 <= u < |data| ==> EndpointsKept(before[u], data[u])
    ensures Reconciled(net, before, pubs, subs) ==>
      data == before && !exists u :: 0 <= u < |data| && Created(before[u], data[u])
  {
    forall u | 0 <= u < |data|
      ensures Settled(before[u], data[u], u in pubs, u in subs, Required(net, |data|, pubs, subs, u))
    {
      assert Progress(net, before, data, pubs, subs, u);
    }
    if Reconciled(net, before, pubs, subs) {
      OneOutcome(net, before, data, pubs, subs);
    }
  }

  // ----- publishing -----

  ghost function Published<Msg>(calls: seq<Call<Msg>>, data: seq<NodeData>): seq<Call<Msg>>
    requires forall k :: 0 <= k < |calls| ==> calls[k].node < |data|
  {
    if calls == [] then []
    else
      var rest, last := Published(calls[..|calls| - 1], data), calls[|calls| - 1];
      if data[last.node].publication.Some? then rest + [last] else rest
  }

  lemma PublishedMore<Msg>(calls: seq<Call<Msg>>, k: nat, data: seq<NodeData>)
    requires forall k :: 0 <= k < |calls| ==> calls[k].node < |data|
    requires k < |calls|
    ensures Published(calls[..0], data) == []
    ensures Published(calls[..k + 1], data) == Published(calls[..k], data)
      + (if data[calls[k].node].publication.Some? then [calls[k]] else [])
  {
    assert calls[..k + 1][..k] == calls[..k];
  }

  /** The published calls are the calls at nodes with a publication. */
  lemma {:induction false} PublishedCalls<Msg>(calls: seq<Call<Msg>>, data: seq<NodeData>)
    requires forall k :: 0 <= k < |calls| ==> calls[k].node < |data|
    requires Distinct(CallNodes(calls))
    ensures var r := Published(calls, data);
      && (forall c :: c in r <==> c in calls && data[c.node].publication.Some?)
      && Distinct(CallNodes(r))
      && (forall v :: v in CallNodes(r) <==> v in CallNodes(calls) && data[v].publication.Some?)
    decreases |calls|
  {
    if calls != [] {
      var init, last := calls[..|calls| - 1], calls[|calls| - 1];
      assert calls == init + [last];
      CallNodesSnoc(init, last);
      PublishedCalls(init, data);
      CallNodesSnoc(Published(init, data), last);
    }
  }

  lemma CalledNodes<Msg(!new)>(source: nat, before: seq<Msg>, buffers: seq<Msg>, visited: seq<bool>,
                               calls: seq<Call<Msg>>)
    requires Consistent(source, before, buffers, visited, calls, [], [])
    ensures Distinct(CallNodes(calls)) && |buffers| == |before|
    ensures forall k :: 0 <= k < |calls| ==> calls[k].node < |before|
  {
  }

  /** Once reconciled, a publisher's message goes to exactly the subscribers of the other nodes of its component. */
  lemma Delivery<Msg(!new)>(net: Net<Msg>, data: seq<NodeData>, pubs: set<nat>, subs: set<nat>, node: nat, v: nat)
    requires Paired(net) && Reconciled(net, data, pubs, subs)
    requires node < |data| && v < |data| && node in pubs && v != node && Connected(net, node, v)
    ensures data[v].publication.Some? <==> v in subs
    ensures v in subs ==> data[node].subscription.Some?
  {
    RequiredTogether(net, |data|, pubs, subs, node, v);
    RequiredMeaning(net, |data|, pubs, subs, node);
    ConnectedSelf(net, node);
    if v in subs {
      assert node in Component(net, |data|, node) && v in Component(net, |data|, node);
    }
  }

  class PubSubGraph<Msg(!new)> {
    const graph: Graph<Msg>
    var data: seq<NodeData>     // by node index
    var nextHandle: nat         // what the factories return next

    ghost predicate Valid()
      reads this, graph
    {
      graph.Valid() && |data| == |graph.buffers| && Paired(graph.net) && OwnHandles(data, nextHandle)
    }

    /** A node for each topic and the registered translations between them. */
    constructor (namespaceName: string, topics: seq<Topic<Msg>>, translations: seq<TopicTranslation<Msg>>)
      requires InPairs(translations)
      requires forall k :: 0 <= k < |translations| ==> Acceptable(Ids(topics), translations[k])
      ensures Valid() && fresh(graph)
      ensures graph.nodes.Keys == FullIdSet(namespaceName, Ids(topics))
      ensures NetOf(graph.net, graph.nodes, namespaceName, translations, |translations|)
      ensures forall u :: 0 <= u < |data| ==> data[u] == NodeData(false, false, None, None, false)
    {
      hide OwnHandles, InPairs, Paired, NetOf, FullIdSet, Acceptable, graph.Valid;
      var g, nodeData := BuildNodes(namespaceName, topics);
      NoHandles(nodeData);
      BuildTranslations(g, namespaceName, Ids(topics), translations);
      PairsArePaired(g.net, g.nodes, namespaceName, translations);
      graph, data, nextHandle := g, nodeData, 0;
    }

    /** Count publishers and subscribers in the component of a node. */
    method CountExternal(order: seq<nat>, ghost pubs: set<nat>, ghost subs: set<nat>) returns (required: bool)
      requires Distinct(order) && forall v :: v in order ==> v < |data|
      requires forall v :: v in order ==>
        data[v].hasExternalPublisher == (v in pubs) && data[v].hasExternalSubscriber == (v in subs)
      ensures required ==
        RequireTranslation(|pubs * Nodes(order)|, |subs * Nodes(order)|, |(subs - pubs) * Nodes(order)|)
    {
      hide Distinct, Nodes, MarkedCount;
      CountAll(order, pubs);
      CountAll(order, subs);
      CountAll(order, subs - pubs);
      var numPublishers, numSubscribers, numSubscribersWithoutPublisher := 0, 0, 0;
      for j := 0 to |order|
        invariant numPublishers == MarkedCount(order, j, pubs)
        invariant numSubscribers == MarkedCount(order, j, subs)
        invariant numSubscribersWithoutPublisher == MarkedCount(order, j, subs - pubs)
      {
        CountOne(order, j, pubs);
        CountOne(order, j, subs);
        CountOne(order, j, subs - pubs);
        assert order[j] in order;
        var node := data[order[j]];
        if node.hasExternalPublisher {
          numPublishers := numPublishers + 1;
        }
        if node.hasExternalSubscriber {
          numSubscribers := numSubscribers + 1;
          if !node.hasExternalPublisher {
            numSubscribersWithoutPublisher := numSubscribersWithoutPublisher + 1;
          }
        }
      }
      required := RequireTranslation(numPublishers, numSubscribers, numSubscribersWithoutPublisher);
    }

    /** Create or remove the publication and the subscription of one node. */
    method SettleNode(v: nat, required: bool, ghost before: NodeData, ghost publisher: bool, ghost subscriber: bool)
      requires v < |data| && Ready(before, data[v], publisher, subscriber) && OwnHandles(data, nextHandle)
      modifies `data, `nextHandle
      ensures |data| == |old(data)| && data == old(data)[v := data[v]]
      ensures OwnHandles(data, nextHandle) && old(nextHandle) <= nextHandle
      ensures KeptOrNew(before, data[v], old(nextHandle))
      ensures Settled(before, data[v], publisher, subscriber, required)
      ensures nextHandle == old(nextHandle) || Created(before, data[v])
    {
      hide OwnHandles, Handles;
      var node := data[v].(visited := true);
      if required {
        if node.hasExternalSubscriber && node.publication.None? {
          node := node.(publication := Some(nextHandle));
          nextHandle := nextHandle + 1;
        } else if !node.hasExternalSubscriber && node.publication.Some? {
          node := node.(publication := None);
        }
        if node.hasExternalPublisher && node.subscription.None? {
          node := node.(subscription := Some(nextHandle));
          nextHandle := nextHandle + 1;
        } else if !node.hasExternalPublisher && node.subscription.Some? {
          node := node.(subscription := None);
        }
      } else {
        if node.publication.Some? {
          node := node.(publication := None);
        }
        if node.subscription.Some? {
          node := node.(subscription := None);
        }
      }
      OwnBelow(data, old(nextHandle), v);
      OneMoreNode(data, old(nextHandle), v, node, nextHandle);
      data := data[v := node];
    }

    /** No two endpoints share a handle. */
    lemma EndpointsApart(u: nat, v: nat)
      requires Valid() && u < |data| && v < |data|
      ensures data[u].publication.Some? ==> data[u].publication != data[v].subscription
      ensures data[u].publication.Some? && u != v ==> data[u].publication != data[v].publication
      ensures data[u].subscription.Some? && u != v ==> data[u].subscription != data[v].subscription
    {
      var a, b := Handles(data[u]), Handles(data[v]);
      assert data[u].publication.Some? ==> data[u].publication.value in a;
      assert data[u].subscription.Some? ==> data[u].subscription.value in a;
      assert u != v ==> a !! b;
    }

    lemma GraphNodes()
      requires Valid()
      ensures forall id :: id in graph.nodes ==> graph.nodes[id] < |data|
    {
    }

    /** Set the flags of the known topics and clear all others. */
    method MarkTopics(topics: seq<TopicInfo>)
      requires Valid()
      modifies `data
      ensures |data| == |old(data)|
      ensures forall u :: 0 <= u < |data| ==>
        Flagged(old(data), data, Publishers(graph.nodes, topics), Subscribers(graph.nodes, topics), u)
    {
      hide Publishers, Subscribers;
      NoTopics(graph.nodes);
      GraphNodes();
      var marked := Cleared(data);
      assert topics[..0] == [];
      for k := 0 to |topics|
        invariant data == old(data) && |marked| == |data|
        invariant forall u :: 0 <= u < |data| ==>
          Flagged(data, marked, Publishers(graph.nodes, topics[..k]), Subscribers(graph.nodes, topics[..k]), u)
      {
        MarkOne(graph.nodes, topics, k);
        ghost var marked0 := marked;
        if topics[k].id in graph.nodes {
          var u := graph.nodes[topics[k].id];
          if topics[k].numPublishers > 0 {
            marked := marked[u := marked[u].(hasExternalPublisher := true)];
          }
          if topics[k].numSubscribers > 0 {
            marked := marked[u := marked[u].(hasExternalSubscriber := true)];
          }
        }
        ghost var pubs, subs := Publishers(graph.nodes, topics[..k + 1]), Subscribers(graph.nodes, topics[..k + 1]);
        forall u | 0 <= u < |data| ensures Flagged(data, marked, pubs, subs, u) {
          assert Flagged(data, marked0, Publishers(graph.nodes, topics[..k]), Subscribers(graph.nodes, topics[..k]), u);
        }
      }
      assert topics[..|topics|] == topics;
      data := marked;
    }

    /** Settle all nodes of a component. */
    method SettleAll(order: seq<nat>, required: bool, ghost before: seq<NodeData>, ghost pubs: set<nat>,
                     ghost subs: set<nat>)
      requires |data| == |before| && Distinct(order) && forall v :: v in order ==> v < |data|
      requires forall v :: v in order ==> Ready(before[v], data[v], v in pubs, v in subs)
      requires OwnHandles(data, nextHandle)
      modifies `data, `nextHandle
      ensures |data| == |old(data)| && forall v :: 0 <= v < |data| && v !in order ==> data[v] == old(data)[v]
      ensures OwnHandles(data, nextHandle) && old(nextHandle) <= nextHandle
      ensures forall v :: v in order ==> KeptOrNew(before[v], data[v], old(nextHandle))
      ensures forall v :: v in order ==> Settled(before[v], data[v], v in pubs, v in subs, required)
      ensures nextHandle == old(nextHandle) || exists v :: v in order && Created(before[v], data[v])
    {
      hide Settled, Ready, Created, OwnHandles, KeptOrNew;
      ListedBelow(order, |before|);
      for j := 0 to |order|
        invariant |data| == |before| && OwnHandles(data, nextHandle) && old(nextHandle) <= nextHandle
        invariant forall i :: 0 <= i < j ==> KeptOrNew(before[order[i]], data[order[i]], old(nextHandle))
        invariant forall v :: 0 <= v < |data| && v !in order[..j] ==> data[v] == old(data)[v]
        invariant forall i :: 0 <= i < j ==>
          Settled(before[order[i]], data[order[i]], order[i] in pubs, order[i] in subs, required)
        invariant nextHandle == old(nextHandle) || exists i :: 0 <= i < j && Created(before[order[i]], data[order[i]])
      {
        var v := order[j];
        assert v in order && v !in order[..j];
        ghost var first := nextHandle;
        SettleNode(v, required, before[v], v in pubs, v in subs);
        NewerIsNew(before[v], data[v], first, old(nextHandle));
      }
      assert order[..|order|] == order;
    }

    /** Settle the component of an unvisited node. */
    method SettleComponent(s: nat, ghost before: seq<NodeData>, ghost pubs: set<nat>, ghost subs: set<nat>,
                           ghost first: nat)
      requires Valid() && s < |data| == |before| && !data[s].visited
      requires forall u :: 0 <= u < |data| ==> Progress(graph.net, before, data, pubs, subs, u)
      requires first <= nextHandle && AllKeptOrNew(before, data, first)
      modifies `data, `nextHandle, graph`visited
      ensures Valid() && |data| == |before| && data[s].visited
      ensures first <= nextHandle && AllKeptOrNew(before, data, first)
      ensures forall u :: 0 <= u < |data| && old(data)[u].visited ==> data[u].visited && data[u] == old(data)[u]
      ensures forall u :: 0 <= u < |data| ==> Progress(graph.net, before, data, pubs, subs, u)
      ensures nextHandle == old(nextHandle)
        || exists u :: 0 <= u < |data| && data[u].visited && Created(before[u], data[u])
    {
      hide Connected, Paired, Required, Created, Progress, Flagged, Settled, Ready, Nodes, Distinct, graph.Valid;
      hide OwnHandles, KeptOrNew, AllKeptOrNew, RequireTranslation, Component;
      ghost var data0, net := data, graph.net;
      data := data[s := data[s].(visited := true)];
      SameHandles(data0, nextHandle, data);
      var order := graph.IterateBFS(s);
      ConnectedSelf(net, s);
      ComponentReady(net, before, data0, data, pubs, subs, s, order);
      var required := CountExternal(order, pubs, subs);
      CountedComponent(net, |data|, pubs, subs, s, order, required);
      var again := graph.IterateBFS(s);
      ghost var next := nextHandle;
      SettleAll(again, required, before, pubs, subs);
      SomeMoreNodes(before, data0, data, again, next, first);
      ComponentSettled(net, before, data0, data, pubs, subs, s, again);
    }

    /** The nodes are visited in the order of an unordered map, so order may be any of them. */
    method UpdateCurrentTopics(topics: seq<TopicInfo>, order: seq<nat>)
      requires Valid() && forall u: nat :: u < |data| <==> u in order
      modifies `data, `nextHandle, graph`visited
      ensures Valid() && |data| == |old(data)|
      ensures var pubs, subs := Publishers(graph.nodes, topics), Subscribers(graph.nodes, topics);
        && Reconciled(graph.net, data, pubs, subs)
        && (Reconciled(graph.net, old(data), pubs, subs) ==> data == old(data) && nextHandle == old(nextHandle))
      ensures forall u :: 0 <= u < |data| ==> EndpointsKept(old(data)[u], data[u])
      ensures forall u :: 0 <= u < |data| ==>
        && (data[u].publication.Some? && data[u].publication != old(data)[u].publication ==>
              old(nextHandle) <= data[u].publication.value < nextHandle)
        && (data[u].subscription.Some? && data[u].subscription != old(data)[u].subscription ==>
              old(nextHandle) <= data[u].subscription.value < nextHandle)
    {
      hide Publishers, Subscribers, Paired, Progress, Flagged, Reconciled, Created, EndpointsKept, graph.Valid;
      hide OwnHandles, KeptOrNew, AllKeptOrNew;
      ghost var net, before := graph.net, data;
      ghost var pubs, subs := Publishers(graph.nodes, topics), Subscribers(graph.nodes, topics);
      MarkTopics(topics);
      FlaggedHandles(before, nextHandle, data, pubs, subs);
      StartProgress(net, before, data, pubs, subs);
      for k := 0 to |order|
        invariant Valid() && |data| == |before| && old(nextHandle) <= nextHandle
        invariant AllKeptOrNew(before, data, old(nextHandle))
        invariant forall u :: 0 <= u < |data| ==> Progress(net, before, data, pubs, subs, u)
        invariant forall i :: 0 <= i < k ==> order[i] < |data| && data[order[i]].visited
        invariant nextHandle == old(nextHandle)
          || exists u :: 0 <= u < |data| && data[u].visited && Created(before[u], data[u])
      {
        assert order[k] in order;
        if data[order[k]].visited {
          continue;
        }
        SettleComponent(order[k], before, pubs, subs, old(nextHandle));
      }
      forall u | 0 <= u < |data| ensures data[u].visited {
        assert u in order;
      }
      EndProgress(net, before, data, pubs, subs);
      NewEndpoints(before, data, old(nextHandle), nextHandle);
    }

    method PublishAll(calls: seq<Call<Msg>>) returns (published: seq<Call<Msg>>)
      requires forall k :: 0 <= k < |calls| ==> calls[k].node < |data|
      ensures published == Published(calls, data)
    {
      published := [];
      for k := 0 to |calls|
        invariant published == Published(calls[..k], data)
      {
        PublishedMore(calls, k, data);
        if data[calls[k].node].publication.Some? {
          published := published + [calls[k]];
        }
      }
      assert calls[..|calls|] == calls;
    }

    /**
     * Pass the translated messages of a node on to the publications: to those whose nodes the fired
     * translations write, with what the translations leave there.
     */
    method OnSubscriptionUpdate(node: nat) returns (published: seq<Call<Msg>>, ghost fired: seq<nat>)
      requires Valid() && node < |data|
      modifies graph`visited, graph`buffers, graph`inputsReady, graph`events
      ensures Valid()
      ensures FiredIn(graph.events) == old(FiredIn(graph.events)) + fired && Apart(graph.net, fired)
      ensures WellFormed(graph.net, |old(graph.buffers)|)
      ensures Distinct(CallNodes(published))
      ensures forall v: nat :: v in CallNodes(published) <==>
        v < |data| && data[v].publication.Some? && WrittenBy(graph.net, fired, v)
      ensures forall k :: 0 <= k < |published| ==>
        && published[k].node < |old(graph.buffers)|
        && published[k].message == Replay(graph.net, old(graph.buffers), fired)[published[k].node]
      ensures SingleInputOutput(graph.net) ==>
        && (forall v: nat :: v in CallNodes(published) <==>
              v < |data| && data[v].publication.Some? && v != node && Connected(graph.net, node, v))
        && (forall k :: 0 <= k < |published| ==>
              ShortestPathValue(graph.net, node, published[k].node, old(graph.buffers), published[k].message))
    {
      hide Connected, ShortestPathValue, FiredApart, Paired, Consistent, Reachable, Published;
      hide SingleInputOutput, Replay;
      hide Apart, WrittenBy, graph.Valid;
      ghost var net, before := graph.net, graph.buffers;
      var calls;
      calls, fired := graph.Translate(node);
      CalledNodes(node, before, graph.buffers, graph.visited, calls);
      published := PublishAll(calls);
      PublishedCalls(calls, data);
      PublishedAre(net, node, before, graph.buffers, graph.visited, calls, fired, data, published);
      if SingleInputOutput(net) {
        forall v: nat ensures Reachable(net, node, v) <==> Connected(net, node, v) {
          ReachableIsConnected(net, node, v);
        }
      }
    }
  }

  /** The publications of the nodes written by these firings get, once each, what the buffers hold for them. */
  lemma PublishedAre<Msg(!new)>(net: Net<Msg>, source: nat, before: seq<Msg>, buffers: seq<Msg>, visited: seq<bool>,
                                calls: seq<Call<Msg>>, fired: seq<nat>, data: seq<NodeData>, published: seq<Call<Msg>>)
    requires Consistent(source, before, buffers, visited, calls, [], []) && |data| == |before|
    requires FiredApart(net, fired, CallNodes(calls)) && Distinct(CallNodes(published))
    requires forall k :: 0 <= k < |calls| ==> calls[k].node < |data|
    requires forall c :: c in published <==> c in calls && data[c.node].publication.Some?
    requires forall v :: v in CallNodes(published) <==> v in CallNodes(calls) && data[v].publication.Some?
    ensures Apart(net, fired) && Distinct(CallNodes(published))
    ensures forall v: nat :: v in CallNodes(published) <==>
      v < |data| && data[v].publication.Some? && WrittenBy(net, fired, v)
    ensures forall k :: 0 <= k < |published| ==>
      published[k].node < |buffers| && published[k].message == buffers[published[k].node]
  {
    hide Apart, Distinct;
    forall k | 0 <= k < |published|
      ensures published[k].node < |buffers| && published[k].message == buffers[published[k].node]
    {
      assert published[k] in calls;
    }
    forall v: nat ensures v in CallNodes(calls) <==> WrittenBy(net, fired, v) {
    }
  }
}
