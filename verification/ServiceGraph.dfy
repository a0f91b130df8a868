/** The service proxy: requests forwarded to a client, responses sent back, stale requests dropped. */
module ServiceGraph {
  import opened GraphComponents
  import opened GraphPaths
  import opened Registration
  import opened Results
  import opened TranslationGraph

  /** rmw_request_id_t */
  datatype RequestId = RequestId(writerGuid: seq<int>, sequenceNumber: int)

  /** kRequestTimeout, in nanoseconds. */
  const REQUEST_TIMEOUT := 20_000_000_000

  /** An entry of ongoing_requests: the node that owns the client, and the client's sequence number. */
  datatype Key = Key(node: nat, sequence: int)

  datatype Request = Request(originalRequestId: RequestId, originalNode: nat, timestampReceived: int)

  datatype Endpoints = Endpoints(client: bool, service: bool)

  // ----- the fate of each request -----

  datatype Arrival = Arrival(node: nat, id: RequestId)

  datatype Status = Unforwarded | Pending(key: Key) | Answered | Discarded | TimedOut | Overwritten

  datatype Forward = Forward(arrival: nat, key: Key)

  /** A response handed to a service, for the request with this arrival number. */
  datatype Answer = Answer(arrival: nat, service: nat, id: RequestId)

  datatype History = History(
    requests: seq<Arrival>,
    status: seq<Status>,
    holder: map<Key, nat>,     // the arrival that each ongoing entry belongs to
    forwards: seq<Forward>,
    answers: seq<Answer>
  )

  function Count(status: seq<Status>, s: Status): nat {
    if status == [] then 0
    else Count(status[..|status| - 1], s) + (if status[|status| - 1] == s then 1 else 0)
  }

  lemma {:induction false} CountUpdate(status: seq<Status>, a: nat, x: Status, s: Status)
    requires a < |status|
    ensures Count(status[a := x], s)
      == Count(status, s) + (if x == s then 1 else 0) - (if status[a] == s then 1 else 0)
    decreases |status|
  {
    var n := |status| - 1;
    if a == n {
      assert status[a := x][..n] == status[..n];
    } else {
      assert status[a := x][..n] == status[..n][a := x];
      CountUpdate(status[..n], a, x, s);
    }
  }

  lemma CountSnoc(status: seq<Status>, x: Status, s: Status)
    ensures Count(status + [x], s) == Count(status, s) + (if x == s then 1 else 0)
  {
    assert (status + [x])[..|status|] == status;
  }

  /** Requests that were forwarded and are no longer pending. */
  function Closed(status: seq<Status>): nat {
    Count(status, Answered) + Count(status, Discarded) + Count(status, TimedOut) + Count(status, Overwritten)
  }

  /** Each ongoing entry belongs to the one pending request that it describes. */
  ghost predicate Holds(ongoing: map<Key, Request>, h: History) {
    && |h.status| == |h.requests| && h.holder.Keys == ongoing.Keys
    && (forall k :: k in ongoing ==> HoldsOne(ongoing, h, k))
    && (forall a :: 0 <= a < |h.status| && h.status[a].Pending? ==>
          h.status[a].key in h.holder && h.holder[h.status[a].key] == a)
  }

  ghost predicate HoldsOne(ongoing: map<Key, Request>, h: History, k: Key)
    requires k in ongoing && |h.status| == |h.requests| && h.holder.Keys == ongoing.Keys
  {
    var a := h.holder[k];
    && a < |h.requests| && h.status[a] == Pending(k)
    && ongoing[k].originalRequestId == h.requests[a].id && ongoing[k].originalNode == h.requests[a].node
  }

  /** No request is forwarded twice. */
  ghost predicate ForwardedOnce(h: History) {
    && (forall i :: 0 <= i < |h.forwards| ==>
          var a := h.forwards[i].arrival; a < |h.status| && !h.status[a].Unforwarded?)
    && (forall i, j :: 0 <= i < j < |h.forwards| ==> h.forwards[i].arrival != h.forwards[j].arrival)
  }

  /** No request is answered twice, and every answer goes where the request came from, with its identifier. */
  ghost predicate AnsweredOnce(h: History) {
    && |h.status| == |h.requests|
    && (forall i :: 0 <= i < |h.answers| ==>
          var x := h.answers[i];
          && x.arrival < |h.status| && h.status[x.arrival] == Answered
          && h.requests[x.arrival] == Arrival(x.service, x.id))
    && (forall i, j :: 0 <= i < j < |h.answers| ==> h.answers[i].arrival != h.answers[j].arrival)
  }

  /** Every forwarded request is pending or closed, in one way. */
  ghost predicate Conserved(ongoing: map<Key, Request>, h: History) {
    && |h.forwards| == |ongoing| + Closed(h.status)
    && |h.answers| == Count(h.status, Answered)
  }

  ghost predicate Ledger(ongoing: map<Key, Request>, h: History) {
    Holds(ongoing, h) && ForwardedOnce(h) && AnsweredOnce(h) && Conserved(ongoing, h)
  }

  // ----- the ledger, step by step -----

  function Arrived(h: History, r: Arrival): History {
    h.(requests := h.requests + [r], status := h.status + [Unforwarded])
  }

  lemma ArriveKeeps(ongoing: map<Key, Request>, h: History, r: Arrival)
    requires Ledger(ongoing, h)
    ensures Ledger(ongoing, Arrived(h, r))
  {
    var h' := Arrived(h, r);
    forall k | k in ongoing ensures HoldsOne(ongoing, h', k) {
      assert HoldsOne(ongoing, h, k);
    }
    CountSnoc(h.status, Unforwarded, Answered);
    CountSnoc(h.status, Unforwarded, Discarded);
    CountSnoc(h.status, Unforwarded, TimedOut);
    CountSnoc(h.status, Unforwarded, Overwritten);
  }

  /** A forward that reuses the key of an ongoing entry takes its place. */
  function ForwardStep(h: History, a: nat, key: Key): History
    requires a < |h.status| && forall k :: k in h.holder ==> h.holder[k] < |h.status|
  {
    var freed := if key in h.holder then h.status[h.holder[key] := Overwritten] else h.status;
    h.(status := freed[a := Pending(key)], holder := h.holder[key := a], forwards := h.forwards + [Forward(a, key)])
  }

  /** A response or the timeout closes an entry. */
  function CloseStep(h: History, key: Key, outcome: Status, answer: seq<Answer>): History
    requires key in h.holder && h.holder[key] < |h.status|
  {
    h.(status := h.status[h.holder[key] := outcome], holder := h.holder - {key}, answers := h.answers + answer)
  }

  lemma CloseCounts(status: seq<Status>, a: nat, x: Status)
    requires a < |status|
    ensures Closed(status[a := x])
      == Closed(status) + (if IsClosed(x) then 1 else 0) - (if IsClosed(status[a]) then 1 else 0)
    ensures Count(status[a := x], Answered)
      == Count(status, Answered) + (if x == Answered then 1 else 0) - (if status[a] == Answered then 1 else 0)
  {
    CountUpdate(status, a, x, Answered);
    CountUpdate(status, a, x, Discarded);
    CountUpdate(status, a, x, TimedOut);
    CountUpdate(status, a, x, Overwritten);
  }

  predicate IsClosed(s: Status) {
    s == Answered || s == Discarded || s == TimedOut || s == Overwritten
  }

  function AnswerOf(ongoing: map<Key, Request>, h: History, key: Key, outcome: Status): seq<Answer>
    requires key in ongoing && key in h.holder
  {
    if outcome != Answered then []
    else [Answer(h.holder[key], ongoing[key].originalNode, ongoing[key].originalRequestId)]
  }

  lemma CloseHolds(ongoing: map<Key, Request>, h: History, key: Key, outcome: Status, answer: seq<Answer>)
    requires Holds(ongoing, h) && key in ongoing && IsClosed(outcome)
    ensures h.holder[key] < |h.status| && Holds(ongoing - {key}, CloseStep(h, key, outcome, answer))
  {
    assert HoldsOne(ongoing, h, key);
    var h', less := CloseStep(h, key, outcome, answer), ongoing - {key};
    forall k | k in less ensures HoldsOne(less, h', k) {
      assert HoldsOne(ongoing, h, k);
    }
  }

  lemma CloseLogs(ongoing: map<Key, Request>, h: History, key: Key, outcome: Status)
    requires Holds(ongoing, h) && ForwardedOnce(h) && AnsweredOnce(h) && key in ongoing && IsClosed(outcome)
    ensures h.holder[key] < |h.status|
    ensures var h' := CloseStep(h, key, outcome, AnswerOf(ongoing, h, key, outcome));
      ForwardedOnce(h') && AnsweredOnce(h')
  {
    assert HoldsOne(ongoing, h, key);
  }

  lemma CloseConserves(ongoing: map<Key, Request>, h: History, key: Key, outcome: Status)
    requires Holds(ongoing, h) && Conserved(ongoing, h) && key in ongoing && IsClosed(outcome)
    ensures h.holder[key] < |h.status|
    ensures Conserved(ongoing - {key}, CloseStep(h, key, outcome, AnswerOf(ongoing, h, key, outcome)))
  {
    assert HoldsOne(ongoing, h, key);
    hide Holds, HoldsOne, Count, Closed;
    CloseCounts(h.status, h.holder[key], outcome);
    SizeLess(ongoing, key);
  }

  lemma SizeLess<K, V>(m: map<K, V>, k: K)
    requires k in m
    ensures |m - {k}| == |m| - 1
  {
    assert (m - {k}).Keys == m.Keys - {k};
    assert m.Keys == (m.Keys - {k}) + {k};
  }

  lemma SizeMore<K, V>(m: map<K, V>, k: K, v: V)
    ensures |m[k := v]| == |m| + (if k in m then 0 else 1)
  {
    assert m[k := v].Keys == m.Keys + {k};
  }

  lemma CloseKeeps(ongoing: map<Key, Request>, h: History, key: Key, outcome: Status)
    requires Ledger(ongoing, h) && key in ongoing && IsClosed(outcome)
    ensures h.holder[key] < |h.status|
    ensures Ledger(ongoing - {key}, CloseStep(h, key, outcome, AnswerOf(ongoing, h, key, outcome)))
  {
    CloseHolds(ongoing, h, key, outcome, AnswerOf(ongoing, h, key, outcome));
    CloseLogs(ongoing, h, key, outcome);
    CloseConserves(ongoing, h, key, outcome);
  }

  lemma HolderStatus(ongoing: map<Key, Request>, h: History)
    requires Holds(ongoing, h)
    ensures forall k :: k in h.holder ==> h.holder[k] < |h.status| && h.status[h.holder[k]] == Pending(k)
  {
    forall k | k in h.holder ensures h.holder[k] < |h.status| && h.status[h.holder[k]] == Pending(k) {
      assert HoldsOne(ongoing, h, k);
    }
  }

  lemma ForwardHolds(ongoing: map<Key, Request>, h: History, a: nat, key: Key, r: Request)
    requires Holds(ongoing, h) && a < |h.status| && h.status[a] == Unforwarded
    requires h.requests[a] == Arrival(r.originalNode, r.originalRequestId)
    ensures (forall k :: k in h.holder ==> h.holder[k] < |h.status|) && Holds(ongoing[key := r], ForwardStep(h, a, key))
  {
    HolderStatus(ongoing, h);
    var h', more := ForwardStep(h, a, key), ongoing[key := r];
    forall k | k in more ensures HoldsOne(more, h', k) {
      if k != key {
        assert HoldsOne(ongoing, h, k);
      }
    }
  }

  lemma ForwardLogs(ongoing: map<Key, Request>, h: History, a: nat, key: Key)
    requires Holds(ongoing, h) && ForwardedOnce(h) && AnsweredOnce(h) && a < |h.status| && h.status[a] == Unforwarded
    ensures forall k :: k in h.holder ==> h.holder[k] < |h.status|
    ensures ForwardedOnce(ForwardStep(h, a, key)) && AnsweredOnce(ForwardStep(h, a, key))
  {
    HolderStatus(ongoing, h);
  }

  lemma ForwardConserves(ongoing: map<Key, Request>, h: History, a: nat, key: Key, r: Request)
    requires Holds(ongoing, h) && Conserved(ongoing, h) && a < |h.status| && h.status[a] == Unforwarded
    ensures (forall k :: k in h.holder ==> h.holder[k] < |h.status|)
    ensures Conserved(ongoing[key := r], ForwardStep(h, a, key))
    ensures Count(ForwardStep(h, a, key).status, Overwritten)
      == Count(h.status, Overwritten) + (if key in ongoing then 1 else 0)
  {
    HolderStatus(ongoing, h);
    hide Count, HoldsOne, Closed;
    var freed := if key in h.holder then h.status[h.holder[key] := Overwritten] else h.status;
    if key in h.holder {
      CloseCounts(h.status, h.holder[key], Overwritten);
      CountUpdate(h.status, h.holder[key], Overwritten, Overwritten);
    }
    CloseCounts(freed, a, Pending(key));
    CountUpdate(freed, a, Pending(key), Overwritten);
    SizeMore(ongoing, key, r);
  }

  lemma ForwardKeeps(ongoing: map<Key, Request>, h: History, a: nat, key: Key, r: Request)
    requires Ledger(ongoing, h) && a < |h.status| && h.status[a] == Unforwarded
    requires h.requests[a] == Arrival(r.originalNode, r.originalRequestId)
    ensures (forall k :: k in h.holder ==> h.holder[k] < |h.status|)
    ensures Ledger(ongoing[key := r], ForwardStep(h, a, key))
    ensures Count(ForwardStep(h, a, key).status, Overwritten)
      == Count(h.status, Overwritten) + (if key in ongoing then 1 else 0)
  {
    ForwardHolds(ongoing, h, a, key, r);
    ForwardLogs(ongoing, h, a, key);
    ForwardConserves(ongoing, h, a, key, r);
  }

  /** What has happened stays: closed requests, forwards and answers are never revised. */
  ghost predicate Later(h: History, h': History) {
    && h.requests <= h'.requests && h.forwards <= h'.forwards && h.answers <= h'.answers
    && |h.status| <= |h'.status|
    && forall a :: 0 <= a < |h.status| && IsClosed(h.status[a]) ==> h'.status[a] == h.status[a]
  }

  lemma LaterTransitive(a: History, b: History, c: History)
    requires Later(a, b) && Later(b, c)
    ensures Later(a, c)
  {
  }

  lemma CloseIsLater(ongoing: map<Key, Request>, h: History, key: Key, outcome: Status, answer: seq<Answer>)
    requires Holds(ongoing, h) && key in ongoing
    ensures h.holder[key] < |h.status| && Later(h, CloseStep(h, key, outcome, answer))
  {
    assert HoldsOne(ongoing, h, key);
  }

  lemma ForwardIsLater(ongoing: map<Key, Request>, h: History, r: Arrival, key: Key)
    requires Holds(ongoing, h)
    ensures Later(h, Arrived(h, r))
    ensures forall k :: k in h.holder ==> h.holder[k] < |h.status|
    ensures Later(h, ForwardStep(Arrived(h, r), |h.requests|, key))
  {
    HolderStatus(ongoing, h);
  }

  // ----- requests and responses on mirrored graphs -----

  /** The same translations between the same nodes, with other callbacks. */
  ghost predicate SameShape<Msg(!new)>(a: Net<Msg>, b: Net<Msg>) {
    && |a| == |b|
    && forall t :: 0 <= t < |a| ==> a[t].inputs == b[t].inputs && a[t].outputs == b[t].outputs
  }

  lemma {:induction false} SameWalks<Msg(!new)>(a: Net<Msg>, b: Net<Msg>, w: Walk)
    requires SameShape(a, b) && IsWalk(a, w)
    ensures IsWalk(b, w)
    decreases w
  {
    if w.Extend? {
      SameWalks(a, b, w.walk);
      var t :| 0 <= t < |a| && w.walk.node in a[t].inputs && w.node in a[t].outputs;
      assert w.walk.node in b[t].inputs && w.node in b[t].outputs;
    }
  }

  /** Where a request got, its response can get back from. */
  lemma WayBack<Msg(!new)>(requests: Net<Msg>, responses: Net<Msg>, s: nat, v: nat)
    requires SingleInputOutput(requests) && SingleInputOutput(responses)
    requires Paired(requests) && SameShape(requests, responses) && Reachable(requests, s, v)
    ensures Reachable(responses, v, s)
  {
    ReachableIsConnected(requests, s, v);
    SameComponent(requests, s, v);
    ConnectedSelf(requests, s);
    assert Connected(requests, v, s);
    var w :| IsWalk(requests, w) && First(w) == v && w.node == s;
    SameWalks(requests, responses, w);
    ReachableIsConnected(responses, v, s);
  }

  /** Direct translations, each with its reverse, the same for requests and responses. */
  ghost predicate Mirrored<Msg(!new)>(requests: Net<Msg>, responses: Net<Msg>) {
    && SingleInputOutput(requests) && SingleInputOutput(responses)
    && Paired(requests) && SameShape(requests, responses)
  }

  /** The registered translations of requests and responses mirror each other. */
  lemma RegisteredMirror<Msg(!new)>(requests: Net<Msg>, responses: Net<Msg>, nodes: map<MessageIdentifier, nat>,
                                    namespaceName: string, ids: seq<MessageIdentifier>,
                                    requestTranslations: seq<TopicTranslation<Msg>>,
                                    responseTranslations: seq<TopicTranslation<Msg>>)
    requires ServicesInPairs(ids, requestTranslations, responseTranslations)
    requires NetOf(requests, nodes, namespaceName, requestTranslations, |requestTranslations|)
    requires NetOf(responses, nodes, namespaceName, responseTranslations, |responseTranslations|)
    ensures Mirrored(requests, responses)
  {
    PairsArePaired(requests, nodes, namespaceName, requestTranslations);
    hide InPairs, Paired, Acceptable;
    forall k | 0 <= k < |requests|
      ensures |requests[k].inputs| == |requests[k].outputs| == 1
      ensures requests[k].inputs == responses[k].inputs && requests[k].outputs == responses[k].outputs
    {
      assert NetAt(requests, nodes, namespaceName, requestTranslations, k);
      assert NetAt(responses, nodes, namespaceName, responseTranslations, k);
      assert SameEnds(ids, requestTranslations[k], responseTranslations[k]);
    }
  }

  lemma AllAcceptable<Msg(!new)>(ids: seq<MessageIdentifier>, requests: seq<TopicTranslation<Msg>>,
                                 responses: seq<TopicTranslation<Msg>>)
    requires ServicesInPairs(ids, requests, responses)
    ensures forall k :: 0 <= k < |requests| ==> Acceptable(ids, requests[k])
    ensures forall k :: 0 <= k < |responses| ==> Acceptable(ids, responses[k])
  {
    hide Acceptable, InPairs;
    forall k | 0 <= k < |requests| ensures Acceptable(ids, requests[k]) && Acceptable(ids, responses[k]) {
      assert SameEnds(ids, requests[k], responses[k]);
    }
  }

  lemma NothingYet<Msg(!new)>(requests: Net<Msg>, responses: Net<Msg>, n: nat)
    requires Mirrored(requests, responses)
    ensures Ledger(map[], History([], [], map[], [], [])) && Routed(requests, map[], n)
  {
  }

  /** names lists the identifiers by node index. */
  ghost predicate Indexed(nodes: map<MessageIdentifier, nat>, names: seq<MessageIdentifier>) {
    forall u :: 0 <= u < |names| ==> names[u] in nodes && nodes[names[u]] == u
  }

  /** Both graphs get the same nodes. */
  method BuildServices<Msg(!new)>(namespaceName: string, services: seq<Service<Msg>>)
    returns (requests: Graph<Msg>, responses: Graph<Msg>, names: seq<MessageIdentifier>)
    ensures fresh(requests) && fresh(responses) && requests != responses && requests.Valid() && responses.Valid()
    ensures requests.net == [] && responses.net == [] && requests.nodes == responses.nodes
    ensures |names| == |requests.buffers| == |responses.buffers| && Indexed(requests.nodes, names)
    ensures requests.nodes.Keys == FullIdSet(namespaceName, ServiceIds(services))
  {
    requests := new Graph<Msg>();
    responses := new Graph<Msg>();
    names := [];
    hide requests.Valid, FullIdSet, FullId;
    assert ServiceIds(services[..0]) == [];
    NoFullIds(namespaceName);
    for i := 0 to |services|
      invariant fresh(requests) && fresh(responses) && requests != responses && requests.Valid() && responses.Valid()
      invariant requests.net == [] && responses.net == [] && requests.nodes == responses.nodes
      invariant |names| == |requests.buffers| == |responses.buffers| && Indexed(requests.nodes, names)
      invariant requests.nodes.Keys == FullIdSet(namespaceName, ServiceIds(services[..i]))
    {
      assert ServiceIds(services[..i + 1]) == ServiceIds(services[..i]) + [services[i].id];
      FullIdSetMore(namespaceName, ServiceIds(services[..i]), services[i].id);
      var id := FullId(namespaceName, services[i].id);
      var added := requests.AddNodeIfNotExists(id, services[i].requestBuffer);
      added := responses.AddNodeIfNotExists(id, services[i].responseBuffer);
      if added {
        names := names + [id];
      }
    }
    assert services[..|services|] == services;
  }

  // ----- the proxy -----

  class ServiceGraph<Msg(!new)> {
    const requestGraph: Graph<Msg>
    const responseGraph: Graph<Msg>
    const ids: seq<MessageIdentifier>    // service name and version, by node index
    var endpoints: seq<Endpoints>        // client and service, by node index
    var ongoing: map<Key, Request>
    ghost var history: History

    ghost predicate Valid()
      reads this, requestGraph, responseGraph
    {
      && requestGraph != responseGraph && requestGraph.Valid() && responseGraph.Valid()
      && |ids| == |endpoints| == |requestGraph.buffers| == |responseGraph.buffers|
      && Mirrored(requestGraph.net, responseGraph.net)
      && requestGraph.nodes == responseGraph.nodes && Indexed(requestGraph.nodes, ids)
      && Ledger(ongoing, history)
      && Routed(requestGraph.net, ongoing, |ids|)
    }

    /** Two graphs with the same nodes, one for the requests and one for the responses of the registered services. */
    constructor (namespaceName: string, services: seq<Service<Msg>>, requestTranslations: seq<TopicTranslation<Msg>>,
                 responseTranslations: seq<TopicTranslation<Msg>>)
      requires ServicesInPairs(ServiceIds(services), requestTranslations, responseTranslations)
      ensures Valid() && fresh(requestGraph) && fresh(responseGraph)
      ensures requestGraph.nodes.Keys == FullIdSet(namespaceName, ServiceIds(services))
      ensures NetOf(requestGraph.net, requestGraph.nodes, namespaceName, requestTranslations, |requestTranslations|)
      ensures NetOf(responseGraph.net, responseGraph.nodes, namespaceName, responseTranslations, |responseTranslations|)
      ensures ongoing == map[] && history == History([], [], map[], [], [])
      ensures forall u :: 0 <= u < |endpoints| ==> endpoints[u] == Endpoints(false, false)
    {
      hide ServicesInPairs, NetOf, Mirrored, Indexed, Ledger, Routed, requestGraph.Valid;
      AllAcceptable(ServiceIds(services), requestTranslations, responseTranslations);
      var requests, responses, names := BuildServices(namespaceName, services);
      BuildTranslations(requests, namespaceName, ServiceIds(services), requestTranslations);
      BuildTranslations(responses, namespaceName, ServiceIds(services), responseTranslations);
      RegisteredMirror(requests.net, responses.net, requests.nodes, namespaceName, ServiceIds(services),
                       requestTranslations, responseTranslations);
      NothingYet(requests.net, responses.net, |names|);
      requestGraph, responseGraph, ids := requests, responses, names;
      endpoints := seq(|names|, _ => Endpoints(false, false));
      ongoing, history := map[], History([], [], map[], [], []);
    }

    /** Clients and services come and go in any way. */
    method SetEndpoints(next: seq<Endpoints>)
      requires Valid() && |next| == |endpoints|
      modifies `endpoints
      ensures Valid() && endpoints == next
    {
      endpoints := next;
    }

    /** The first called node with a client. */
    method FirstClient(calls: seq<Call<Msg>>) returns (first: Option<Call<Msg>>)
      requires forall k :: 0 <= k < |calls| ==> calls[k].node < |endpoints|
      ensures first.Some? ==>
        exists k :: 0 <= k < |calls| && calls[k] == first.value && endpoints[calls[k].node].client
          && forall i :: 0 <= i < k ==> !endpoints[calls[i].node].client
      ensures first.None? ==> forall k :: 0 <= k < |calls| ==> !endpoints[calls[k].node].client
    {
      for k := 0 to |calls|
        invariant forall i :: 0 <= i < k ==> !endpoints[calls[i].node].client
      {
        if endpoints[calls[k].node].client {
          return Some(calls[k]);
        }
      }
      return None;
    }

    /** The call at a given node, if it has a service. */
    method ServiceCall(calls: seq<Call<Msg>>, node: nat) returns (found: Option<Call<Msg>>)
      requires forall k :: 0 <= k < |calls| ==> calls[k].node < |endpoints|
      ensures found.Some? ==> found.value in calls && found.value.node == node && endpoints[node].service
      ensures found.None? ==> forall k :: 0 <= k < |calls| && calls[k].node == node ==> !endpoints[node].service
    {
      for k := 0 to |calls|
        invariant forall i :: 0 <= i < k && calls[i].node == node ==> !endpoints[node].service
      {
        if endpoints[calls[k].node].service && calls[k].node == node {
          return Some(calls[k]);
        }
      }
      return None;
    }

    /**
     * Translate a request and send it through the first client that it reaches; sequence is what
     * that client returns.
     */
    method OnNewRequest(id: RequestId, node: nat, now: int, sequence: int) returns (sent: Option<Call<Msg>>)
      requires Valid() && node < |ids|
      modifies `ongoing, `history, requestGraph
      ensures Valid() && Later(old(history), history)
      ensures SentToClient(requestGraph.net, endpoints, old(requestGraph.buffers), node, sent)
      ensures RequestRecorded(old(ongoing), old(history), ongoing, history, Request(id, node, now),
                              if sent.Some? then Some(Key(sent.value.node, sequence)) else None)
      ensures ongoing ==
        if sent.Some? then old(ongoing)[Key(sent.value.node, sequence) := Request(id, node, now)] else old(ongoing)
      ensures history.requests == old(history).requests + [Arrival(node, id)]
      ensures history.forwards == old(history).forwards
        + if sent.Some? then [Forward(|old(history).requests|, Key(sent.value.node, sequence))] else []
    {
      hide Arrived, SentToClient, RequestRecorded, Ledger, Later, Routed, Mirrored, Indexed, ForwardStep, Reachable;
      hide ShortestPathValue, NoFarther, Consistent, FiredApart, SingleInputOutput, requestGraph.Valid;
      requestGraph.ValidNet();
      ghost var net, before, h, r := requestGraph.net, requestGraph.buffers, history, Arrival(node, id);
      MirroredSingle(net, responseGraph.net);
      var calls, fired := requestGraph.Translate(node);
      CalledBelow(node, before, requestGraph.buffers, requestGraph.visited, calls);
      sent := FirstClient(calls);
      FirstIsReached(net, endpoints, before, node, calls, sent);
      if sent.Some? {
        var key, request := Key(sent.value.node, sequence), Request(id, node, now);
        RecordForward(ongoing, h, key, request);
        RoutedMore(net, ongoing, endpoints, before, node, sent, sequence, request);
        history := ForwardStep(Arrived(h, r), |h.requests|, key);
        ongoing := ongoing[key := request];
      } else {
        RecordNone(ongoing, h, Request(id, node, now));
        history := Arrived(h, r);
      }
    }

    /**
     * Answer the request that a response belongs to, if its service is still there; unknown
     * responses are ignored.
     */
    method OnResponse(sequence: int, node: nat) returns (answer: Option<Call<Msg>>)
      requires Valid() && node < |ids|
      modifies `ongoing, `history, responseGraph
      ensures Valid() && Later(old(history), history)
      ensures Key(node, sequence) !in old(ongoing) ==>
        answer.None? && ongoing == old(ongoing) && history == old(history)
      ensures Key(node, sequence) in old(ongoing) ==>
        && AnsweredFrom(responseGraph.net, endpoints, old(responseGraph.buffers), node,
                        old(ongoing)[Key(node, sequence)].originalNode, answer)
        && EntryClosed(old(ongoing), old(history), ongoing, history, Key(node, sequence),
                       if answer.Some? then Answered else Discarded)
      ensures ongoing == old(ongoing) - {Key(node, sequence)}
      ensures answer.Some? <==>
        Key(node, sequence) in old(ongoing) && endpoints[old(ongoing)[Key(node, sequence)].originalNode].service
      ensures |history.answers| == |old(history).answers| + if answer.Some? then 1 else 0
      ensures answer.Some? ==>
        var request, last := old(ongoing)[Key(node, sequence)], history.answers[|history.answers| - 1];
        last.service == answer.value.node == request.originalNode && last.id == request.originalRequestId
    {
      hide AnsweredFrom, EntryClosed, Ledger, Later, Routed, Mirrored, CloseStep, Reachable, ShortestPathValue;
      hide NoFarther, Consistent, FiredApart, SingleInputOutput, requestGraph.Valid;
      responseGraph.ValidNet();
      var key := Key(node, sequence);
      NothingIsLater(history);
      if key !in ongoing {
        return None;
      }
      ghost var net, before := responseGraph.net, responseGraph.buffers;
      MirroredSingle(requestGraph.net, net);
      var responseNode := responseGraph.nodes[ids[node]];
      var calls, fired := responseGraph.Translate(responseNode);
      CalledBelow(node, before, responseGraph.buffers, responseGraph.visited, calls);
      answer := ServiceCall(calls, ongoing[key].originalNode);
      RequestReached(requestGraph.net, net, ongoing, key, |ids|);
      AnswerIsDelivered(net, endpoints, before, node, ongoing[key].originalNode, calls, answer);
      ghost var outcome := if answer.Some? then Answered else Discarded;
      CloseEntry(ongoing, history, key, outcome);
      RoutedLess(requestGraph.net, ongoing, |ids|, key);
      history := CloseStep(history, key, outcome, AnswerOf(ongoing, history, key, outcome));
      ongoing := ongoing - {key};
    }

    /** Drop all requests that have been waiting for more than the timeout. */
    method CleanupStaleRequests(now: int)
      requires Valid()
      modifies `ongoing, `history
      ensures Valid() && Later(old(history), history)
      ensures forall k :: k in ongoing <==>
        k in old(ongoing) && now - old(ongoing)[k].timestampReceived <= 20_000_000_000
      ensures forall k :: k in ongoing ==> ongoing[k] == old(ongoing)[k]
      ensures history.requests == old(history).requests
      ensures history.forwards == old(history).forwards && history.answers == old(history).answers
      ensures Dropped(old(ongoing), old(history), ongoing, history)
      ensures Count(history.status, TimedOut) == Count(old(history).status, TimedOut) + |old(ongoing)| - |ongoing|
    {
      hide Ledger, Routed, Mirrored, Later, Dropped, Indexed;
      ghost var h;
      ongoing, h := KeepRecent(ongoing, now, history, requestGraph.net, |ids|);
      history := h;
    }

    /**
     * In every run, no request is forwarded or answered twice, every answer goes to the node that the
     * request came from, with its identifier, and a forwarded request is pending or closed in one way.
     */
    lemma InEveryRun()
      requires Valid()
      ensures forall i, j :: 0 <= i < j < |history.forwards| ==>
        history.forwards[i].arrival != history.forwards[j].arrival
      ensures forall i, j :: 0 <= i < j < |history.answers| ==>
        history.answers[i].arrival != history.answers[j].arrival
      ensures forall i :: 0 <= i < |history.answers| ==>
        var x := history.answers[i];
        x.arrival < |history.requests| && history.requests[x.arrival] == Arrival(x.service, x.id)
      ensures |history.forwards| == |ongoing| + |history.answers| + Count(history.status, Discarded)
        + Count(history.status, TimedOut) + Count(history.status, Overwritten)
    {
      hide Holds, Count;
    }
  }

  /** Erase the stale entries one by one. */
  method KeepRecent<Msg(!new)>(ongoing: map<Key, Request>, now: int, ghost h: History, ghost net: Net<Msg>,
                               ghost n: nat)
    returns (kept: map<Key, Request>, ghost h': History)
    requires Ledger(ongoing, h) && Routed(net, ongoing, n)
    ensures Ledger(kept, h') && Routed(net, kept, n) && Later(h, h')
    ensures kept == map k | k in ongoing && !Stale(ongoing[k], now) :: ongoing[k]
    ensures h'.requests == h.requests && h'.forwards == h.forwards && h'.answers == h.answers
    ensures Dropped(ongoing, h, kept, h')
    ensures Count(h'.status, TimedOut) == Count(h.status, TimedOut) + |ongoing| - |kept|
  {
    hide Count;
    hide Ledger, Later, Routed, CloseStep, Dropped, Stale;
    var keys := ongoing.Keys;
    kept, h' := ongoing, h;
    NothingIsLater(h);
    NothingDropped(ongoing, h);
    while keys != {}
      invariant keys <= kept.Keys && Ledger(kept, h') && Routed(net, kept, n) && Later(h, h')
      invariant h'.requests == h.requests && h'.forwards == h.forwards && h'.answers == h.answers
      invariant Dropped(ongoing, h, kept, h')
      invariant Count(h'.status, TimedOut) == Count(h.status, TimedOut) + |ongoing| - |kept|
      invariant forall k :: k in kept ==> k in ongoing && kept[k] == ongoing[k]
      invariant forall k :: k in ongoing && k !in keys ==> (k in kept <==> !Stale(ongoing[k], now))
      decreases |keys|
    {
      var k :| k in keys;
      keys := keys - {k};
      if Stale(kept[k], now) {
        CloseEntry(kept, h', k, TimedOut);
        RoutedLess(net, kept, n, k);
        DropOne(ongoing, h, kept, h', k);
        OneTimedOut(kept, h', k);
        ghost var next := CloseStep(h', k, TimedOut, []);
        LaterTransitive(h, h', next);
        h' := next;
        kept := kept - {k};
      }
    }
  }

  predicate Stale(request: Request, now: int) {
    now - request.timestampReceived > REQUEST_TIMEOUT
  }

  /** Entries that disappeared have timed out, and the others belong to the same requests as before. */
  ghost predicate Dropped(ongoing: map<Key, Request>, h: History, ongoing': map<Key, Request>, h': History) {
    && h.holder.Keys == ongoing.Keys && h'.holder.Keys == ongoing'.Keys
    && forall k :: k in ongoing ==>
      && h.holder[k] < |h'.status|
      && (k in ongoing' ==> h'.holder[k] == h.holder[k])
      && (k !in ongoing' ==> h'.status[h.holder[k]] == TimedOut)
  }

  lemma NothingDropped(ongoing: map<Key, Request>, h: History)
    requires Ledger(ongoing, h)
    ensures Dropped(ongoing, h, ongoing, h)
  {
    HolderStatus(ongoing, h);
  }

  lemma DropOne(ongoing: map<Key, Request>, h: History, ongoing': map<Key, Request>, h': History, key: Key)
    requires Dropped(ongoing, h, ongoing', h') && key in ongoing' && Ledger(ongoing', h')
    ensures h'.holder[key] < |h'.status|
    ensures Dropped(ongoing, h, ongoing' - {key}, CloseStep(h', key, TimedOut, []))
  {
    hide Holds, ForwardedOnce, AnsweredOnce, Conserved;
    HolderStatus(ongoing', h');
  }

  lemma OneTimedOut(ongoing: map<Key, Request>, h: History, key: Key)
    requires Ledger(ongoing, h) && key in ongoing
    ensures key in h.holder && h.holder[key] < |h.status| && |ongoing - {key}| == |ongoing| - 1
    ensures Count(CloseStep(h, key, TimedOut, []).status, TimedOut) == Count(h.status, TimedOut) + 1
  {
    HolderStatus(ongoing, h);
    hide Holds, ForwardedOnce, AnsweredOnce, Conserved, Count;
    CountUpdate(h.status, h.holder[key], TimedOut, TimedOut);
    SizeLess(ongoing, key);
  }

  lemma NothingIsLater(h: History)
    ensures Later(h, h)
  {
  }

  /** The response went to the node of the request exactly if its service is there. */
  ghost predicate AnsweredFrom<Msg(!new)>(net: Net<Msg>, endpoints: seq<Endpoints>, before: seq<Msg>, node: nat,
                                          original: nat, answer: Option<Call<Msg>>)
  {
    && SingleInputOutput(net) && WellFormed(net, |before|) && node < |before| == |endpoints| && original < |endpoints|
    && (answer.Some? <==> endpoints[original].service)
    && (answer.Some? ==>
          answer.value.node == original && ShortestPathValue(net, node, original, before, answer.value.message))
  }

  /** The entry is gone, and its request has the given outcome and answer. */
  ghost predicate EntryClosed(ongoing: map<Key, Request>, h: History, ongoing': map<Key, Request>, h': History,
                              key: Key, outcome: Status)
  {
    && key in ongoing && key in h.holder && h.holder[key] < |h.status|
    && ongoing' == ongoing - {key}
    && h' == CloseStep(h, key, outcome, AnswerOf(ongoing, h, key, outcome))
  }

  lemma CloseEntry(ongoing: map<Key, Request>, h: History, key: Key, outcome: Status)
    requires Ledger(ongoing, h) && key in ongoing && IsClosed(outcome)
    ensures key in h.holder && h.holder[key] < |h.status|
    ensures var h' := CloseStep(h, key, outcome, AnswerOf(ongoing, h, key, outcome));
      && Ledger(ongoing - {key}, h') && Later(h, h') && EntryClosed(ongoing, h, ongoing - {key}, h', key, outcome)
      && h'.holder == h.holder - {key} && h'.requests == h.requests && h'.forwards == h.forwards
      && h'.answers == h.answers + AnswerOf(ongoing, h, key, outcome)
  {
    CloseKeeps(ongoing, h, key, outcome);
    CloseIsLater(ongoing, h, key, outcome, AnswerOf(ongoing, h, key, outcome));
  }

  lemma RoutedLess<Msg(!new)>(net: Net<Msg>, ongoing: map<Key, Request>, n: nat, key: Key)
    requires Routed(net, ongoing, n)
    ensures Routed(net, ongoing - {key}, n)
  {
  }

  lemma RequestReached<Msg(!new)>(requests: Net<Msg>, responses: Net<Msg>, ongoing: map<Key, Request>, key: Key, n: nat)
    requires Mirrored(requests, responses) && Routed(requests, ongoing, n) && key in ongoing
    ensures SingleInputOutput(responses) && Reachable(responses, key.node, ongoing[key].originalNode)
    ensures key.node != ongoing[key].originalNode < n
  {
    WayBack(requests, responses, ongoing[key].originalNode, key.node);
  }

  lemma AnswerIsDelivered<Msg(!new)>(net: Net<Msg>, endpoints: seq<Endpoints>, before: seq<Msg>, node: nat,
                                     original: nat, calls: seq<Call<Msg>>, answer: Option<Call<Msg>>)
    requires SingleInputOutput(net) && WellFormed(net, |before|) && node < |before| == |endpoints|
    requires original < |endpoints|
    requires original != node && Reachable(net, node, original)
    requires forall v :: v in CallNodes(calls) <==> v != node && Reachable(net, node, v)
    requires forall k :: 0 <= k < |calls| ==> ShortestPathValue(net, node, calls[k].node, before, calls[k].message)
    requires answer.Some? ==> answer.value in calls && answer.value.node == original && endpoints[original].service
    requires answer.None? ==> forall k :: 0 <= k < |calls| && calls[k].node == original ==> !endpoints[original].service
    ensures AnsweredFrom(net, endpoints, before, node, original, answer)
  {
    hide Reachable, ShortestPathValue, WellFormed;
    assert original in CallNodes(calls);
    var k :| 0 <= k < |calls| && CallNodes(calls)[k] == original;
    assert calls[k].node == original;
  }

  /** The request went to a nearest client that its node reaches, if there is one, as translated on a shortest path. */
  ghost predicate SentToClient<Msg(!new)>(net: Net<Msg>, endpoints: seq<Endpoints>, before: seq<Msg>, node: nat,
                                          sent: Option<Call<Msg>>)
  {
    && SingleInputOutput(net) && WellFormed(net, |before|) && node < |before| == |endpoints|
    && (sent.Some? <==> exists v: nat :: v < |endpoints| && v != node && endpoints[v].client && Reachable(net, node, v))
    && (sent.Some? ==>
          var v := sent.value.node;
          && v < |endpoints| && v != node && endpoints[v].client && Reachable(net, node, v)
          && ShortestPathValue(net, node, v, before, sent.value.message)
          && forall w: nat :: w < |endpoints| && w != node && endpoints[w].client && Reachable(net, node, w) ==>
               NoFarther(net, node, v, w))
  }

  /** A new request, pending under its key if it was forwarded. */
  ghost predicate RequestRecorded(ongoing: map<Key, Request>, h: History, ongoing': map<Key, Request>, h': History,
                                  request: Request, to: Option<Key>)
  {
    var arrived := Arrived(h, Arrival(request.originalNode, request.originalRequestId));
    if to.None? then ongoing' == ongoing && h' == arrived
    else
      && |h.requests| == |h.status| && (forall k :: k in h.holder ==> h.holder[k] < |h.status|)
      && ongoing' == ongoing[to.value := request]
      && h' == ForwardStep(arrived, |h.requests|, to.value)
      && Count(h'.status, Overwritten) == Count(h.status, Overwritten) + (if to.value in ongoing then 1 else 0)
  }

  lemma MirroredSingle<Msg(!new)>(requests: Net<Msg>, responses: Net<Msg>)
    requires Mirrored(requests, responses)
    ensures SingleInputOutput(requests) && SingleInputOutput(responses)
  {
  }

  lemma CalledBelow<Msg(!new)>(source: nat, before: seq<Msg>, buffers: seq<Msg>, visited: seq<bool>,
                               calls: seq<Call<Msg>>)
    requires Consistent(source, before, buffers, visited, calls, [], [])
    ensures |buffers| == |before| && forall k :: 0 <= k < |calls| ==> calls[k].node < |before|
  {
  }

  lemma FirstIsReached<Msg(!new)>(net: Net<Msg>, endpoints: seq<Endpoints>, before: seq<Msg>, node: nat,
                                  calls: seq<Call<Msg>>, sent: Option<Call<Msg>>)
    requires SingleInputOutput(net) && WellFormed(net, |before|) && node < |before| == |endpoints|
    requires forall k :: 0 <= k < |calls| ==> calls[k].node < |before|
    requires forall v :: v in CallNodes(calls) <==> v != node && Reachable(net, node, v)
    requires forall k :: 0 <= k < |calls| ==> ShortestPathValue(net, node, calls[k].node, before, calls[k].message)
    requires forall j, k :: 0 <= j < k < |calls| ==> NoFarther(net, node, calls[j].node, calls[k].node)
    requires sent.Some? ==>
      exists k :: 0 <= k < |calls| && calls[k] == sent.value && endpoints[calls[k].node].client
        && forall i :: 0 <= i < k ==> !endpoints[calls[i].node].client
    requires sent.None? ==> forall k :: 0 <= k < |calls| ==> !endpoints[calls[k].node].client
    ensures SentToClient(net, endpoints, before, node, sent)
  {
    hide Reachable, ShortestPathValue, NoFarther, WellFormed;
    if sent.Some? {
      var k :| 0 <= k < |calls| && calls[k] == sent.value && endpoints[calls[k].node].client
        && forall i :: 0 <= i < k ==> !endpoints[calls[i].node].client;
      assert CallNodes(calls)[k] in CallNodes(calls);
      NoFartherSelf(net, node, sent.value.node, before, sent.value.message);
      forall w: nat | w < |endpoints| && w != node && endpoints[w].client && Reachable(net, node, w)
        ensures NoFarther(net, node, sent.value.node, w)
      {
        LaterClient(net, endpoints, node, calls, k, w);
      }
    } else {
      forall v: nat | v < |endpoints| && v != node && Reachable(net, node, v) ensures !endpoints[v].client {
        var k := CalledAt(calls, v);
      }
    }
  }

  lemma CalledAt<Msg>(calls: seq<Call<Msg>>, v: nat) returns (m: nat)
    requires v in CallNodes(calls)
    ensures m < |calls| && calls[m].node == v
  {
    m :| 0 <= m < |calls| && CallNodes(calls)[m] == v;
  }

  lemma LaterClient<Msg(!new)>(net: Net<Msg>, endpoints: seq<Endpoints>, node: nat, calls: seq<Call<Msg>>, k: nat,
                               w: nat)
    requires SingleInputOutput(net) && k < |calls| && w < |endpoints| && endpoints[w].client && w in CallNodes(calls)
    requires forall i :: 0 <= i < |calls| ==> calls[i].node < |endpoints|
    requires forall i :: 0 <= i < k ==> !endpoints[calls[i].node].client
    requires forall i, j :: 0 <= i < j < |calls| ==> NoFarther(net, node, calls[i].node, calls[j].node)
    requires NoFarther(net, node, calls[k].node, calls[k].node)
    ensures NoFarther(net, node, calls[k].node, w)
  {
    hide NoFarther;
    var m := CalledAt(calls, w);
  }

  lemma RecordForward(ongoing: map<Key, Request>, h: History, key: Key, request: Request)
    requires Ledger(ongoing, h)
    ensures |h.requests| == |h.status| && forall k :: k in h.holder ==> h.holder[k] < |h.status|
    ensures var a := Arrived(h, Arrival(request.originalNode, request.originalRequestId));
      |h.requests| < |a.status| && forall k :: k in a.holder ==> a.holder[k] < |a.status|
    ensures var arrived := Arrived(h, Arrival(request.originalNode, request.originalRequestId));
      var h' := ForwardStep(arrived, |h.requests|, key);
      && Ledger(ongoing[key := request], h') && Later(h, h')
      && RequestRecorded(ongoing, h, ongoing[key := request], h', request, Some(key))
      && h'.requests == h.requests + [Arrival(request.originalNode, request.originalRequestId)]
      && h'.forwards == h.forwards + [Forward(|h.requests|, key)]
  {
    hide ForwardedOnce, AnsweredOnce, Conserved, Count;
    var r := Arrival(request.originalNode, request.originalRequestId);
    HolderStatus(ongoing, h);
    ArriveKeeps(ongoing, h, r);
    ForwardKeeps(ongoing, Arrived(h, r), |h.requests|, key, request);
    ForwardIsLater(ongoing, h, r, key);
    CountSnoc(h.status, Unforwarded, Overwritten);
  }

  lemma RecordNone(ongoing: map<Key, Request>, h: History, request: Request)
    requires Ledger(ongoing, h)
    ensures var h' := Arrived(h, Arrival(request.originalNode, request.originalRequestId));
      && Ledger(ongoing, h') && Later(h, h') && RequestRecorded(ongoing, h, ongoing, h', request, None)
      && h'.requests == h.requests + [Arrival(request.originalNode, request.originalRequestId)]
      && h'.forwards == h.forwards
  {
    ArriveKeeps(ongoing, h, Arrival(request.originalNode, request.originalRequestId));
    hide Ledger;
  }

  lemma RoutedMore<Msg(!new)>(net: Net<Msg>, ongoing: map<Key, Request>, endpoints: seq<Endpoints>, before: seq<Msg>,
                              node: nat, sent: Option<Call<Msg>>, sequence: int, request: Request)
    requires Routed(net, ongoing, |endpoints|) && SentToClient(net, endpoints, before, node, sent) && sent.Some?
    requires request.originalNode == node
    ensures Routed(net, ongoing[Key(sent.value.node, sequence) := request], |endpoints|)
  {
  }

  /** Each ongoing request was forwarded to another node that its own node reaches. */
  ghost predicate Routed<Msg(!new)>(requests: Net<Msg>, ongoing: map<Key, Request>, n: nat) {
    SingleInputOutput(requests) &&
    forall k :: k in ongoing ==>
      && k.node < n && ongoing[k].originalNode < n && k.node != ongoing[k].originalNode
      && Reachable(requests, ongoing[k].originalNode, k.node)
  }
}
