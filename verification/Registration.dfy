/** Translations registered in both directions, and the graphs built from them. */
module Registration {
  import opened GraphComponents
  import opened GraphPaths
  import opened TranslationGraph

  datatype Topic<Msg> = Topic(id: MessageIdentifier, messageBuffer: Msg)

  /** A service, with a buffer for requests and one for responses. */
  datatype Service<Msg> = Service(id: MessageIdentifier, requestBuffer: Msg, responseBuffer: Msg)

  datatype TopicTranslation<!Msg> =
    TopicTranslation(cb: (seq<Msg>, seq<Msg>) -> seq<Msg>, inputs: seq<MessageIdentifier>,
                     outputs: seq<MessageIdentifier>)

  function Ids<Msg>(topics: seq<Topic<Msg>>): (ids: seq<MessageIdentifier>)
    ensures |ids| == |topics| && forall i :: 0 <= i < |ids| ==> ids[i] == topics[i].id
  {
    seq(|topics|, i requires 0 <= i < |topics| => topics[i].id)
  }

  function ServiceIds<Msg>(services: seq<Service<Msg>>): (ids: seq<MessageIdentifier>)
    ensures |ids| == |services| && forall i :: 0 <= i < |ids| ==> ids[i] == services[i].id
  {
    seq(|services|, i requires 0 <= i < |services| => services[i].id)
  }

  /** A translation that the graph accepts: known identifiers, few enough inputs, one result for each output. */
  ghost predicate Acceptable<Msg(!new)>(ids: seq<MessageIdentifier>, t: TopicTranslation<Msg>) {
    && |t.inputs| <= MAX_NUM_INPUTS
    && (forall i :: 0 <= i < |t.inputs| ==> t.inputs[i] in ids)
    && (forall i :: 0 <= i < |t.outputs| ==> t.outputs[i] in ids)
    && (forall ins, outs :: |t.cb(ins, outs)| == |outs|)
  }

  /** Translations come in pairs, each followed by its reverse. */
  ghost predicate InPairs<Msg(!new)>(ts: seq<TopicTranslation<Msg>>) {
    && |ts| % 2 == 0
    && forall k :: 0 <= 2 * k < |ts| ==> PairAt(ts, k)
  }

  ghost predicate PairAt<Msg(!new)>(ts: seq<TopicTranslation<Msg>>, k: nat)
    requires |ts| % 2 == 0 && 2 * k < |ts|
  {
    ts[2 * k].inputs == ts[2 * k + 1].outputs && ts[2 * k].outputs == ts[2 * k + 1].inputs
  }

  /** Requests and responses are translated between the same services, one at a time and in both directions. */
  ghost predicate ServicesInPairs<Msg(!new)>(ids: seq<MessageIdentifier>, requests: seq<TopicTranslation<Msg>>,
                                             responses: seq<TopicTranslation<Msg>>)
  {
    && |requests| == |responses| && InPairs(requests)
    && forall k :: 0 <= k < |requests| ==> SameEnds(ids, requests[k], responses[k])
  }

  ghost predicate SameEnds<Msg(!new)>(ids: seq<MessageIdentifier>, request: TopicTranslation<Msg>,
                                      response: TopicTranslation<Msg>)
  {
    && Acceptable(ids, request) && Acceptable(ids, response)
    && |request.inputs| == 1 && |request.outputs| == 1
    && response.inputs == request.inputs && response.outputs == request.outputs
  }

  /** The callback that translates one message into another, which it may leave in part as it was. */
  function Direct<Msg>(f: (Msg, Msg) -> Msg): (seq<Msg>, seq<Msg>) -> seq<Msg> {
    (ins, outs) => if ins == [] || outs == [] then outs else outs[0 := f(ins[0], outs[0])]
  }

  class RegisteredTranslations<Msg(!new)> {
    var topics: seq<Topic<Msg>>
    var translations: seq<TopicTranslation<Msg>>
    var services: seq<Service<Msg>>
    var requestTranslations: seq<TopicTranslation<Msg>>
    var responseTranslations: seq<TopicTranslation<Msg>>

    ghost predicate Valid()
      reads this
    {
      && InPairs(translations)
      && (forall k :: 0 <= k < |translations| ==> Acceptable(Ids(topics), translations[k]))
      && ServicesInPairs(ServiceIds(services), requestTranslations, responseTranslations)
    }

    constructor ()
      ensures Valid() && topics == [] && translations == []
      ensures services == [] && requestTranslations == [] && responseTranslations == []
    {
      topics, translations := [], [];
      services, requestTranslations, responseTranslations := [], [], [];
    }

    method RegisterTranslation(older: seq<Topic<Msg>>, newer: seq<Topic<Msg>>,
                               fromOlder: (seq<Msg>, seq<Msg>) -> seq<Msg>, toOlder: (seq<Msg>, seq<Msg>) -> seq<Msg>)
      requires Valid() && |older| <= MAX_NUM_INPUTS && |newer| <= MAX_NUM_INPUTS
      requires forall ins, outs :: |fromOlder(ins, outs)| == |outs|
      requires forall ins, outs :: |toOlder(ins, outs)| == |outs|
      modifies `topics, `translations
      ensures Valid() && topics == old(topics) + older + newer
      ensures translations == old(translations)
        + [TopicTranslation(fromOlder, Ids(older), Ids(newer))] + [TopicTranslation(toOlder, Ids(newer), Ids(older))]
    {
      hide ServicesInPairs;
      TopicsAppended(topics, older, newer);
      StillAcceptable(Ids(topics), Ids(topics + older + newer), translations);
      var first := TopicTranslation(fromOlder, Ids(older), Ids(newer));
      var second := TopicTranslation(toOlder, Ids(newer), Ids(older));
      AppendPair(translations, first, second);
      topics := topics + older + newer;
      translations := translations + [first] + [second];
    }

    method RegisterDirectTranslation(older: Topic<Msg>, newer: Topic<Msg>,
                                     fromOlder: (Msg, Msg) -> Msg, toOlder: (Msg, Msg) -> Msg)
      requires Valid()
      modifies `topics, `translations
      ensures Valid() && topics == old(topics) + [older] + [newer]
      ensures translations == old(translations)
        + [TopicTranslation(Direct(fromOlder), [older.id], [newer.id])]
        + [TopicTranslation(Direct(toOlder), [newer.id], [older.id])]
      ensures forall m, o :: translations[|translations| - 2].cb([m], [o]) == [fromOlder(m, o)]
      ensures forall m, o :: translations[|translations| - 1].cb([m], [o]) == [toOlder(m, o)]
    {
      RegisterTranslation([older], [newer], Direct(fromOlder), Direct(toOlder));
      assert Ids([older]) == [older.id] && Ids([newer]) == [newer.id];
    }

    /** The translations of responses use the identifiers of the requests. */
    method RegisterServiceDirectTranslation(older: Service<Msg>, newer: Service<Msg>,
                                            fromOlder: (Msg, Msg) -> Msg, toOlder: (Msg, Msg) -> Msg,
                                            responseFromOlder: (Msg, Msg) -> Msg, responseToOlder: (Msg, Msg) -> Msg)
      requires Valid()
      modifies `services, `requestTranslations, `responseTranslations
      ensures Valid() && services == old(services) + [older] + [newer]
      ensures requestTranslations == old(requestTranslations)
        + [TopicTranslation(Direct(fromOlder), [older.id], [newer.id])]
        + [TopicTranslation(Direct(toOlder), [newer.id], [older.id])]
      ensures responseTranslations == old(responseTranslations)
        + [TopicTranslation(Direct(responseFromOlder), [older.id], [newer.id])]
        + [TopicTranslation(Direct(responseToOlder), [newer.id], [older.id])]
      ensures forall m, o :: requestTranslations[|requestTranslations| - 2].cb([m], [o]) == [fromOlder(m, o)]
      ensures forall m, o :: requestTranslations[|requestTranslations| - 1].cb([m], [o]) == [toOlder(m, o)]
      ensures forall m, o :: responseTranslations[|responseTranslations| - 2].cb([m], [o]) == [responseFromOlder(m, o)]
      ensures forall m, o :: responseTranslations[|responseTranslations| - 1].cb([m], [o]) == [responseToOlder(m, o)]
    {
      hide InPairs;
      var ids, ids' := ServiceIds(services), ServiceIds(services + [older] + [newer]);
      assert ids' == ids + [older.id] + [newer.id];
      AppendServicePair(ids, requestTranslations, responseTranslations, older.id, newer.id,
                        Direct(fromOlder), Direct(toOlder), Direct(responseFromOlder), Direct(responseToOlder));
      services := services + [older] + [newer];
      requestTranslations := requestTranslations
        + [TopicTranslation(Direct(fromOlder), [older.id], [newer.id])]
        + [TopicTranslation(Direct(toOlder), [newer.id], [older.id])];
      responseTranslations := responseTranslations
        + [TopicTranslation(Direct(responseFromOlder), [older.id], [newer.id])]
        + [TopicTranslation(Direct(responseToOlder), [newer.id], [older.id])];
    }
  }

  lemma AppendServicePair<Msg(!new)>(ids: seq<MessageIdentifier>, requests: seq<TopicTranslation<Msg>>,
                                     responses: seq<TopicTranslation<Msg>>, older: MessageIdentifier,
                                     newer: MessageIdentifier,
                                     f: (seq<Msg>, seq<Msg>) -> seq<Msg>, g: (seq<Msg>, seq<Msg>) -> seq<Msg>,
                                     f': (seq<Msg>, seq<Msg>) -> seq<Msg>, g': (seq<Msg>, seq<Msg>) -> seq<Msg>)
    requires ServicesInPairs(ids, requests, responses)
    requires forall ins, outs ::
      |f(ins, outs)| == |g(ins, outs)| == |f'(ins, outs)| == |g'(ins, outs)| == |outs|
    ensures ServicesInPairs(ids + [older] + [newer],
      requests + [TopicTranslation(f, [older], [newer])] + [TopicTranslation(g, [newer], [older])],
      responses + [TopicTranslation(f', [older], [newer])] + [TopicTranslation(g', [newer], [older])])
  {
    var first, second := TopicTranslation(f, [older], [newer]), TopicTranslation(g, [newer], [older]);
    var first', second' := TopicTranslation(f', [older], [newer]), TopicTranslation(g', [newer], [older]);
    var all, all', ids' := requests + [first] + [second], responses + [first'] + [second'], ids + [older] + [newer];
    AppendPair(requests, first, second);
    hide InPairs;
    assert older in ids' && newer in ids';
    assert SameEnds(ids', first, first') && SameEnds(ids', second, second');
    forall k | 0 <= k < |all| ensures SameEnds(ids', all[k], all'[k]) {
      if k < |requests| {
        assert SameEnds(ids, requests[k], responses[k]);
        assert all[k] == requests[k] && all'[k] == responses[k];
      }
    }
  }

  lemma TopicsAppended<Msg>(topics: seq<Topic<Msg>>, older: seq<Topic<Msg>>, newer: seq<Topic<Msg>>)
    ensures Ids(topics + older + newer) == Ids(topics) + Ids(older) + Ids(newer)
  {
  }

  lemma StillAcceptable<Msg(!new)>(ids: seq<MessageIdentifier>, ids': seq<MessageIdentifier>,
                                   ts: seq<TopicTranslation<Msg>>)
    requires forall k :: 0 <= k < |ts| ==> Acceptable(ids, ts[k])
    requires forall id :: id in ids ==> id in ids'
    ensures forall k :: 0 <= k < |ts| ==> Acceptable(ids', ts[k])
  {
  }

  lemma AppendPair<Msg(!new)>(ts: seq<TopicTranslation<Msg>>, first: TopicTranslation<Msg>,
                              second: TopicTranslation<Msg>)
    requires InPairs(ts) && first.inputs == second.outputs && first.outputs == second.inputs
    ensures InPairs(ts + [first] + [second])
  {
    var all := ts + [first] + [second];
    forall k | 0 <= 2 * k < |all| ensures PairAt(all, k) {
      if 2 * k < |ts| {
        assert PairAt(ts, k);
      }
    }
  }

  /** A relative topic name put under a namespace, with one slash between them. */
  function FullTopicName(namespaceName: string, topicName: string): (r: string)
    ensures topicName == "" || topicName[0] == '/' ==> r == topicName
    ensures topicName != "" && topicName[0] != '/' ==>
      var n := |r| - |topicName|;
      && 0 < n && r[n - 1] == '/' && r[n..] == topicName
      && (r[..n] == namespaceName || (r[..n - 1] == namespaceName && (n > 1 ==> r[n - 2] != '/')))
  {
    if topicName != "" && topicName[0] != '/' then
      if namespaceName == "" || namespaceName[|namespaceName| - 1] != '/' then namespaceName + "/" + topicName
      else namespaceName + topicName
    else topicName
  }

  function FullId(namespaceName: string, id: MessageIdentifier): (r: MessageIdentifier)
    ensures r.topicName == FullTopicName(namespaceName, id.topicName) && r.version == id.version
  {
    id.(topicName := FullTopicName(namespaceName, id.topicName))
  }

  ghost function FullIdSet(namespaceName: string, ids: seq<MessageIdentifier>): set<MessageIdentifier> {
    set id | id in ids :: FullId(namespaceName, id)
  }

  lemma NoFullIds(namespaceName: string)
    ensures FullIdSet(namespaceName, []) == {}
  {
  }

  lemma FullIdSetMore(namespaceName: string, ids: seq<MessageIdentifier>, id: MessageIdentifier)
    ensures FullIdSet(namespaceName, ids + [id]) == FullIdSet(namespaceName, ids) + {FullId(namespaceName, id)}
  {
    hide FullId;
  }

  function FullIds(namespaceName: string, ids: seq<MessageIdentifier>): (r: seq<MessageIdentifier>)
    ensures |r| == |ids| && forall i :: 0 <= i < |ids| ==> r[i] == FullId(namespaceName, ids[i])
  {
    seq(|ids|, i requires 0 <= i < |ids| => FullId(namespaceName, ids[i]))
  }

  /** The translations of a graph are the registered ones, under the namespace. */
  ghost predicate NetOf<Msg(!new)>(net: Net<Msg>, nodes: map<MessageIdentifier, nat>, namespaceName: string,
                                   ts: seq<TopicTranslation<Msg>>, n: nat)
  {
    && |net| == n <= |ts|
    && forall k :: 0 <= k < n ==> NetAt(net, nodes, namespaceName, ts, k)
  }

  ghost predicate NetAt<Msg(!new)>(net: Net<Msg>, nodes: map<MessageIdentifier, nat>, namespaceName: string,
                                   ts: seq<TopicTranslation<Msg>>, k: nat)
    requires k < |net| && k < |ts|
  {
    var ins, outs := FullIds(namespaceName, ts[k].inputs), FullIds(namespaceName, ts[k].outputs);
    && (forall i :: 0 <= i < |ins| ==> ins[i] in nodes)
    && (forall i :: 0 <= i < |outs| ==> outs[i] in nodes)
    && net[k] == Translation(Indexes(nodes, ins), Indexes(nodes, outs), ts[k].cb)
  }

  lemma NetOfMore<Msg(!new)>(net: Net<Msg>, nodes: map<MessageIdentifier, nat>, namespaceName: string,
                             ts: seq<TopicTranslation<Msg>>, n: nat)
    requires n < |ts| && NetOf(net, nodes, namespaceName, ts, n)
    requires forall i :: 0 <= i < |ts[n].inputs| ==> FullId(namespaceName, ts[n].inputs[i]) in nodes
    requires forall i :: 0 <= i < |ts[n].outputs| ==> FullId(namespaceName, ts[n].outputs[i]) in nodes
    ensures var ins, outs := FullIds(namespaceName, ts[n].inputs), FullIds(namespaceName, ts[n].outputs);
      NetOf(net + [Translation(Indexes(nodes, ins), Indexes(nodes, outs), ts[n].cb)], nodes, namespaceName, ts, n + 1)
  {
    var ins, outs := FullIds(namespaceName, ts[n].inputs), FullIds(namespaceName, ts[n].outputs);
    var net' := net + [Translation(Indexes(nodes, ins), Indexes(nodes, outs), ts[n].cb)];
    forall k | 0 <= k < n + 1 ensures NetAt(net', nodes, namespaceName, ts, k) {
      if k < n {
        assert NetAt(net, nodes, namespaceName, ts, k);
      }
    }
  }

  lemma PairsArePaired<Msg(!new)>(net: Net<Msg>, nodes: map<MessageIdentifier, nat>, namespaceName: string,
                                  ts: seq<TopicTranslation<Msg>>)
    requires NetOf(net, nodes, namespaceName, ts, |ts|) && InPairs(ts)
    ensures Paired(net)
  {
    forall t | 0 <= t < |net| ensures HasReverse(net, t) {
      var k := t / 2;
      assert PairAt(ts, k);
      assert NetAt(net, nodes, namespaceName, ts, 2 * k) && NetAt(net, nodes, namespaceName, ts, 2 * k + 1);
      var r := if t == 2 * k then 2 * k + 1 else 2 * k;
      assert net[r].inputs == net[t].outputs && net[r].outputs == net[t].inputs;
    }
  }

  /** In the graph, a direct translation turns one message into the other. */
  lemma DirectInGraph<Msg(!new)>(net: Net<Msg>, nodes: map<MessageIdentifier, nat>, namespaceName: string,
                                 ts: seq<TopicTranslation<Msg>>, k: nat, a: MessageIdentifier, b: MessageIdentifier,
                                 f: (Msg, Msg) -> Msg)
    requires NetOf(net, nodes, namespaceName, ts, |ts|) && k < |ts|
    requires ts[k] == TopicTranslation(Direct(f), [a], [b])
    ensures FullId(namespaceName, a) in nodes && net[k].inputs == [nodes[FullId(namespaceName, a)]]
    ensures FullId(namespaceName, b) in nodes && net[k].outputs == [nodes[FullId(namespaceName, b)]]
    ensures forall m, o :: net[k].cb([m], [o]) == [f(m, o)]
  {
    assert NetAt(net, nodes, namespaceName, ts, k);
    assert FullIds(namespaceName, [a])[0] in nodes && FullIds(namespaceName, [b])[0] in nodes;
  }

  /** Along a path, a direct translation takes the value of its input, and what its output held before, to the next. */
  lemma DirectOnPath<Msg(!new)>(net: Net<Msg>, s: nat, p: seq<nat>, u: nat, k: nat, before: seq<Msg>,
                                f: (Msg, Msg) -> Msg)
    requires SingleInputOutput(net) && WellFormed(net, |before|) && s < |before|
    requires IsPath(net, s, p, u) && k < |net| && net[k].inputs == [u]
    requires forall m, o :: net[k].cb([m], [o]) == [f(m, o)]
    ensures var v := net[k].outputs[0];
      && IsPath(net, s, p + [k], v)
      && PathValue(net, s, p + [k], v, before) == f(PathValue(net, s, p, u, before), before[v])
  {
    PathSnoc(net, s, p, u, k, before);
  }

  lemma AllKnown<Msg(!new)>(nodes: map<MessageIdentifier, nat>, namespaceName: string, ids: seq<MessageIdentifier>,
                            t: TopicTranslation<Msg>)
    requires nodes.Keys == FullIdSet(namespaceName, ids) && Acceptable(ids, t)
    ensures forall i :: 0 <= i < |t.inputs| ==> FullId(namespaceName, t.inputs[i]) in nodes
    ensures forall i :: 0 <= i < |t.outputs| ==> FullId(namespaceName, t.outputs[i]) in nodes
  {
    assert forall id :: id in ids ==> FullId(namespaceName, id) in nodes.Keys;
  }

  method BuildTranslations<Msg(!new)>(g: Graph<Msg>, namespaceName: string, ghost ids: seq<MessageIdentifier>,
                                      translations: seq<TopicTranslation<Msg>>)
    requires g.Valid() && g.net == [] && g.nodes.Keys == FullIdSet(namespaceName, ids)
    requires forall k :: 0 <= k < |translations| ==> Acceptable(ids, translations[k])
    modifies g`net, g`links, g`inputsReady
    ensures g.Valid() && NetOf(g.net, g.nodes, namespaceName, translations, |translations|)
  {
    hide g.Valid;
    for k := 0 to |translations|
      invariant g.Valid() && NetOf(g.net, g.nodes, namespaceName, translations, k)
    {
      AllKnown(g.nodes, namespaceName, ids, translations[k]);
      NetOfMore(g.net, g.nodes, namespaceName, translations, k);
      g.AddTranslation(translations[k].cb, FullIds(namespaceName, translations[k].inputs),
                       FullIds(namespaceName, translations[k].outputs));
    }
  }
}
