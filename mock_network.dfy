/** The mock network backend of the network service
    (nomos-services/network/src/backends/mock.rs): it keeps, per topic, the
    plain messages and the weighted messages sent to it, in send order, and
    answers queries for them. Topics (`u64`) and weights (`usize`) are
    naturals. */
module MockNetwork {

  datatype MockMessage =
    | Normal(topic: nat, msg: string)
    | Weighted(weight: nat, msg: string, topic: nat)

  datatype MockConfig = MockConfig(initialPeers: seq<nat>, predefinedMessages: seq<MockMessage>, durationMillis: nat)

  /** A request to the backend. The queries' reply channels are the return
      value of `Mock.Process`. */
  datatype MockBackendMessage =
    | NormalMessage(topic: nat, msg: string)
    | WeightedMessage(topic: nat, weight: nat, msg: string)
    | Query(topic: nat)
    | QueryWeighted(topic: nat)

  /** What a request sends back on its reply channel. */
  datatype Reply =
    | NoReply
    | Messages(messages: seq<string>)
    | WeightedMessages(weighted: seq<(nat, string)>)

  /** The list stored for a topic, or the empty list when there is none
      (`get(&topic).cloned().unwrap_or(Vec::new())`). */
  function Lookup<T>(store: map<nat, seq<T>>, topic: nat): (r: seq<T>)
    ensures topic !in store ==> r == []
    ensures topic in store ==> r == store[topic]
  {
    if topic in store then store[topic] else []
  }

  /** `entry(topic).or_insert_with(Vec::new).push(x)`: the topic's list,
      created empty when absent, grows by `x` at its end; other topics keep
      theirs. */
  function Append<T>(store: map<nat, seq<T>>, topic: nat, x: T): (r: map<nat, seq<T>>)
    ensures r.Keys == store.Keys + {topic}
    ensures Lookup(r, topic) == Lookup(store, topic) + [x]
    ensures forall t :: t != topic ==> Lookup(r, t) == Lookup(store, t)
  {
    store[topic := Lookup(store, topic) + [x]]
  }

  /** The store after sending each of `xs` to a topic in turn. */
  function AppendAll<T>(store: map<nat, seq<T>>, topic: nat, xs: seq<T>): map<nat, seq<T>>
  {
    if |xs| == 0 then store
    else Append(AppendAll(store, topic, xs[..|xs| - 1]), topic, xs[|xs| - 1])
  }

  /** After a run of sends to a topic, a query of that topic gives what was
      there before followed by the messages sent, in send order; other
      topics are untouched. */
  lemma {:induction false} SendsInOrder<T>(store: map<nat, seq<T>>, topic: nat, xs: seq<T>)
    ensures Lookup(AppendAll(store, topic, xs), topic) == Lookup(store, topic) + xs
    ensures forall t :: t != topic ==> Lookup(AppendAll(store, topic, xs), t) == Lookup(store, t)
  {
    if |xs| > 0 {
      SendsInOrder(store, topic, xs[..|xs| - 1]);
      assert xs == xs[..|xs| - 1] + [xs[|xs| - 1]];
    }
  }

  /** The stores of a new backend: an empty list for each initial peer. */
  function EmptyLists<T>(peers: seq<nat>): (r: map<nat, seq<T>>)
    ensures forall t :: t in r <==> t in peers
    ensures forall t :: Lookup(r, t) == []
  {
    map p | p in peers :: []
  }

  /** `Mock`: the two message stores. The broadcast channel of network
      events is not part of this model. */
  class Mock {
    var messages: map<nat, seq<string>>
    var weightedMessages: map<nat, seq<(nat, string)>>

    /** `Mock::new`: both stores hold an empty list for each initial peer
        and nothing else. */
    constructor(config: MockConfig)
      ensures messages == EmptyLists(config.initialPeers)
      ensures weightedMessages == EmptyLists(config.initialPeers)
    {
      messages := map p | p in config.initialPeers :: [];
      weightedMessages := map p | p in config.initialPeers :: [];
    }

    /** `Mock::process`: a plain or weighted message is appended to its
        topic's list in its own store, leaving the other store alone; a
        query answers the topic's list, or the empty list, and changes
        nothing. */
    method Process(msg: MockBackendMessage) returns (reply: Reply)
      modifies this
      ensures msg.NormalMessage? ==>
        && messages == Append(old(messages), msg.topic, msg.msg)
        && weightedMessages == old(weightedMessages)
        && reply == NoReply
      ensures msg.WeightedMessage? ==>
        && weightedMessages == Append(old(weightedMessages), msg.topic, (msg.weight, msg.msg))
        && messages == old(messages)
        && reply == NoReply
      ensures msg.Query? ==>
        && reply == Messages(Lookup(messages, msg.topic))
        && messages == old(messages) && weightedMessages == old(weightedMessages)
      ensures msg.QueryWeighted? ==>
        && reply == WeightedMessages(Lookup(weightedMessages, msg.topic))
        && messages == old(messages) && weightedMessages == old(weightedMessages)
    {
      match msg
      case NormalMessage(topic, m) =>
        var list := if topic in messages then messages[topic] else [];
        messages := messages[topic := list + [m]];
        reply := NoReply;
      case WeightedMessage(topic, weight, m) =>
        var list := if topic in weightedMessages then weightedMessages[topic] else [];
        weightedMessages := weightedMessages[topic := list + [(weight, m)]];
        reply := NoReply;
      case Query(topic) =>
        var msgs := if topic in messages then messages[topic] else [];
        reply := Messages(msgs);
      case QueryWeighted(topic) =>
        var msgs := if topic in weightedMessages then weightedMessages[topic] else [];
        reply := WeightedMessages(msgs);
    }
  }
}
