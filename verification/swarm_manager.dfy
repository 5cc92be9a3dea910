/**
 * The chat coordinator (`SwarmManager`): it owns the current topic and the
 * overlay handle, answers commands from the front end and turns overlay
 * events into registry updates and forwarded messages.
 *
 * The overlay and the codec are outside the model. Each step receives what
 * the overlay answered (`Answers`), and the codec is a pair of functions
 * (`Codec`). Every call the coordinator makes to the overlay is appended to a
 * log, so that what it did, and in which order, can be stated and checked.
 */
module SwarmManager {
  import opened Wrappers
  import opened Files
  import opened Messages
  import opened ShortPeerIds
  import opened Errors
  import opened Commands

  /** A gossipsub topic, identified by its name (`IdentTopic` hashes to the name). */
  type Topic = string

  type Bytes = seq<byte>

  /** The binary message codec; `None` is an encode or decode error. */
  datatype Codec = Codec(encode: Message -> Option<Bytes>, decode: Bytes -> Option<Message>)

  /** One call into the overlay, with the subscribe outcome where it matters. */
  datatype ProviderCall =
    | SubscribeCall(topic: Topic, accepted: bool)
    | UnsubscribeCall(topic: Topic)
    | PublishCall(topic: Topic, payload: Bytes)
    | AddExplicitPeer(peer: PeerId)
    | RemoveExplicitPeer(peer: PeerId)

  /** A received message with the label of the peer it arrived from, as handed to the front end. */
  type Envelope = (Message, ShortPeerId)

  datatype Coordinator = Coordinator(
    currentTopic: Option<Topic>,
    explicitPeers: set<PeerId>,
    outbox: seq<Envelope>,
    calls: seq<ProviderCall>)

  /** The coordinator as `SwarmManager::build` leaves it: no topic, no peers, nothing sent. */
  const Initial: Coordinator := Coordinator(None, {}, [], [])

  /** What the overlay answers to the calls one command may make. */
  datatype Answers = Answers(
    subscribed: Result<bool, SubscriptionError>,
    unsubscribed: bool,
    published: Result<(), PublishError>)

  // ---------------------------------------------------------------------
  // Topic operations

  /**
   * `subscribe`: ask the overlay to join `name`. On success the current topic
   * becomes `name`, whether or not it was new to the overlay, and whatever
   * topic was current before is left joined. On failure nothing changes but
   * the logged attempt.
   */
  function Subscribe(c: Coordinator, name: Topic, answer: Result<bool, SubscriptionError>)
    : (r: (Coordinator, Result<bool, SubscriptionError>))
    ensures r.1 == answer
    ensures r.0.calls == c.calls + [SubscribeCall(name, answer.Success?)]
    ensures r.0.currentTopic == if answer.Success? then Some(name) else c.currentTopic
    ensures r.0.explicitPeers == c.explicitPeers && r.0.outbox == c.outbox
  {
    var logged := c.(calls := c.calls + [SubscribeCall(name, answer.Success?)]);
    match answer
    case Failure(_) => (logged, answer)
    case Success(_) => (logged.(currentTopic := Some(name)), answer)
  }

  /**
   * `unsubscribe`: ask the overlay to leave `name` and drop the current topic,
   * whether or not `name` was the current topic and whatever the overlay said.
   */
  function Unsubscribe(c: Coordinator, name: Topic, answer: bool): (r: (Coordinator, bool))
    ensures r.1 == answer
    ensures r.0.currentTopic.None?
    ensures r.0.calls == c.calls + [UnsubscribeCall(name)]
    ensures r.0.explicitPeers == c.explicitPeers && r.0.outbox == c.outbox
  {
    (c.(currentTopic := None, calls := c.calls + [UnsubscribeCall(name)]), answer)
  }

  /** `with_topic`: subscribe while building, logging the outcome instead of replying. */
  function WithTopic(c: Coordinator, name: Topic, answer: Result<bool, SubscriptionError>): (r: Coordinator)
    ensures answer.Success? ==> r.currentTopic == Some(name)
    ensures answer.Failure? ==> r.currentTopic == c.currentTopic
    ensures r.calls == c.calls + [SubscribeCall(name, answer.Success?)]
  {
    Subscribe(c, name, answer).0
  }

  // ---------------------------------------------------------------------
  // Sending

  /**
   * `send_message`: with no current topic, fail before touching the codec or
   * the overlay. Otherwise encode (an encode error is `CantEncodeMessage`),
   * publish the bytes on the current topic, and report a publish error as
   * `Other`. An empty message is published like any other.
   */
  function SendMessage(c: Coordinator, codec: Codec, msg: Message, answer: Result<(), PublishError>)
    : (r: (Coordinator, Result<(), SendingError>))
    ensures r.0.currentTopic == c.currentTopic
    ensures r.0.explicitPeers == c.explicitPeers && r.0.outbox == c.outbox
    ensures c.currentTopic.None? ==> r == (c, Failure(NoSubscribedTopic))
    ensures c.currentTopic.Some? && codec.encode(msg).None? ==> r == (c, Failure(CantEncodeMessage))
    ensures c.currentTopic.Some? && codec.encode(msg).Some? ==>
      && r.0.calls == c.calls + [PublishCall(c.currentTopic.value, codec.encode(msg).value)]
      && (r.1.Success? <==> answer.Success?)
      && (answer.Failure? ==> r.1 == Failure(Other(answer.error)))
  {
    match c.currentTopic
    case None => (c, Failure(NoSubscribedTopic))
    case Some(topic) =>
      match codec.encode(msg)
      case None => (c, Failure(CantEncodeMessage))
      case Some(payload) =>
        var published := c.(calls := c.calls + [PublishCall(topic, payload)]);
        match answer
        case Success(_) => (published, Success(()))
        case Failure(e) => (published, Failure(Other(e)))
  }

  // ---------------------------------------------------------------------
  // Replies

  const SentReply: string := "Ok"
  const NotSubscribedReply: string := "You are not subscribed to any topic"
  const CantEncodeReply: string := "Something wrong with the message"
  const SendFailedReply: string := "Something went wrong while sending message"
  const SubscribedReply: string := "You have subscribed to the topic successfully"
  const AlreadySubscribedReply: string := "You are already subscribed to to this topic"
  const SubscribeFailedReply: string := "Something went wrong"
  const UnsubscribedReply: string := "You have unsubscribed from the topic successfully"
  const NotUnsubscribedReply: string := "You haven't been subscribed to this topic"

  /** The line a send command is answered with, one per outcome class. */
  function SendReply(outcome: Result<(), SendingError>): (r: string)
    ensures r == SentReply <==> outcome.Success?
    ensures r == NotSubscribedReply <==> outcome == Failure(NoSubscribedTopic)
    ensures r == CantEncodeReply <==> outcome == Failure(CantEncodeMessage)
    ensures r == SendFailedReply <==> outcome.Failure? && outcome.error.Other?
  {
    match outcome
    case Success(_) => SentReply
    case Failure(NoSubscribedTopic) => NotSubscribedReply
    case Failure(CantEncodeMessage) => CantEncodeReply
    case Failure(Other(_)) => SendFailedReply
  }

  /** The line a subscribe command is answered with. */
  function SubscribeReply(outcome: Result<bool, SubscriptionError>): (r: string)
    ensures r == SubscribedReply <==> outcome == Success(true)
    ensures r == AlreadySubscribedReply <==> outcome == Success(false)
    ensures r == SubscribeFailedReply <==> outcome.Failure?
  {
    match outcome
    case Success(true) => SubscribedReply
    case Success(false) => AlreadySubscribedReply
    case Failure(_) => SubscribeFailedReply
  }

  /** The line an unsubscribe command is answered with. */
  function UnsubscribeReply(outcome: bool): (r: string)
    ensures r == UnsubscribedReply <==> outcome
    ensures r == NotUnsubscribedReply <==> !outcome
  {
    if outcome then UnsubscribedReply else NotUnsubscribedReply
  }

  /** The outcome classes a send reply distinguishes: the publish error itself is not shown. */
  predicate SameSendClass(a: Result<(), SendingError>, b: Result<(), SendingError>) {
    match (a, b)
    case (Success(_), Success(_)) => true
    case (Failure(Other(_)), Failure(Other(_))) => true
    case _ => a == b
  }

  /** The reply to a send tells the user exactly which of the four outcomes happened. */
  lemma SendReplyDistinguishes(a: Result<(), SendingError>, b: Result<(), SendingError>)
    ensures SendReply(a) == SendReply(b) <==> SameSendClass(a, b)
  {
  }

  /** The reply to a subscribe tells apart new, repeated and failed subscriptions. */
  lemma SubscribeReplyDistinguishes(a: Result<bool, SubscriptionError>, b: Result<bool, SubscriptionError>)
    ensures SubscribeReply(a) == SubscribeReply(b) <==> (a.Success? <==> b.Success?) && (a.Success? ==> a.value == b.value)
  {
  }

  /** The reply to an unsubscribe reflects the overlay's answer. */
  lemma UnsubscribeReplyDistinguishes(a: bool, b: bool)
    ensures UnsubscribeReply(a) == UnsubscribeReply(b) <==> a == b
  {
  }

  // ---------------------------------------------------------------------
  // Commands

  /**
   * `handle_command`: every command gets exactly one reply, addressed to its
   * own slot; no command (a closed command queue) changes nothing.
   */
  function HandleCommand(c: Coordinator, codec: Codec, command: Option<Command>, answers: Answers)
    : (r: (Coordinator, Option<Reply>))
    ensures command.None? ==> r == (c, None)
    ensures command.Some? ==> r.1.Some? && r.1.value.to == command.value.responder
    ensures r.0.explicitPeers == c.explicitPeers && r.0.outbox == c.outbox
    ensures c.calls <= r.0.calls
  {
    match command
    case None => (c, None)
    case Some(SendMessage(to, msg)) =>
      var (c', outcome) := SendMessage(c, codec, msg, answers.published);
      (c', Some(Reply(to, SendReply(outcome))))
    case Some(Subscribe(to, name)) =>
      var (c', outcome) := Subscribe(c, name, answers.subscribed);
      (c', Some(Reply(to, SubscribeReply(outcome))))
    case Some(Unsubscribe(to, name)) =>
      var (c', outcome) := Unsubscribe(c, name, answers.unsubscribed);
      (c', Some(Reply(to, UnsubscribeReply(outcome))))
  }

  // ---------------------------------------------------------------------
  // Overlay events

  type Multiaddr = string
  type MessageId = string

  datatype Event =
    | Discovered(found: seq<(PeerId, Multiaddr)>)
    | Expired(lost: seq<(PeerId, Multiaddr)>)
    | GossipMessage(propagationSource: PeerId, id: MessageId, data: Bytes)
    | NewListenAddr(address: Multiaddr)
    | OtherEvent

  function PeersOf(peers: seq<(PeerId, Multiaddr)>): set<PeerId> {
    set i | 0 <= i < |peers| :: peers[i].0
  }

  /** The peers of a non-empty list: its first peer and the peers of the rest. */
  lemma PeersOfFirst(peers: seq<(PeerId, Multiaddr)>)
    requires peers != []
    ensures PeersOf(peers) == {peers[0].0} + PeersOf(peers[1..])
  {
    assert forall i :: 0 <= i < |peers[1..]| ==> peers[1..][i] == peers[i + 1];
    assert forall i :: 1 <= i < |peers| ==> peers[i] == peers[1..][i - 1];
  }

  /** The discovery loop: register each listed peer with the overlay, in order. */
  function AddPeers(c: Coordinator, peers: seq<(PeerId, Multiaddr)>): (r: Coordinator)
    ensures r.explicitPeers == c.explicitPeers + PeersOf(peers)
    ensures |r.calls| == |c.calls| + |peers| && r.calls[..|c.calls|] == c.calls
    ensures forall i :: 0 <= i < |peers| ==> r.calls[|c.calls| + i] == AddExplicitPeer(peers[i].0)
    ensures r.currentTopic == c.currentTopic && r.outbox == c.outbox
    decreases |peers|
  {
    if peers == [] then c
    else
      var c' := c.(explicitPeers := c.explicitPeers + {peers[0].0},
                   calls := c.calls + [AddExplicitPeer(peers[0].0)]);
      PeersOfFirst(peers);
      AddPeers(c', peers[1..])
  }

  /** The expiry loop: deregister each listed peer, in order. */
  function RemovePeers(c: Coordinator, peers: seq<(PeerId, Multiaddr)>): (r: Coordinator)
    ensures r.explicitPeers == c.explicitPeers - PeersOf(peers)
    ensures |r.calls| == |c.calls| + |peers| && r.calls[..|c.calls|] == c.calls
    ensures forall i :: 0 <= i < |peers| ==> r.calls[|c.calls| + i] == RemoveExplicitPeer(peers[i].0)
    ensures r.currentTopic == c.currentTopic && r.outbox == c.outbox
    decreases |peers|
  {
    if peers == [] then c
    else
      var c' := c.(explicitPeers := c.explicitPeers - {peers[0].0},
                   calls := c.calls + [RemoveExplicitPeer(peers[0].0)]);
      PeersOfFirst(peers);
      RemovePeers(c', peers[1..])
  }

  /**
   * The gossip arm: undecodable data and empty messages are dropped; anything
   * else is forwarded once, labelled with the peer gossipsub received it from
   * (its propagation source, which relayed it and need not have written it).
   */
  function Receive(c: Coordinator, codec: Codec, relay: PeerId, data: Bytes): (r: Coordinator)
    ensures codec.decode(data).None? ==> r == c
    ensures codec.decode(data).Some? && IsEmpty(codec.decode(data).value) ==> r == c
    ensures codec.decode(data).Some? && !IsEmpty(codec.decode(data).value) ==>
      r == c.(outbox := c.outbox + [(codec.decode(data).value, From(relay))])
  {
    match codec.decode(data)
    case None => c
    case Some(msg) =>
      if IsEmpty(msg) then c
      else c.(outbox := c.outbox + [(msg, From(relay))])
  }

  /** `handle_event`: no overlay event ever touches the current topic. */
  function HandleEvent(c: Coordinator, codec: Codec, event: Event): (r: Coordinator)
    ensures r.currentTopic == c.currentTopic
    ensures !event.GossipMessage? ==> r.outbox == c.outbox
    ensures !event.Discovered? && !event.Expired? ==> r.explicitPeers == c.explicitPeers && r.calls == c.calls
    ensures c.calls <= r.calls && c.outbox <= r.outbox
  {
    match event
    case Discovered(found) => AddPeers(c, found)
    case Expired(lost) => RemovePeers(c, lost)
    case GossipMessage(relay, _, data) => Receive(c, codec, relay, data)
    case NewListenAddr(_) => c
    case OtherEvent => c
  }

  // ---------------------------------------------------------------------
  // The event loop, one input at a time

  /** Whichever of the two sources `run` found ready. */
  datatype Input =
    | CommandReady(command: Option<Command>, answers: Answers)
    | EventReady(event: Event)

  function Step(c: Coordinator, codec: Codec, input: Input): (r: (Coordinator, Option<Reply>))
    ensures input.EventReady? ==> r.1.None?
    ensures input.CommandReady? ==> r.1.Some? == input.command.Some?
    ensures input.CommandReady? && input.command.Some? ==> r.1.value.to == input.command.value.responder
    ensures c.calls <= r.0.calls && c.outbox <= r.0.outbox
  {
    match input
    case CommandReady(command, answers) => HandleCommand(c, codec, command, answers)
    case EventReady(event) => (HandleEvent(c, codec, event), None)
  }

  /**
   * The state after a run of inputs, and the replies produced along the way:
   * the overlay call log and the messages forwarded only ever grow, and there
   * is at most one reply per input.
   */
  function Run(c: Coordinator, codec: Codec, inputs: seq<Input>): (r: (Coordinator, seq<Reply>))
    ensures c.calls <= r.0.calls && c.outbox <= r.0.outbox
    ensures |r.1| <= |inputs|
    decreases |inputs|
  {
    if inputs == [] then (c, [])
    else
      var (c', reply) := Step(c, codec, inputs[0]);
      var (final, replies) := Run(c', codec, inputs[1..]);
      (final, (if reply.Some? then [reply.value] else []) + replies)
  }

  /** The reply slots of the commands among `inputs`, in arrival order. */
  function CommandSlots(inputs: seq<Input>): seq<Responder> {
    if inputs == [] then []
    else
      var rest := CommandSlots(inputs[1..]);
      match inputs[0]
      case CommandReady(Some(command), _) => [command.responder] + rest
      case _ => rest
  }

  function Recipients(replies: seq<Reply>): seq<Responder> {
    if replies == [] then [] else [replies[0].to] + Recipients(replies[1..])
  }

  /** A run replies once to every command, in arrival order, and to nothing else. */
  lemma {:induction false} RunRepliesOncePerCommand(c: Coordinator, codec: Codec, inputs: seq<Input>)
    ensures Recipients(Run(c, codec, inputs).1) == CommandSlots(inputs)
    decreases |inputs|
  {
    if inputs != [] {
      var (c', reply) := Step(c, codec, inputs[0]);
      RunRepliesOncePerCommand(c', codec, inputs[1..]);
      var replies := Run(c', codec, inputs[1..]).1;
      if reply.Some? {
        assert ([reply.value] + replies)[1..] == replies;
        assert Recipients(Run(c, codec, inputs).1) == [reply.value.to] + Recipients(replies);
      } else {
        assert Run(c, codec, inputs).1 == replies;
      }
    }
  }

  // ---------------------------------------------------------------------
  // The invariant: the state is what the call log says it should be

  /** The topic the log leaves current: the last accepted subscribe, unless an unsubscribe came after. */
  ghost function TopicAfter(calls: seq<ProviderCall>): Option<Topic>
    decreases |calls|
  {
    if calls == [] then None
    else
      var before := TopicAfter(calls[..|calls| - 1]);
      match calls[|calls| - 1]
      case SubscribeCall(topic, accepted) => if accepted then Some(topic) else before
      case UnsubscribeCall(_) => None
      case _ => before
  }

  /** The explicit peers the log leaves registered. */
  ghost function PeersAfter(calls: seq<ProviderCall>): set<PeerId>
    decreases |calls|
  {
    if calls == [] then {}
    else
      var before := PeersAfter(calls[..|calls| - 1]);
      match calls[|calls| - 1]
      case AddExplicitPeer(p) => before + {p}
      case RemoveExplicitPeer(p) => before - {p}
      case _ => before
  }

  /** Every publish in the log went to the topic that was current when it was made. */
  ghost predicate PublishedOnCurrentTopic(calls: seq<ProviderCall>) {
    forall k :: 0 <= k < |calls| && calls[k].PublishCall? ==> TopicAfter(calls[..k]) == Some(calls[k].topic)
  }

  ghost predicate ForwardsOnlyNonEmpty(outbox: seq<Envelope>) {
    forall i :: 0 <= i < |outbox| ==> !IsEmpty(outbox[i].0)
  }

  ghost predicate Valid(c: Coordinator) {
    && c.currentTopic == TopicAfter(c.calls)
    && c.explicitPeers == PeersAfter(c.calls)
    && PublishedOnCurrentTopic(c.calls)
    && ForwardsOnlyNonEmpty(c.outbox)
  }

  lemma InitialValid()
    ensures Valid(Initial)
  {
  }

  /** Appending one call updates the log's view the way the call says. */
  lemma AppendCall(calls: seq<ProviderCall>, call: ProviderCall)
    requires PublishedOnCurrentTopic(calls)
    requires call.PublishCall? ==> TopicAfter(calls) == Some(call.topic)
    ensures PublishedOnCurrentTopic(calls + [call])
    ensures call.SubscribeCall? ==>
      TopicAfter(calls + [call]) == if call.accepted then Some(call.topic) else TopicAfter(calls)
    ensures call.UnsubscribeCall? ==> TopicAfter(calls + [call]).None?
    ensures !call.SubscribeCall? && !call.UnsubscribeCall? ==> TopicAfter(calls + [call]) == TopicAfter(calls)
    ensures call.AddExplicitPeer? ==> PeersAfter(calls + [call]) == PeersAfter(calls) + {call.peer}
    ensures call.RemoveExplicitPeer? ==> PeersAfter(calls + [call]) == PeersAfter(calls) - {call.peer}
    ensures !call.AddExplicitPeer? && !call.RemoveExplicitPeer? ==> PeersAfter(calls + [call]) == PeersAfter(calls)
  {
    var all := calls + [call];
    assert all[..|calls|] == calls;
    forall k | 0 <= k < |calls| ensures all[..k] == calls[..k] {
    }
  }

  lemma {:induction false} AddPeersValid(c: Coordinator, peers: seq<(PeerId, Multiaddr)>)
    requires Valid(c)
    ensures Valid(AddPeers(c, peers))
    decreases |peers|
  {
    if peers != [] {
      AppendCall(c.calls, AddExplicitPeer(peers[0].0));
      var c' := c.(explicitPeers := c.explicitPeers + {peers[0].0},
                   calls := c.calls + [AddExplicitPeer(peers[0].0)]);
      AddPeersValid(c', peers[1..]);
    }
  }

  lemma {:induction false} RemovePeersValid(c: Coordinator, peers: seq<(PeerId, Multiaddr)>)
    requires Valid(c)
    ensures Valid(RemovePeers(c, peers))
    decreases |peers|
  {
    if peers != [] {
      AppendCall(c.calls, RemoveExplicitPeer(peers[0].0));
      var c' := c.(explicitPeers := c.explicitPeers - {peers[0].0},
                   calls := c.calls + [RemoveExplicitPeer(peers[0].0)]);
      RemovePeersValid(c', peers[1..]);
    }
  }

  /** Every step keeps the state in line with the call log. */
  lemma StepValid(c: Coordinator, codec: Codec, input: Input)
    requires Valid(c)
    ensures Valid(Step(c, codec, input).0)
  {
    match input
    case CommandReady(Some(SendMessage(_, msg)), answers) =>
      if c.currentTopic.Some? && codec.encode(msg).Some? {
        AppendCall(c.calls, PublishCall(c.currentTopic.value, codec.encode(msg).value));
      }
    case CommandReady(Some(Subscribe(_, name)), answers) =>
      AppendCall(c.calls, SubscribeCall(name, answers.subscribed.Success?));
    case CommandReady(Some(Unsubscribe(_, name)), answers) =>
      AppendCall(c.calls, UnsubscribeCall(name));
    case CommandReady(None, _) =>
    case EventReady(Discovered(found)) => AddPeersValid(c, found);
    case EventReady(Expired(lost)) => RemovePeersValid(c, lost);
    case EventReady(_) =>
  }

  /** ... and so does every run. */
  lemma {:induction false} RunValid(c: Coordinator, codec: Codec, inputs: seq<Input>)
    requires Valid(c)
    ensures Valid(Run(c, codec, inputs).0)
    decreases |inputs|
  {
    if inputs != [] {
      StepValid(c, codec, inputs[0]);
      RunValid(Step(c, codec, inputs[0]).0, codec, inputs[1..]);
    }
  }
}
