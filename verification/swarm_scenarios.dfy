/**
 * The coordinator's behaviour on the situations its own tests exercise, and
 * a few more that follow from the operations' contracts, stated over
 * arbitrary overlay answers and codecs.
 */
module SwarmScenarios {
  import opened Wrappers
  import opened Messages
  import opened ShortPeerIds
  import opened Errors
  import opened Commands
  import SM = SwarmManager

  /** Sending with no topic joined fails, replies so, and leaves the state, log included, untouched. */
  lemma SendWithoutTopic(c: SM.Coordinator, codec: SM.Codec, to: Responder, msg: Message, answers: SM.Answers)
    requires c.currentTopic.None?
    ensures SM.SendMessage(c, codec, msg, answers.published).1 == Failure(NoSubscribedTopic)
    ensures SM.HandleCommand(c, codec, Some(SendMessage(to, msg)), answers) == (c, Some(Reply(to, SM.NotSubscribedReply)))
  {
  }

  /**
   * A coordinator built with a topic and no peers tries to publish on that
   * topic; the overlay's refusal comes back as `Other(InsufficientPeers)`,
   * and the topic stays joined.
   */
  lemma SendWithoutPeers(codec: SM.Codec, to: Responder, msg: Message, answers: SM.Answers)
    requires codec.encode(msg).Some?
    requires answers.published == Failure(InsufficientPeers)
    ensures var c := SM.WithTopic(SM.Initial, "3test", Success(true));
      && SM.SendMessage(c, codec, msg, answers.published).1 == Failure(Other(InsufficientPeers))
      && SM.HandleCommand(c, codec, Some(SendMessage(to, msg)), answers) ==
           (c.(calls := c.calls + [SM.PublishCall("3test", codec.encode(msg).value)]), Some(Reply(to, SM.SendFailedReply)))
  {
  }

  /**
   * A subscribe command makes its topic current whether the overlay says the
   * subscription is new or not; the only overlay call is the subscribe, so the
   * topic that was current before is never left.
   */
  lemma SubscribeSetsTopic(c: SM.Coordinator, codec: SM.Codec, to: Responder, name: string, answers: SM.Answers)
    requires answers.subscribed.Success?
    ensures var (c', reply) := SM.HandleCommand(c, codec, Some(Subscribe(to, name)), answers);
      && c'.currentTopic == Some(name)
      && c'.calls == c.calls + [SM.SubscribeCall(name, true)]
      && reply == Some(Reply(to, if answers.subscribed.value then SM.SubscribedReply else SM.AlreadySubscribedReply))
  {
  }

  /** A refused subscribe keeps whatever topic was current. */
  lemma FailedSubscribeKeepsTopic(c: SM.Coordinator, codec: SM.Codec, to: Responder, name: string, answers: SM.Answers)
    requires answers.subscribed.Failure?
    ensures var (c', reply) := SM.HandleCommand(c, codec, Some(Subscribe(to, name)), answers);
      && c'.currentTopic == c.currentTopic
      && reply == Some(Reply(to, SM.SubscribeFailedReply))
  {
  }

  /** Of two accepted subscribes in a row, the second topic is the current one. */
  lemma SecondSubscribeWins(c: SM.Coordinator, first: string, second: string, a1: bool, a2: bool)
    ensures var c1 := SM.Subscribe(c, first, Success(a1)).0;
      var c2 := SM.Subscribe(c1, second, Success(a2)).0;
      && c2.currentTopic == Some(second)
      && c2.calls == c.calls + [SM.SubscribeCall(first, true), SM.SubscribeCall(second, true)]
  {
  }

  /** An unsubscribe command drops the current topic, whatever name it carries and whatever the overlay says. */
  lemma UnsubscribeClearsTopic(codec: SM.Codec, to: Responder, name: string, answers: SM.Answers)
    ensures var c := SM.WithTopic(SM.Initial, "5test", Success(true));
      var (c', reply) := SM.HandleCommand(c, codec, Some(Unsubscribe(to, name)), answers);
      && c'.currentTopic.None?
      && reply == Some(Reply(to, if answers.unsubscribed then SM.UnsubscribedReply else SM.NotUnsubscribedReply))
  {
  }

  /** A peer that was discovered and then expired is no longer an explicit peer; no other peer is affected by the expiry. */
  lemma DiscoverThenExpire(c: SM.Coordinator, codec: SM.Codec, found: seq<(PeerId, SM.Multiaddr)>, lost: seq<(PeerId, SM.Multiaddr)>)
    ensures var c2 := SM.HandleEvent(SM.HandleEvent(c, codec, SM.Discovered(found)), codec, SM.Expired(lost));
      && c2.explicitPeers == (c.explicitPeers + SM.PeersOf(found)) - SM.PeersOf(lost)
      && c2.currentTopic == c.currentTopic
      && forall i :: 0 <= i < |lost| ==> lost[i].0 !in c2.explicitPeers
  {
    var c2 := SM.HandleEvent(SM.HandleEvent(c, codec, SM.Discovered(found)), codec, SM.Expired(lost));
    forall i | 0 <= i < |lost|
      ensures lost[i].0 !in c2.explicitPeers
    {
      assert lost[i].0 in SM.PeersOf(lost);
    }
  }

  /** The send path does not filter empty messages: one is published like any other. */
  lemma EmptyMessageIsPublished(c: SM.Coordinator, codec: SM.Codec, to: Responder, answers: SM.Answers)
    requires c.currentTopic.Some?
    requires codec.encode(Message(None, None)).Some?
    ensures var c' := SM.HandleCommand(c, codec, Some(SendMessage(to, Message(None, None))), answers).0;
      c'.calls == c.calls + [SM.PublishCall(c.currentTopic.value, codec.encode(Message(None, None)).value)]
  {
  }

  /** The codec hands back every message it managed to encode. */
  ghost predicate RoundTrips(codec: SM.Codec) {
    forall m :: codec.encode(m).Some? ==> codec.decode(codec.encode(m).value) == Some(m)
  }

  /**
   * Two coordinators on the same topic: what the first publishes for a send
   * command, once gossiped to the second, is forwarded by the second exactly
   * once, equal to the message sent and labelled with the event's propagation
   * source.
   * An empty message is published but never forwarded.
   */
  lemma Communication(c1: SM.Coordinator, c2: SM.Coordinator, codec: SM.Codec, to: Responder, msg: Message,
                      answers: SM.Answers, relay: PeerId, id: SM.MessageId)
    requires RoundTrips(codec)
    requires c1.currentTopic.Some? && codec.encode(msg).Some?
    requires answers.published.Success?
    ensures var (c1', reply) := SM.HandleCommand(c1, codec, Some(SendMessage(to, msg)), answers);
      && reply == Some(Reply(to, SM.SentReply))
      && c1'.calls == c1.calls + [SM.PublishCall(c1.currentTopic.value, codec.encode(msg).value)]
      && var c2' := SM.HandleEvent(c2, codec, SM.GossipMessage(relay, id, c1'.calls[|c1.calls|].payload));
      && (!IsEmpty(msg) ==> c2'.outbox == c2.outbox + [(msg, From(relay))])
      && (IsEmpty(msg) ==> c2'.outbox == c2.outbox)
  {
  }

  /**
   * However the inputs interleave and whatever the overlay answers, a
   * coordinator started fresh never publishes while no topic is current,
   * and always publishes on the topic that is.
   */
  lemma {:induction false} NeverPublishesWithoutTopic(codec: SM.Codec, inputs: seq<SM.Input>)
    ensures var calls := SM.Run(SM.Initial, codec, inputs).0.calls;
      forall k :: 0 <= k < |calls| && calls[k].PublishCall? ==> SM.TopicAfter(calls[..k]) == Some(calls[k].topic)
  {
    SM.InitialValid();
    SM.RunValid(SM.Initial, codec, inputs);
  }
}
