/**
 * Commands from the front end to the coordinator, each carrying the sending
 * half of a one-shot reply channel.
 */
module Commands {
  import opened Wrappers
  import opened Messages

  /** The coordinator's half of a one-shot channel (`oneshot::Sender`), naming its slot. */
  datatype Responder = Responder(slot: nat)

  /** The issuer's half (`oneshot::Receiver`). */
  datatype Awaiter = Awaiter(slot: nat)

  /** A one-shot slot: still open, answered once, or given up by its receiver. */
  datatype SlotState = Waiting | Answered(answer: string) | Abandoned

  /** Every one-shot channel opened so far; a channel's slot is its index. */
  type Channels = seq<SlotState>

  /** `oneshot::channel()`: a new, empty slot numbered past every slot opened before. */
  function Open(ch: Channels): (r: (Responder, Awaiter, Channels))
    ensures r.0.slot == r.1.slot == |ch|
    ensures |r.2| == |ch| + 1 && r.2[..|ch|] == ch && r.2[r.0.slot] == Waiting
  {
    (Responder(|ch|), Awaiter(|ch|), ch + [Waiting])
  }

  /**
   * `oneshot::Sender::send`: fills a waiting slot; when the receiver is gone
   * (or the slot was already filled) the value comes back as the error and
   * nothing changes.
   */
  function Send(ch: Channels, to: Responder, answer: string): (r: Result<Channels, string>)
    requires to.slot < |ch|
    ensures r.Success? <==> ch[to.slot] == Waiting
    ensures r.Success? ==> |r.value| == |ch| && r.value[to.slot] == Answered(answer)
    ensures r.Success? ==> forall i :: 0 <= i < |ch| && i != to.slot ==> r.value[i] == ch[i]
    ensures r.Failure? ==> r.error == answer
  {
    if ch[to.slot] == Waiting then Success(ch[to.slot := Answered(answer)]) else Failure(answer)
  }

  /** A slot is answered at most once: a second send to it fails and leaves the first answer. */
  lemma SendAtMostOnce(ch: Channels, to: Responder, first: string, second: string)
    requires to.slot < |ch| && Send(ch, to, first).Success?
    ensures Send(Send(ch, to, first).value, to, second) == Failure(second)
    ensures Send(ch, to, first).value[to.slot] == Answered(first)
  {
  }

  /**
   * Dropping the receiver (the issuer stops waiting): an unanswered slot is
   * abandoned; an answered one keeps its answer.
   */
  function Drop(ch: Channels, a: Awaiter): (r: Channels)
    requires a.slot < |ch|
    ensures |r| == |ch|
    ensures forall i :: 0 <= i < |ch| && i != a.slot ==> r[i] == ch[i]
    ensures ch[a.slot] == Waiting ==> r[a.slot] == Abandoned
    ensures ch[a.slot] != Waiting ==> r[a.slot] == ch[a.slot]
  {
    if ch[a.slot] == Waiting then ch[a.slot := Abandoned] else ch
  }

  /** Once the issuer has given up, the coordinator's answer is refused. */
  lemma SendAfterDrop(ch: Channels, a: Awaiter, answer: string)
    requires a.slot < |ch| && ch[a.slot] == Waiting
    ensures Send(Drop(ch, a), Responder(a.slot), answer) == Failure(answer)
  {
  }

  datatype Command =
    | SendMessage(responder: Responder, msg: Message)
    | Subscribe(responder: Responder, topicName: string)
    | Unsubscribe(responder: Responder, topicName: string)

  /** `Command::new_send_message`: the message goes in unchanged, with a fresh reply slot. */
  function NewSendMessage(msg: Message, ch: Channels): (r: (Command, Awaiter, Channels))
    ensures r.0.SendMessage? && r.0.msg == msg
    ensures r.0.responder.slot == r.1.slot == |ch|
    ensures |r.2| == |ch| + 1 && r.2[..|ch|] == ch && r.2[r.1.slot] == Waiting
  {
    var (tx, rx, ch') := Open(ch);
    (SendMessage(tx, msg), rx, ch')
  }

  /** `Command::new_subscribe`: the topic name goes in unchanged, with a fresh reply slot. */
  function NewSubscribe(topicName: string, ch: Channels): (r: (Command, Awaiter, Channels))
    ensures r.0.Subscribe? && r.0.topicName == topicName
    ensures r.0.responder.slot == r.1.slot == |ch|
    ensures |r.2| == |ch| + 1 && r.2[..|ch|] == ch && r.2[r.1.slot] == Waiting
  {
    var (tx, rx, ch') := Open(ch);
    (Subscribe(tx, topicName), rx, ch')
  }

  /** `Command::new_unsubscribe`: the topic name goes in unchanged, with a fresh reply slot. */
  function NewUnsubscribe(topicName: string, ch: Channels): (r: (Command, Awaiter, Channels))
    ensures r.0.Unsubscribe? && r.0.topicName == topicName
    ensures r.0.responder.slot == r.1.slot == |ch|
    ensures |r.2| == |ch| + 1 && r.2[..|ch|] == ch && r.2[r.1.slot] == Waiting
  {
    var (tx, rx, ch') := Open(ch);
    (Unsubscribe(tx, topicName), rx, ch')
  }

  /** An answer addressed to one reply slot. */
  datatype Reply = Reply(to: Responder, text: string)

  predicate Addressable(ch: Channels, replies: seq<Reply>) {
    forall i :: 0 <= i < |replies| ==> replies[i].to.slot < |ch|
  }

  predicate DistinctSlots(replies: seq<Reply>) {
    forall i, j :: 0 <= i < j < |replies| ==> replies[i].to.slot != replies[j].to.slot
  }

  /** Hands each reply to its slot in order; a refused send is only logged. */
  function Deliver(ch: Channels, replies: seq<Reply>): (r: Channels)
    requires Addressable(ch, replies)
    ensures |r| == |ch|
    decreases |replies|
  {
    if replies == [] then ch
    else
      var next := match Send(ch, replies[0].to, replies[0].text)
        case Success(ch') => ch'
        case Failure(_) => ch;
      Deliver(next, replies[1..])
  }

  /**
   * With one reply per slot, every slot that was waiting ends up holding its
   * own reply, and every other slot is left exactly as it was.
   */
  lemma {:induction false} DeliverAnswersEachOnce(ch: Channels, replies: seq<Reply>)
    requires Addressable(ch, replies) && DistinctSlots(replies)
    ensures forall i :: 0 <= i < |replies| && ch[replies[i].to.slot] == Waiting ==>
      Deliver(ch, replies)[replies[i].to.slot] == Answered(replies[i].text)
    ensures forall s :: 0 <= s < |ch| && (forall i :: 0 <= i < |replies| ==> replies[i].to.slot != s) ==>
      Deliver(ch, replies)[s] == ch[s]
    ensures forall s :: 0 <= s < |ch| && ch[s] != Waiting ==> Deliver(ch, replies)[s] == ch[s]
    decreases |replies|
  {
    if replies != [] {
      var next := match Send(ch, replies[0].to, replies[0].text)
        case Success(ch') => ch'
        case Failure(_) => ch;
      var rest := replies[1..];
      assert forall i :: 0 <= i < |rest| ==> rest[i] == replies[i + 1];
      DeliverAnswersEachOnce(next, rest);
      assert Deliver(ch, replies) == Deliver(next, rest);
    }
  }
}
