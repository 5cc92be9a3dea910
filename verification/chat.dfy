/**
 * The two halves together: the commands a front-end session issues are
 * handed to the coordinator, and its replies are delivered to the one-shot
 * slots the session opened.
 */
module Chat {
  import opened Wrappers
  import opened Commands
  import Files
  import Client
  import SM = SwarmManager

  /** The issued commands as the coordinator receives them, each with what the overlay answers to it. */
  function Feed(issued: seq<Client.Issued>, answers: seq<SM.Answers>): (r: seq<SM.Input>)
    requires |answers| == |issued|
    ensures |r| == |issued|
    ensures forall i :: 0 <= i < |r| ==> r[i].CommandReady? && r[i].command == Some(issued[i].command)
  {
    seq(|issued|, i requires 0 <= i < |issued| => SM.CommandReady(Some(issued[i].command), answers[i]))
  }

  /** Reading off the reply slots of fed commands gives the commands' responders, in order. */
  lemma {:induction false} FeedSlots(issued: seq<Client.Issued>, answers: seq<SM.Answers>)
    requires |answers| == |issued|
    ensures var slots := SM.CommandSlots(Feed(issued, answers));
      |slots| == |issued| && forall i :: 0 <= i < |issued| ==> slots[i] == issued[i].command.responder
    decreases |issued|
  {
    if issued != [] {
      var inputs := Feed(issued, answers);
      assert inputs[1..] == Feed(issued[1..], answers[1..]);
      FeedSlots(issued[1..], answers[1..]);
    }
  }

  /** The recipients of a list of replies are its replies' slots, one per reply. */
  lemma {:induction false} RecipientsAt(replies: seq<Reply>)
    ensures var to := SM.Recipients(replies);
      |to| == |replies| && forall i :: 0 <= i < |replies| ==> to[i] == replies[i].to
    decreases |replies|
  {
    if replies != [] {
      RecipientsAt(replies[1..]);
    }
  }

  /**
   * Where a session's commands are answered: the session opens one waiting
   * slot per command after the slots it started with, the coordinator
   * replies once per command, and the i-th reply goes to the i-th command's
   * slot.
   */
  lemma SessionSlots(
    w: Client.Writer,
    lines: seq<(string, Result<Files.File, Files.FileError>)>,
    c: SM.Coordinator,
    codec: SM.Codec,
    answers: seq<SM.Answers>,
    final: Client.Writer,
    issued: seq<Client.Issued>,
    replies: seq<Reply>)
    requires (final, issued) == Client.Session(w, lines)
    requires |answers| == |issued|
    requires replies == SM.Run(c, codec, Feed(issued, answers)).1
    ensures |replies| == |issued|
    ensures |final.channels| == |w.channels| + |issued|
    ensures forall j :: |w.channels| <= j < |final.channels| ==> final.channels[j] == Waiting
    ensures forall i :: 0 <= i < |issued| ==>
      && replies[i].to == issued[i].command.responder
      && replies[i].to.slot == issued[i].awaiter.slot == |w.channels| + i
  {
    var inputs := Feed(issued, answers);
    Client.ReplaySlotsFresh(w, Client.ParseAll(lines));
    FeedSlots(issued, answers);
    SM.RunRepliesOncePerCommand(c, codec, inputs);
    RecipientsAt(replies);
    assert forall j :: |w.channels| <= j < |final.channels| ==> final.channels[j] == Waiting;
  }

  /**
   * A session's commands, run by the coordinator, are answered once each:
   * every reply goes to a slot the session opened, and no two replies share a
   * slot. When every reply arrives before its issuer stops waiting, every
   * slot the session opened ends up holding the reply to its own command;
   * `SessionRepliesUnlessTimedOut` covers issuers that gave up first.
   */
  lemma SessionRepliesReachEachCommand(
    w: Client.Writer,
    lines: seq<(string, Result<Files.File, Files.FileError>)>,
    c: SM.Coordinator,
    codec: SM.Codec,
    answers: seq<SM.Answers>,
    final: Client.Writer,
    issued: seq<Client.Issued>,
    replies: seq<Reply>)
    requires (final, issued) == Client.Session(w, lines)
    requires |answers| == |issued|
    requires replies == SM.Run(c, codec, Feed(issued, answers)).1
    ensures |replies| == |issued|
    ensures |final.channels| == |w.channels| + |issued|
    ensures Addressable(final.channels, replies) && DistinctSlots(replies)
    ensures forall i :: 0 <= i < |issued| ==>
      && replies[i].to == issued[i].command.responder
      && issued[i].awaiter.slot == |w.channels| + i
      && Deliver(final.channels, replies)[issued[i].awaiter.slot] == Answered(replies[i].text)
  {
    SessionSlots(w, lines, c, codec, answers, final, issued, replies);
    DeliverAnswersEachOnce(final.channels, replies);
  }

  /** No two issued commands wait on the same slot. */
  predicate DistinctAwaiters(issued: seq<Client.Issued>) {
    forall i, j :: 0 <= i < j < |issued| ==> issued[i].awaiter.slot != issued[j].awaiter.slot
  }

  /** No issued command waits on slot `s`. */
  predicate NoneWaitsOn(issued: seq<Client.Issued>, s: nat) {
    forall i :: 0 <= i < |issued| ==> issued[i].awaiter.slot != s
  }

  /**
   * `wait_for_response` drops its receiver after at most 100 ms; `timedOut[i]`
   * says that happened to the i-th issued command before its reply came. The
   * slots are independent of each other, so dropping these receivers first
   * and delivering every reply afterwards gives the same channels as any
   * interleaving in which each of these drops precedes its own reply.
   */
  function DropTimedOut(ch: Channels, issued: seq<Client.Issued>, timedOut: seq<bool>): (r: Channels)
    requires |timedOut| == |issued|
    requires forall i :: 0 <= i < |issued| ==> issued[i].awaiter.slot < |ch|
    ensures |r| == |ch|
    decreases |issued|
  {
    if issued == [] then ch
    else
      var next := if timedOut[0] then Drop(ch, issued[0].awaiter) else ch;
      DropTimedOut(next, issued[1..], timedOut[1..])
  }

  /** A timed-out issuer's slot is abandoned if it was still waiting; every other issued slot is left as it was. */
  lemma {:induction false} DropTimedOutEffect(ch: Channels, issued: seq<Client.Issued>, timedOut: seq<bool>)
    requires |timedOut| == |issued|
    requires forall i :: 0 <= i < |issued| ==> issued[i].awaiter.slot < |ch|
    requires DistinctAwaiters(issued)
    ensures forall i :: 0 <= i < |issued| ==>
      DropTimedOut(ch, issued, timedOut)[issued[i].awaiter.slot] ==
        if timedOut[i] && ch[issued[i].awaiter.slot] == Waiting then Abandoned else ch[issued[i].awaiter.slot]
    ensures forall s :: 0 <= s < |ch| && NoneWaitsOn(issued, s) ==> DropTimedOut(ch, issued, timedOut)[s] == ch[s]
    decreases |issued|
  {
    if issued != [] {
      var next := if timedOut[0] then Drop(ch, issued[0].awaiter) else ch;
      var rest, restOut := issued[1..], timedOut[1..];
      assert forall i :: 1 <= i < |issued| ==> issued[i] == rest[i - 1] && timedOut[i] == restOut[i - 1];
      DropTimedOutEffect(next, rest, restOut);
      assert NoneWaitsOn(rest, issued[0].awaiter.slot);
      forall s | 0 <= s < |ch| && NoneWaitsOn(issued, s)
        ensures NoneWaitsOn(rest, s)
      {
      }
      assert DropTimedOut(ch, issued, timedOut) == DropTimedOut(next, rest, restOut);
      forall i | 1 <= i < |issued|
        ensures next[issued[i].awaiter.slot] == ch[issued[i].awaiter.slot]
      {
        assert issued[0].awaiter.slot != issued[i].awaiter.slot;
      }
    }
  }

  /**
   * Slot `base + i` of `after` holds the i-th reply exactly when the i-th
   * issuer did not time out; the slot of an issuer that did is abandoned.
   */
  predicate AnsweredUnlessTimedOut(after: Channels, replies: seq<Reply>, timedOut: seq<bool>, base: nat) {
    forall i :: 0 <= i < |timedOut| && i < |replies| && base + i < |after| ==>
      && (after[base + i] == Answered(replies[i].text) <==> !timedOut[i])
      && (timedOut[i] ==> after[base + i] == Abandoned)
  }

  /**
   * Replies to consecutive waiting slots, after some of their receivers were
   * dropped: a slot gets its reply exactly when its receiver was kept.
   */
  lemma DeliverAfterTimeouts(ch: Channels, issued: seq<Client.Issued>, timedOut: seq<bool>, replies: seq<Reply>, base: nat)
    requires |timedOut| == |issued| == |replies| && |ch| == base + |issued|
    requires forall i :: 0 <= i < |issued| ==> issued[i].awaiter.slot == base + i && replies[i].to.slot == base + i
    requires forall j :: base <= j < |ch| ==> ch[j] == Waiting
    ensures var before := DropTimedOut(ch, issued, timedOut);
      && Addressable(before, replies)
      && AnsweredUnlessTimedOut(Deliver(before, replies), replies, timedOut, base)
  {
    var before := DropTimedOut(ch, issued, timedOut);
    DropTimedOutEffect(ch, issued, timedOut);
    DeliverAnswersEachOnce(before, replies);
  }

  /**
   * With issuers that may stop waiting: the slot of a session's command ends
   * up holding that command's reply exactly when its issuer was still
   * waiting; otherwise the reply is refused and the slot stays abandoned.
   */
  lemma SessionRepliesUnlessTimedOut(
    w: Client.Writer,
    lines: seq<(string, Result<Files.File, Files.FileError>)>,
    c: SM.Coordinator,
    codec: SM.Codec,
    answers: seq<SM.Answers>,
    timedOut: seq<bool>,
    final: Client.Writer,
    issued: seq<Client.Issued>,
    replies: seq<Reply>)
    requires (final, issued) == Client.Session(w, lines)
    requires |answers| == |issued| && |timedOut| == |issued|
    requires replies == SM.Run(c, codec, Feed(issued, answers)).1
    ensures |replies| == |issued|
    ensures |final.channels| == |w.channels| + |issued|
    ensures forall i :: 0 <= i < |issued| ==> issued[i].awaiter.slot == |w.channels| + i
    ensures forall i :: 0 <= i < |issued| ==> replies[i].to.slot == issued[i].awaiter.slot
    ensures var before := DropTimedOut(final.channels, issued, timedOut);
      && Addressable(before, replies)
      && AnsweredUnlessTimedOut(Deliver(before, replies), replies, timedOut, |w.channels|)
  {
    SessionSlots(w, lines, c, codec, answers, final, issued, replies);
    DeliverAfterTimeouts(final.channels, issued, timedOut, replies, |w.channels|);
  }
}
