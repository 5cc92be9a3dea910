# p2p chat coordinator — a Dafny model

This project models the core of a peer-to-peer terminal chat built on libp2p gossipsub and mDNS.

- **The coordinator** (`SwarmManager`) owns the one current topic. It answers three commands from the terminal front end: send a message, subscribe to a topic, unsubscribe. It also reacts to overlay events. mDNS discovery and expiry register and deregister explicit peers. Gossip messages are decoded and forwarded to the front end, labelled with a short form of the id of the peer the message was received from. That is gossipsub's propagation source, which may have relayed the message rather than written it.
- **The front end** parses each input line with a prefix-tag parser (`subscribe `, `unsubscribe `, `msg `, `file `). It keeps one staged attachment: a `file` line replaces it and a `msg` line consumes it. Every command it sends carries a fresh one-shot reply channel.

The model is functional throughout. The coordinator is an immutable record whose operations are pure functions. What the overlay answers is passed in as a parameter (`Answers`), and so is the binary codec (`Codec`, a pair of functions). Every call the coordinator makes into the overlay is appended to a log (`calls`). The invariant `Valid` states that the current topic and the explicit-peer set are exactly what that log implies, and that every publish went to the topic current at that moment.

One-shot reply channels are slots in a sequence (`Channels`). A slot is waiting, answered once, or abandoned by its receiver. `Send` fills a waiting slot and refuses every other slot.

Modules follow the source files:

- `Wrappers`: `Option` and `Result`.
- `Files`: `File` as a (name, bytes) pair, and `FileError`.
- `Errors`: the coordinator's error enums.
- `Text`: `str::trim` over Unicode White_Space, and the UTF-8 byte slice `&s[..n]`.
- `Messages`: `message.rs`.
- `ShortPeerIds`: `short_peer_id.rs`.
- `Commands`: `command.rs` and the one-shot channels.
- `SwarmManager`: `swarm_manager.rs`.
- `SwarmScenarios`: the coordinator's test situations.
- `Parse` and `Client`: the parser and staging of `client.rs`.
- `Chat`: the front end and the coordinator composed.

The coordinator imports `common::short_peer_id`. The model follows `src/models/swarm/short_peer_id.rs` and assumes that its `from` and `Display` are the same as those of the imported module.

## Model

| member | source | states |
|---|---|---|
| Messages.IsEmpty | src/models/common/message.rs:17-19 | a message is empty exactly when it is the one message with neither text nor attachment |
| Messages.Build | src/models/common/message.rs:13-15 | the built message holds exactly the given text and attachment |
| Messages.Render | src/models/common/message.rs:29-46 | an empty message renders as `*Empty message*`; text and file render as the text, `, File: ` and the file name; text alone renders verbatim; a file alone as `File: ` and its name |
| Messages.RenderEmptyExactly | src/models/common/message.rs:29-46 | the placeholder rendering appears exactly for the empty message and for a text-only message whose text is the placeholder, never when a file is attached |
| Messages.TryToDownloadFile | src/models/common/message.rs:21-26 | without an attachment nothing is written and the result is false; with one, exactly that file is written into the directory and the result is the write's outcome |
| Commands.Open | src/models/common/command.rs:22 | a new channel gets a slot numbered past every earlier one, waiting, and earlier slots are untouched |
| Commands.Send | src/models/common/command.rs:5-18 | a send succeeds exactly on a waiting slot, fills only that slot, and otherwise hands the value back as the error |
| Commands.SendAtMostOnce | src/models/common/command.rs:5-18 | a second send to the same slot fails and the first answer stays |
| Commands.Drop | src/models/common/command.rs:5-18 | dropping the receiver turns a waiting slot into an abandoned one, leaves an answered or already abandoned slot as it was, and touches no other slot |
| Commands.SendAfterDrop | src/models/common/command.rs:5-18 | once the receiver is dropped the coordinator's answer is refused |
| Commands.NewSendMessage | src/models/common/command.rs:21-30 | the command is `SendMessage` carrying the message unchanged, with a fresh waiting slot shared by both halves |
| Commands.NewSubscribe | src/models/common/command.rs:32-41 | the command is `Subscribe` carrying the topic name unchanged, with a fresh waiting slot |
| Commands.NewUnsubscribe | src/models/common/command.rs:43-52 | the command is `Unsubscribe` carrying the topic name unchanged, with a fresh waiting slot |
| Commands.Deliver | src/models/swarm/swarm_manager.rs:141-143 | handing out replies keeps the number of slots; what each slot ends up holding is stated by Commands.DeliverAnswersEachOnce |
| Commands.DeliverAnswersEachOnce | src/models/swarm/swarm_manager.rs:141-177 | with one reply per slot, each waiting slot ends holding its own reply, and slots not addressed or no longer waiting are unchanged |
| ShortPeerIds.TryFrom | src/models/swarm/short_peer_id.rs:8-12 | a label, when the byte slice does not panic, is an 8-byte prefix of the text followed by `...` |
| ShortPeerIds.TryFromPanics | src/models/swarm/short_peer_id.rs:10 | the slice panics exactly when no prefix of the text is 8 bytes long, for instance inside a multi-byte character |
| ShortPeerIds.TryFromAscii | src/models/swarm/short_peer_id.rs:10 | on ASCII text the label exists exactly when the text has at least 8 characters, and is then the first 8 characters and `...` |
| ShortPeerIds.From | src/models/swarm/short_peer_id.rs:8-12 | the label of a peer id is its first 8 characters and `...`, 11 characters in all |
| ShortPeerIds.FromEqualIff | src/models/swarm/short_peer_id.rs:8-12 | two peers get the same label exactly when their ids agree on the first 8 characters |
| ShortPeerIds.FromNotInjective | src/models/swarm/short_peer_id.rs:4-12 | two distinct peer ids can share a label |
| ShortPeerIds.Render | src/models/swarm/short_peer_id.rs:15-19 | display gives back the stored label unchanged |
| Text.SkipLeading | src/models/client.rs:219 | the scan forward passes only whitespace and stops at a non-whitespace character or the end |
| Text.SkipTrailing | src/models/client.rs:219 | the scan back passes only whitespace and stops after a non-whitespace character or at its lower bound |
| Text.Trim | src/models/client.rs:219 | the trimmed text neither starts nor ends with whitespace |
| Text.TrimIsTrimOf | src/models/client.rs:219 | trimming yields a slice of the input with only whitespace cut at either end |
| Text.TrimBounds | src/models/client.rs:219 | the trim is a slice of the input with only whitespace before and after it |
| Text.CutEmptyIff | src/models/client.rs:219 | the trim is empty exactly when the input is all whitespace |
| Text.CutIsTrim | src/models/client.rs:219 | any slice with only whitespace outside it and none at its ends is the trim |
| Text.TrimOfUnique | src/models/client.rs:219 | only one slice meets that description, so the reference definition determines the trim |
| Text.TrimSplit | src/models/client.rs:219 | every string is whitespace, then its trim, then whitespace |
| Text.TrimOfTrimmed | src/models/client.rs:219 | trimming a trimmed string changes nothing |
| Text.TrimPadded | src/models/client.rs:219 | trimming removes exactly the whitespace around a trimmed string |
| Text.BytePrefix | src/models/swarm/short_peer_id.rs:10 | a byte slice, when it exists, is a prefix of the text whose UTF-8 length is the requested count |
| Text.BytePrefixSpec | src/models/swarm/short_peer_id.rs:10 | the byte slice succeeds exactly on the prefix of that UTF-8 length |
| Text.AsciiLength | src/models/swarm/short_peer_id.rs:10 | on ASCII text the UTF-8 length is the character count |
| Text.AsciiBytePrefix | src/models/swarm/short_peer_id.rs:10 | on ASCII text the byte slice is the character slice, and exists exactly when the text is long enough |
| SwarmManager.Subscribe | src/models/swarm/swarm_manager.rs:183-192 | an accepted subscribe makes its topic current whether or not it was new; a refused one changes nothing but the logged attempt; the old topic is never left |
| SwarmManager.Unsubscribe | src/models/swarm/swarm_manager.rs:194-203 | unsubscribing drops the current topic whatever name is given and whatever the overlay answers, and returns the overlay's answer |
| SwarmManager.WithTopic | src/models/swarm/swarm_manager.rs:52-61 | building with a topic makes it current when the overlay accepts and only logs otherwise |
| SwarmManager.SendMessage | src/models/swarm/swarm_manager.rs:205-222 | with no topic: `NoSubscribedTopic` and no change; an encode error gives `CantEncodeMessage` and no publish; otherwise exactly one publish of the encoded bytes on the current topic, a publish error coming back as `Other` |
| SwarmManager.SendReply | src/models/swarm/swarm_manager.rs:125-139 | the send reply is the success text exactly on success, and each failure text exactly on its own error: no topic, encode error, or a publish error |
| SwarmManager.SubscribeReply | src/models/swarm/swarm_manager.rs:151-157 | the subscribe reply is the new-subscription text exactly when the overlay says new, the repeated text exactly when it says not new, and the failure text exactly on an error |
| SwarmManager.UnsubscribeReply | src/models/swarm/swarm_manager.rs:169-172 | the unsubscribe reply is the success text exactly when the overlay reports the topic was left |
| SwarmManager.SendReplyDistinguishes | src/models/swarm/swarm_manager.rs:125-139 | the send reply tells exactly which of success, no topic, encode error or publish error happened |
| SwarmManager.SubscribeReplyDistinguishes | src/models/swarm/swarm_manager.rs:151-157 | the subscribe reply tells apart a new, a repeated and a failed subscription |
| SwarmManager.UnsubscribeReplyDistinguishes | src/models/swarm/swarm_manager.rs:169-172 | the unsubscribe reply reflects the overlay's answer |
| SwarmManager.HandleCommand | src/models/swarm/swarm_manager.rs:117-181 | each command gets exactly one reply, addressed to its own reply slot; no command changes nothing; peers and forwarded messages are untouched |
| SwarmManager.AddPeers | src/models/swarm/swarm_manager.rs:66-74 | every discovered peer is registered, one overlay call each, in order |
| SwarmManager.RemovePeers | src/models/swarm/swarm_manager.rs:75-83 | every expired peer is deregistered, one overlay call each, in order |
| SwarmManager.Receive | src/models/swarm/swarm_manager.rs:85-109 | undecodable data and empty messages forward nothing; anything else is forwarded once with the sender's short label |
| SwarmManager.HandleEvent | src/models/swarm/swarm_manager.rs:63-115 | no event changes the current topic; only gossip forwards, only discovery and expiry touch peers |
| SwarmManager.Step | src/models/swarm/swarm_manager.rs:41-50 | a ready event produces no reply; a ready command produces one reply, to its own slot |
| SwarmManager.Run | src/models/swarm/swarm_manager.rs:41-50 | a run only adds to the overlay call log and to the forwarded messages, and gives at most one reply per input |
| SwarmManager.RunRepliesOncePerCommand | src/models/swarm/swarm_manager.rs:41-50 | over any interleaving of commands and events, the replies go to the commands' slots one each, in arrival order |
| SwarmManager.InitialValid | src/models/swarm/swarm_manager.rs:33-38 | a fresh coordinator has no topic, no peers and no overlay calls |
| SwarmManager.AppendCall | src/models/swarm/swarm_manager.rs:63-222 | one more overlay call updates the topic and the peer set the log implies in the way that call says |
| SwarmManager.AddPeersValid | src/models/swarm/swarm_manager.rs:66-74 | discovery keeps the peer set equal to what the call log implies |
| SwarmManager.RemovePeersValid | src/models/swarm/swarm_manager.rs:75-83 | expiry keeps the peer set equal to what the call log implies |
| SwarmManager.StepValid | src/models/swarm/swarm_manager.rs:63-222 | every step keeps the topic and peers in line with the call log, publishes only on the topic current at the time, and forwards only non-empty messages |
| SwarmManager.RunValid | src/models/swarm/swarm_manager.rs:41-50 | any run keeps that invariant |
| SwarmScenarios.SendWithoutTopic | src/models/swarm/swarm_manager.rs:286-306 | without a topic a send fails with `NoSubscribedTopic`, replies "You are not subscribed to any topic", and changes nothing |
| SwarmScenarios.SendWithoutPeers | src/models/swarm/swarm_manager.rs:308-329 | a coordinator built with a topic publishes on it; the overlay's insufficient-peers refusal comes back as `Other` with the send-failure reply |
| SwarmScenarios.SubscribeSetsTopic | src/models/swarm/swarm_manager.rs:332-353 | an accepted subscribe command makes its topic current, the only overlay call is the subscribe, and the reply says new or repeated |
| SwarmScenarios.FailedSubscribeKeepsTopic | src/models/swarm/swarm_manager.rs:183-192 | a refused subscribe keeps the current topic and replies "Something went wrong" |
| SwarmScenarios.SecondSubscribeWins | src/models/swarm/swarm_manager.rs:183-192 | after two accepted subscribes the second topic is current, and no unsubscribe was made |
| SwarmScenarios.UnsubscribeClearsTopic | src/models/swarm/swarm_manager.rs:356-376 | an unsubscribe command clears the topic whatever name it carries; the reply follows the overlay's answer |
| SwarmScenarios.DiscoverThenExpire | src/models/swarm/swarm_manager.rs:65-83 | discovery then expiry leaves the discovered peers minus the expired ones, so an expired peer is absent, and the topic is unchanged |
| SwarmScenarios.EmptyMessageIsPublished | src/models/swarm/swarm_manager.rs:205-222 | the send path publishes an empty message like any other |
| SwarmScenarios.Communication | src/models/swarm/swarm_manager.rs:250-284 | with a codec that round-trips, a message one coordinator publishes is forwarded by the other exactly once, equal to what was sent and labelled with the event's propagation source; an empty one is not forwarded |
| SwarmScenarios.NeverPublishesWithoutTopic | src/models/swarm/swarm_manager.rs:205-208 | from a fresh start, whatever the inputs, every publish is made on the topic current at that moment |
| Parse.TagDecides | src/models/client.rs:200-215 | no line starts with two different tags, so the order in which the four alternatives are tried cannot matter: the tag that starts the line decides the command |
| Parse.RestStr | src/models/client.rs:217-220 | the remaining input is empty and the returned argument is trimmed |
| Parse.ParseCommand | src/models/client.rs:200-215 | a line is accepted exactly when it starts with one of the four tags; it then leaves no input, starts with the command's tag, and carries a trimmed argument |
| Parse.ParseUnparse | src/models/client.rs:200-215 | typing a command with a trimmed argument parses back to that command |
| Parse.ParseArgumentIsTrim | src/models/client.rs:200-220 | the argument is the trim of what follows the tag, in the reference sense |
| Parse.ParsedIsPadded | src/models/client.rs:200-220 | every accepted line is its tag, whitespace, its argument and whitespace |
| Parse.PaddedAfterTag | src/models/client.rs:217-220 | what follows a tag is its trim with whitespace on either side |
| Parse.LeadingWhitespaceRejected | src/models/client.rs:200-215 | a line starting with whitespace is rejected |
| Parse.TagNeedsItsSpace | src/models/client.rs:200-215 | `msg` and `subscribe` without their space are rejected; a tag and spaces alone is accepted with an empty argument |
| Client.Perform | src/models/client.rs:101-133 | `msg` sends its text with the staged file and empties the staging; `file` replaces the staging with the load result or nothing and sends nothing; topic commands keep the staging; every command sent has a fresh slot |
| Client.HandleParsed | src/models/client.rs:101-140 | a line that does not parse changes nothing and sends nothing; a command sent opens exactly one fresh slot |
| Client.HandleLine | src/models/client.rs:101-140 | a rejected line leaves the writer unchanged; a sent command opens one waiting slot |
| Client.ParseFileLine | src/models/client.rs:211-213 | `file x.txt` parses to a file command for `x.txt` |
| Client.ParseMsgLine | src/models/client.rs:208-210 | `msg caption` parses to a message command with text `caption` |
| Client.AttachThenSend | src/models/client.rs:101-133 | loading a file and then sending a message sends both together and leaves nothing staged |
| Client.Session | src/models/client.rs:74-142 | the stdin loop issues at most one command per line, and each command issued opens one slot after the slots opened before |
| Client.Replay | src/models/client.rs:74-142 | over already parsed lines: at most one command per line, one new slot per command, earlier slots kept |
| Client.ReplaySlotsFresh | src/models/client.rs:74-133 | the commands of a session get consecutive fresh slots, and the writer itself never answers or drops them |
| Chat.Feed | src/models/swarm/swarm_manager.rs:47 | each issued command reaches the coordinator as a ready command, in order |
| Chat.FeedSlots | src/models/swarm/swarm_manager.rs:47 | the reply slots of the fed commands are the issued commands' slots, in order |
| Chat.SessionSlots | src/models/swarm/swarm_manager.rs:117-181 | the commands of a session, run by the coordinator, get one reply each, and the i-th reply goes to the i-th command's slot, which the session opened and left waiting |
| Chat.SessionRepliesReachEachCommand | src/models/swarm/swarm_manager.rs:117-181 | the commands a session issues, once run by the coordinator, get one reply each, in distinct slots the session opened, and, when no issuer has timed out, each slot holds the reply to its own command |
| Chat.DropTimedOut | src/models/client.rs:163-175 | dropping the receivers of the issuers that timed out keeps the number of slots |
| Chat.DropTimedOutEffect | src/models/client.rs:163-175 | the slot of a timed-out issuer is abandoned if it was still waiting; every other slot keeps its state |
| Chat.DeliverAfterTimeouts | src/models/swarm/swarm_manager.rs:141-143 | after those drops, a slot receives its reply exactly when its issuer was still waiting, and is otherwise abandoned |
| Chat.SessionRepliesUnlessTimedOut | src/models/client.rs:163-175 | for a whole session run by the coordinator: the slot of each command holds that command's reply exactly when its issuer did not time out, and is abandoned when it did |

## Left out

- `SwarmManager::build`, `build_swarm` and the `tokio::select!` loop of `run` are left out: transport set-up, `listen_on` and concurrency. `Run` takes the inputs in whatever order the select picked them.
- `behaviour.rs` (libp2p configuration, message-id hashing) is not part of this model.
- bincode encoding and decoding are not modelled: the codec is a parameter, and only `SwarmScenarios.Communication` assumes it round-trips.
- The gossipsub router's own state (which topics it has joined, mesh peers, duplicate detection) is not modelled. Its answers to subscribe, unsubscribe and publish are parameters.
- File system access is left out: `File::from`, `File::save`, `create_download_dir`. The load result and the write result are parameters.
- The front end's I/O is left out: the clock behind `wait_for_response`'s 100 ms timeout, `start_receiving`, the reading of stdin, and all printing and help text. Whether each issuer timed out is a parameter (`timedOut`) of `Chat.SessionRepliesUnlessTimedOut`.
- Chat.SessionRepliesReachEachCommand: assumes every reply arrives before its issuer stops waiting. The 100 ms drop in `wait_for_response` is covered by `Chat.DropTimedOut` and `Chat.SessionRepliesUnlessTimedOut`.
- Chat.SessionSlots: states that the slots a session opens are left waiting by the session itself, so it does not see the 100 ms drop in `wait_for_response`. That drop is stated by `Chat.SessionRepliesUnlessTimedOut`.
- Client.ReplaySlotsFresh: states that the writer leaves its own slots waiting. Whether a slot is later abandoned by the 100 ms drop is stated by `Chat.SessionRepliesUnlessTimedOut`.
- Command-line arguments, the app wiring and `main` are left out.
- Channel capacity and backpressure are not modelled. Forwarding to the front end appends to `outbox`, because a failed send there is only logged.
- A failed send of a command to the coordinator from the front end is left out; the staging effect of `msg` holds either way.
- The superseded duplicates are left out: `src/models/swarm_manager.rs`, `src/models/client/client.rs`, `src/models/message.rs`, `src/models/swarm/message.rs`, `src/models/swarm/errors.rs`.
- The display strings of `SendingError` and `PublishError`, and all logging, are left out.
- `ShortPeerIds.From`: takes peer ids as ASCII text of at least 8 characters, which base58 peer ids always are. `ShortPeerIds.TryFrom` covers arbitrary text, including the panicking slices.
- `SwarmManager.HandleEvent`: the message id and the listen address only feed log lines, so they change nothing.
