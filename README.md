# Mesh conversation membership, in Dafny

This project models `MeshConversation`, the membership manager of one full-mesh
signalling conversation in a WebRTC signalling server. It keeps the set of
members of the conversation. It also drives the side effects of joining and
leaving:

- confirming a join to the newcomer;
- telling existing members about the newcomer and beginning one pairwise
  signal exchange with each of them;
- dissociating a leaving member and telling the others it left;
- fanning a message out to everybody but its sender.

Modules:

- `Seqs` (seqs.dfy): a sequence that enumerates a set, each element exactly
  once. A loop over the source's hash set visits members in an unspecified
  order, and this sequence stands for that order.
- `Domain` (domain.dfy): members, signal kinds and built messages. It also
  defines the CREATED message the conversation builds itself and the
  re-addressed copy a broadcast sends.
- `MeshLog` (mesh_log.dfy): the calls the conversation makes on its
  collaborators, as `Event`s. For each operation, a function gives the events it
  appends, in the order its loop visits the members. Lemmas state what those
  events are whatever the visiting order: who is notified, how many times, in
  what order, and which exchanges begin.
- `MeshPairs` (mesh_pairs.dfy): N successive joins of distinct members into an
  empty conversation begin N(N-1)/2 exchanges, exactly one per pair, the
  earlier joiner first.
- `Conversation` (mesh_conversation.dfy): the class `MeshConversation`, with
  its `members` set and an `events` log. The log records every call on the
  exchange service, on message sending and on a member's association, in call
  order. Each method loops over the member set the way the source does. Each
  method returns, as a ghost out-parameter, the order its loop chose. Its
  postcondition ties the new members and the new log to `old(...)` and to the
  `MeshLog` function of that order. The `MeshLog` lemmas then apply to every
  call. `JoinAll` runs successive joins on one conversation and proves that
  its log is the `MeshPairs` log, so the pair theorems hold of the class.

A collaborator call becomes one event:

- `assignSenderToConversation`, `sendJoinedToConversation`, `sendJoinedFrom`
  and `sendLeftMessage` are inherited from a base class that is not part of
  this model. Each is an uninterpreted event with the addressing seen at its call
  site: `Assigned`, `JoinedConversation`, `PeerJoined` and `PeerLeft`.
- The visible message builds become `Sent(message)`, with the message's
  fields. These are `sendJoinedToFirst` and the copies a broadcast sends.
- `exchange.begin(to, sender)` becomes `Begin(to, sender)`.
- `exchange.execute(message)` becomes `Executed(message)`.
- `leaving.unassignConversation(this)` becomes `Unassigned(leaving, id)`.

Two behaviours of the code shape the model:

- The code catches nothing, so a failing collaborator call during a fan-out
  aborts the rest of it. The model has no failures (see "Left out").
- A join of a present member would notify that member about itself and begin
  an exchange with itself. `Join` requires `sender !in members` and leaves
  that case to its callers.

## Model

| member | source | states |
|---|---|---|
| Conversation.MeshConversation.constructor | src/main/java/org/nextrtc/signalingserver/domain/conversation/MeshConversation.java:23-30 | a new conversation has the given id, no members and has made no calls |
| Conversation.MeshConversation.Join | src/main/java/org/nextrtc/signalingserver/domain/conversation/MeshConversation.java:32-41 | members become old members plus the sender; the log grows by the association, the confirmation (CREATED exactly when there were no members) and the fan-out over an enumeration of the old members |
| Conversation.MeshConversation.InformRestAndBeginSignalExchange | src/main/java/org/nextrtc/signalingserver/domain/conversation/MeshConversation.java:43-48 | the loop visits every current member exactly once, in some order, appending a peer-joined notice and then an exchange begin (that member first) for each |
| Conversation.MeshConversation.InformSenderThatHasBeenJoined | src/main/java/org/nextrtc/signalingserver/domain/conversation/MeshConversation.java:50-56 | appends exactly one confirmation: CREATED if the conversation has no member, joined otherwise |
| Conversation.MeshConversation.SendJoinedToFirst | src/main/java/org/nextrtc/signalingserver/domain/conversation/MeshConversation.java:94-102 | sends exactly one message: to the sender, of kind CREATED, with attribute type = MESH and the conversation id as content |
| Conversation.MeshConversation.IsWithoutMember | src/main/java/org/nextrtc/signalingserver/domain/conversation/MeshConversation.java:58-60 | true exactly when there is no member; changes nothing |
| Conversation.MeshConversation.Has | src/main/java/org/nextrtc/signalingserver/domain/conversation/MeshConversation.java:62-64 | false for a missing (null) member, otherwise true exactly when it is a member; changes nothing |
| Conversation.MeshConversation.ExchangeSignals | src/main/java/org/nextrtc/signalingserver/domain/conversation/MeshConversation.java:66-69 | appends exactly one execution of the given message and nothing else; members unchanged |
| Conversation.MeshConversation.Broadcast | src/main/java/org/nextrtc/signalingserver/domain/conversation/MeshConversation.java:71-80 | the loop visits every member other than the sender exactly once, sending each a copy of the template re-addressed from the sender; members unchanged |
| Conversation.MeshConversation.Remove | src/main/java/org/nextrtc/signalingserver/domain/conversation/MeshConversation.java:82-92 | returns whether the member was present; members lose it; if it was absent the log is unchanged, otherwise it grows by one dissociation and one left notice per remaining member |
| MeshLog.PeerFanOutAt | src/main/java/org/nextrtc/signalingserver/domain/conversation/MeshConversation.java:43-48 | the k-th visited member gets the peer-joined notice at position 2k and the exchange begin (that member first, the newcomer second) at 2k+1 |
| MeshLog.PeerFanOutCounts | src/main/java/org/nextrtc/signalingserver/domain/conversation/MeshConversation.java:43-48 | over a visiting order without repeats, each member is sent exactly one peer-joined notice and begins exactly one exchange with the newcomer if it was visited, none otherwise |
| MeshLog.JoinConfirmsSenderFirstAndOnce | src/main/java/org/nextrtc/signalingserver/domain/conversation/MeshConversation.java:33-56 | a join notifies the joining member exactly once, as the second event, before any peer notice or exchange; CREATED with type MESH and the id when first, the joined notice with the id otherwise |
| MeshLog.JoinPairsWithEachMember | src/main/java/org/nextrtc/signalingserver/domain/conversation/MeshConversation.java:43-48 | each existing member is told exactly once that the sender joined, and exactly one exchange begins with it, existing member first; each notice is immediately followed by its exchange; the number of exchanges is the number of existing members |
| MeshLog.BeginsOfJoin | src/main/java/org/nextrtc/signalingserver/domain/conversation/MeshConversation.java:46 | the exchanges a join begins are exactly (visited member, sender), one per visited member, in visiting order |
| MeshLog.LeftFanOutAt | src/main/java/org/nextrtc/signalingserver/domain/conversation/MeshConversation.java:87-89 | the k-th visited remaining member gets the k-th left notice, from the leaving member |
| MeshLog.RemoveLogAt | src/main/java/org/nextrtc/signalingserver/domain/conversation/MeshConversation.java:83-92 | a removal's log is the dissociation at position 0 followed by the k-th visited remaining member's left notice at position k+1, and nothing more |
| MeshLog.RemoveNotifiesRemainder | src/main/java/org/nextrtc/signalingserver/domain/conversation/MeshConversation.java:83-92 | a removal dissociates the leaving member once, first, then tells each remaining member exactly once that it left, notifies nobody else and begins no exchange nor executes a message |
| MeshLog.BroadcastFanOutAt | src/main/java/org/nextrtc/signalingserver/domain/conversation/MeshConversation.java:73-79 | the k-th recipient gets the k-th message: a copy of the template from the sender to that recipient |
| MeshLog.BroadcastReachesOthers | src/main/java/org/nextrtc/signalingserver/domain/conversation/MeshConversation.java:72-80 | every member other than the sender gets exactly one copy, the sender none; each copy names the sender and keeps the template's kind, content and attributes; nobody outside the members is addressed |
| Conversation.JoinAll | src/main/java/org/nextrtc/signalingserver/domain/conversation/MeshConversation.java:32-48 | successive joins of distinct members into a new conversation leave exactly those members, and the log is that of the joins one after the other, each visiting the earlier joiners in some order and only the first finding no member: the premises of `MeshPairs.MeshPairsOnce`, which then holds of the class |
| MeshPairs.MeshPairsOnce | src/main/java/org/nextrtc/signalingserver/domain/conversation/MeshConversation.java:40-48 | N successive joins of distinct members into an empty conversation begin N(N-1)/2 exchanges, no two alike, covering every pair of joiners with the earlier one first and nothing else |
| MeshPairs.MeshExchangeOncePerPair | src/main/java/org/nextrtc/signalingserver/domain/conversation/MeshConversation.java:40-48 | after those joins, for any two joiners the exchange with the earlier one first begins exactly once, the reverse never |

## Left out

- Mutual exclusion (`synchronized`) and the concurrent set's weakly consistent
  iteration. Every call is modelled as atomic and sequential. So the model
  does not capture that a member joining or leaving during a broadcast may or
  may not receive it.
- Dependency injection: the Spring annotations, `setExchange` and the
  `LeftConversation` collaborator passed to the base class. They are wiring.
  The leave policy they install is never called from this class.
- The one-argument constructor, which leaves the exchange service unset
  until the injected setter `setExchange` supplies it. Unless that setter is
  called, a later join with an existing member, or `exchangeSignals`, would
  fail on a null reference. The model always has an exchange service.
- The internals of message building, copying and sending, and of the signal
  exchange protocol. These are foreign collaborators and appear only as
  events.
- The bodies of the base class's `assignSenderToConversation`,
  `sendJoinedToConversation`, `sendJoinedFrom` and `sendLeftMessage`. The base
  class is not part of this model; each call is an uninterpreted event.
- Failures of collaborators, and exceptions in general. The code catches
  nothing, so a failing call would abort the rest of the operation. The model
  has no failing calls.
- A null sender passed to `broadcast`. Members are never null in the model,
  and only `has` takes an optional member.
- `MeshPairs.MeshPairsOnce` covers joins with no interleaved removals. After a
  member leaves and joins again, a pair can begin its exchange a second time.
