# Network of counters: a Dafny model of the agent protocol

The network of counters is a peer-to-peer system of agents. Each agent listens
on loopback, keeps a millisecond counter that its timer thread increments,
and keeps a list of the `"127.0.0.1:<port>"` identities of the other agents.
Agents talk through one-shot text requests of the form `FLAG->address:port`,
which `MessageUtils.getSegment` builds. The five request flags are:

- `NET`: reply with the list.
- `CLK`: reply with the counter.
- `SYN`: set the counter to the average of the agent's own counter and every listed peer's counter.
- `UPD`: append the sender to the list.
- `DEL`: remove every copy of the sender from the list.

An agent joins by taking an introducer's list, appending the introducer,
sending `UPD` to everyone, averaging, and sending `SYN` to everyone. An agent
leaves by sending `DEL` to everyone, then `SYN` to everyone, then stopping.

Every remote call is a blocking request/reply. The model is therefore a
sequential state machine over a *network*: a map from an agent's identity to
its three fields (counter, list, run flag). A request applies the target's
handler to the target's entry. A target that is not in the map is
unreachable (`Unreachable`): its connection fails, and the failure ends the
loop that issued the request, as the exception does in the Java code. A
target whose run flag is cleared gives no answer (`NoAnswer`): its server
loop has ended, so the Java requester waits for ever, and the model ends the
sequence there, since nothing after that request runs in either case.

The files are:

- `wrappers.dfy`: `Option`, `Result`.
- `message_utils.dfy` (module `MessageUtils`): the segment codec. It models
  `Integer.toString` and Java's `String.split("->")`, including the dropping
  of trailing empty pieces. It carries the round-trip and error-condition
  lemmas.
- `protocol.dfy` (module `Protocol`): the agent state and the network. It
  defines the request handler (`Dispatch`, `Serve`, `Deliver`), the CLK
  average (`SumClocks`, `Average`) with Java's truncating division
  (`JavaDiv`), the request loops (`Broadcast`), and the join (`Join`,
  `Announce`, `Settle`) and leave (`Leave`) sequences. These are functions.
- `protocol_properties.dfy` (module `ProtocolProperties`): properties of the
  handler, the removal, the identities and the average.
- `orchestration_properties.dfy` (module `OrchestrationProperties`):
  properties of the request loops, the join and the leave.
- `agent.dfy` (module `Agent`): class `Network`, whose `agents` map is
  updated in place by methods that follow the Java methods statement by
  statement. The request loops are `while` loops. Each method is proved to
  produce exactly the state described by the corresponding `Protocol`
  function. A ghost `trace` records, in order, the UPD, SYN and DEL requests
  of the request loops; the join's NET request and the CLK requests of an
  average are not recorded.

The sender of a request is identified by its `toString`. `DeliverIsServe`
proves that a request whose segment comes from `getSegment` reaches the
handler's switch with the flag that was sent and with the sender's identity.

A network is *closed* (`ClosedNet`) when every member listed by a running
agent is present and running; a stopped agent never sends again, so its list
does not count. It is *symmetric* (`Symmetric`) when, moreover, no running
agent lists itself and every running agent it lists lists it back. It is
*duplicate-free* (`DuplicateFree`) when no running agent lists an agent
twice. Joins through a running introducer and leaves by running agents keep
a network symmetric (`JoinKeepsSymmetric`, `LeaveKeepsSymmetric`) and
duplicate-free (`JoinKeepsDuplicateFree`, `LeaveKeepsDuplicateFree`), so any
sequence of them keeps it closed and every list free of duplicates.

## Model

| member | source | states |
|---|---|---|
| MessageUtils.IntToDecimal | src/networkOfCounters/MessageUtils.java:81 | the decimal text of the port appended to a segment is non-empty, all digits after an optional leading minus, and starts with '-' exactly for negative values |
| MessageUtils.NatToDecimal | src/networkOfCounters/MessageUtils.java:81 | the digits of a non-negative port: at least one, all decimal digits, no leading zero |
| MessageUtils.NatToDecimalInjective | src/networkOfCounters/MessageUtils.java:81 | two non-negative numbers with the same decimal text are equal |
| MessageUtils.IntToDecimalInjective | src/networkOfCounters/MessageUtils.java:81 | two ports with the same decimal text are equal |
| MessageUtils.FindSep | src/networkOfCounters/MessageUtils.java:99 | the split position is the leftmost occurrence of "->", and there is none exactly when the text has no separator |
| MessageUtils.Pieces | src/networkOfCounters/MessageUtils.java:99 | the text cut at every leftmost separator: at least one piece, the first being the text before the first separator, exactly one when there is no separator, and no piece contains a separator |
| MessageUtils.Split | src/networkOfCounters/MessageUtils.java:99 | String.split("->"): the whole text when there is no separator; otherwise the pieces with exactly the trailing empty ones removed (a prefix of the pieces, only empty pieces dropped, the last one kept non-empty); no element contains a separator |
| MessageUtils.SplitExamples | src/networkOfCounters/MessageUtils.java:99 | "a->" splits into ["a"], the trailing empty piece dropped, and "->a" into ["", "a"], the leading one kept |
| MessageUtils.GetIPAndPortFromSegment | src/networkOfCounters/MessageUtils.java:98-101 | a decoded identity needs a separator in the segment and holds none itself; the only failure is ArrayIndexOutOfBounds |
| MessageUtils.DropTrailingEmpty | src/networkOfCounters/MessageUtils.java:99 | split's result is a prefix of the pieces, whose last element is non-empty, and only empty pieces are dropped |
| MessageUtils.GetFlagFromSegment | src/networkOfCounters/MessageUtils.java:89-91 | substring(0, 3) succeeds exactly when the segment has at least 3 characters, returning its first three characters, and throws StringIndexOutOfBounds otherwise |
| MessageUtils.PiecesAllEmpty | src/networkOfCounters/MessageUtils.java:99 | every piece of a split is empty exactly when the text is nothing but separators |
| MessageUtils.IPAndPortSpec | src/networkOfCounters/MessageUtils.java:98-101 | piece 1 exists exactly when there is a separator followed by something other than separators; it is the text between the first separator and the next one or the end; otherwise ArrayIndexOutOfBounds |
| MessageUtils.FlagRoundTrip | src/networkOfCounters/MessageUtils.java:80-91 | the flag read back from a segment built with a three-character flag is that flag |
| MessageUtils.NoSeparatorInAddress | src/networkOfCounters/MessageUtils.java:80-82 | the address part `ip:port` holds no separator when ip holds none |
| MessageUtils.IdentityRoundTrip | src/networkOfCounters/MessageUtils.java:80-101 | when neither the flag nor the address contains "->", the identity decoded from a built segment is `ip:decimal(port)` |
| MessageUtils.IdentityDefinedImpliesFlagDefined | src/networkOfCounters/MessageUtils.java:89-101 | whenever the identity of a segment can be decoded, so can its flag |
| MessageUtils.FlagIgnoresIdentity | src/networkOfCounters/MessageUtils.java:89-91 | the decoded flag does not depend on the sender's address or port |
| MessageUtils.NoDashNoSeparator | src/networkOfCounters/MessageUtils.java:21 | text without '-' contains no separator |
| MessageUtils.DecodeBuilt | src/networkOfCounters/MessageUtils.java:80-101 | a built segment with a separator-free flag and address decodes to both |
| MessageUtils.DecodeExample | src/networkOfCounters/MessageUtils.java:99 | the example segment "UDP->127.0.0.1:8888" decodes to flag "UDP" and identity "127.0.0.1:8888" |
| Protocol.Dispatch | src/networkOfCounters/Agent.java:105-132 | a handled request changes only the receiving agent's entry, and never its run flag |
| Protocol.Serve | src/networkOfCounters/Agent.java:99-105 | a request that is answered changes only the receiving agent, and never its run flag |
| Protocol.Deliver | src/networkOfCounters/Agent.java:168-171 | a request is answered exactly when the target is present, still running and its handler answers; an absent target is Unreachable and a stopped one NoAnswer; an answer changes the target's entry alone and keeps every agent |
| Protocol.Join | src/networkOfCounters/Agent.java:57-73 | the joining agent is in the network and running whatever happens, no other agent is added, and no agent's run flag changes |
| Protocol.Announce | src/networkOfCounters/Agent.java:70-72 | the announce step adds and removes no agent and changes no run flag |
| Protocol.Settle | src/networkOfCounters/Agent.java:71-72 | the settle step adds and removes no agent and changes no run flag |
| Protocol.Leave | src/networkOfCounters/Agent.java:225-238 | a leave adds and removes no agent and stops no agent other than the leaver |
| Protocol.Broadcast | src/networkOfCounters/Agent.java:162-173 | a request loop keeps every agent, keeps every run flag, and leaves untargeted agents unchanged |
| ProtocolProperties.IdentityInjective | src/networkOfCounters/Agent.java:312-314 | agents on different ports have different identities |
| ProtocolProperties.RemoveAllRemoves | src/networkOfCounters/Agent.java:125 | after removeIf the sender is absent from the list |
| ProtocolProperties.RemoveAllAbsent | src/networkOfCounters/Agent.java:125 | removing an identity that is not listed changes nothing |
| ProtocolProperties.RemoveAllKeepsOthers | src/networkOfCounters/Agent.java:125 | every other identity keeps its number of copies, and nothing new appears |
| ProtocolProperties.RemoveAllAppend | src/networkOfCounters/Agent.java:125 | the removal distributes over concatenation, so the survivors keep their order |
| ProtocolProperties.DeliverIsServe | src/networkOfCounters/Agent.java:99-105 | a request built by getSegment from the sender's port, with a dash-free three-character flag, is served with that flag and the sender's toString as client |
| ProtocolProperties.ServeMalformed | src/networkOfCounters/Agent.java:99-102 | a segment whose identity cannot be decoded raises ArrayIndexOutOfBounds and changes nothing |
| ProtocolProperties.DispatchReadOnly | src/networkOfCounters/Agent.java:105-132 | NET replies with the list and CLK with the counter, changing nothing; any other unknown flag replies "INCORRECT FLAG" and changes nothing |
| ProtocolProperties.DispatchSyn | src/networkOfCounters/Agent.java:114-118 | SYN sets the receiver's counter to its average and replies "ACK\n"; its list, its run flag and every other agent stay; if the average fails, the request fails |
| ProtocolProperties.DispatchUpd | src/networkOfCounters/Agent.java:119-123 | UPD appends the sender: the list grows by exactly one, earlier entries and the counter stay, and a sender already listed gains one more copy |
| ProtocolProperties.DispatchDel | src/networkOfCounters/Agent.java:124-128 | DEL leaves no copy of the sender and keeps every other entry's count; deleting an absent sender changes nothing; the counter stays |
| ProtocolProperties.SumClocksBounds | src/networkOfCounters/Agent.java:186-195 | the CLK sum over running peers whose counters lie in [lo, hi] succeeds and lies in [lo·n, hi·n] |
| ProtocolProperties.JavaDivTruncates | src/networkOfCounters/Agent.java:197 | long division rounds toward zero: down for a non-negative sum, up for a negative one |
| ProtocolProperties.JavaDivBounds | src/networkOfCounters/Agent.java:197 | a sum within [lo·n, hi·n] divides to a value within [lo, hi] |
| ProtocolProperties.MeanBounds | src/networkOfCounters/Agent.java:196-197 | own counter plus m further counters, all within [lo, hi], average into [lo, hi] |
| ProtocolProperties.AverageWithinBounds | src/networkOfCounters/Agent.java:184-198 | the average lies between the smallest and the largest counter averaged; equal counters stay put |
| ProtocolProperties.SumClocksOk | src/networkOfCounters/Agent.java:186-195 | the CLK loop succeeds exactly when every listed peer is present and running |
| ProtocolProperties.AverageOk | src/networkOfCounters/Agent.java:184-198 | the average can be taken exactly when every member of the list is present and running |
| ProtocolProperties.SumClocksFirstMissing | src/networkOfCounters/Agent.java:186-195 | a failing CLK loop fails at the first peer that does not answer (Unreachable when absent, NoAnswer when stopped), and every earlier peer answered |
| ProtocolProperties.SumClocksAgree | src/networkOfCounters/Agent.java:186-195 | the sum depends only on which peers are present and running and on their counters |
| ProtocolProperties.AverageExamples | src/networkOfCounters/Agent.java:184-198 | {10, 20, 30} averages to 20 and {10, 21} to 15 |
| ProtocolProperties.AverageTruncatesTowardZero | src/networkOfCounters/Agent.java:197 | counters -3 and 0 average to -1, not to the floor -2 |
| ProtocolProperties.SynNotIdempotent | src/networkOfCounters/Agent.java:114-118 | a second SYN moves a counter again (0 against 10 gives 5, then 7) |
| OrchestrationProperties.CallsToCons | src/networkOfCounters/Agent.java:163 | the requests to a non-empty prefix of the list are the one to its head, then those to the rest |
| OrchestrationProperties.CallsToHead | src/networkOfCounters/Agent.java:163 | the requests to a non-empty list are the one to its head, then those to its tail |
| OrchestrationProperties.DispatchKeepsAnswers | src/networkOfCounters/Agent.java:105-132 | an answered request changes neither which agents answer nor the failure a non-answering one gives |
| OrchestrationProperties.BroadcastCalls | src/networkOfCounters/Agent.java:162-173 | a loop completes after sending to every entry in list order, or aborts after sending to a non-empty prefix, ending with the one that failed |
| OrchestrationProperties.BroadcastStopsAtFirstUnreachable | src/networkOfCounters/Agent.java:162-173 | for the UPD loop, and the DEL loop at Agent.java:226-235 alike, the first entry that does not answer aborts the loop with its failure (Unreachable or NoAnswer), and no request follows it |
| OrchestrationProperties.BroadcastReachableHead | src/networkOfCounters/Agent.java:162-173 | a UPD loop, or the DEL loop at Agent.java:226-235, whose first entry answers goes on from that entry's answer |
| OrchestrationProperties.BroadcastUpd | src/networkOfCounters/Agent.java:162-173 | a UPD loop only appends the sender: no list loses an entry or gains any other, no counter moves, and when it completes every target lists the sender |
| OrchestrationProperties.BroadcastDel | src/networkOfCounters/Agent.java:226-235 | a DEL loop only removes the sender: no list gains an entry or loses any other, no counter moves, and when it completes no target lists the sender |
| OrchestrationProperties.BroadcastSyn | src/networkOfCounters/Agent.java:206-217 | a SYN loop changes no list |
| OrchestrationProperties.BroadcastInClosedNet | src/networkOfCounters/Agent.java:162-173 | when every member listed by a running agent is present and running, a UPD, DEL or SYN loop to running targets completes, and that stays so |
| OrchestrationProperties.JoinStart | src/networkOfCounters/Agent.java:57-69 | with an introducer that answers, the new agent starts with its initial counter and the introducer's list followed by the introducer, and announces itself from there |
| OrchestrationProperties.JoinIntroducerMissing | src/networkOfCounters/Agent.java:57-68 | an introducer that does not answer (absent or stopped) fails the join at once with that failure, with no request sent; the new agent is left running with an empty list |
| OrchestrationProperties.SettleOutcome | src/networkOfCounters/Agent.java:71-72 | a completed settle step sets the counter to the average taken after UPD, keeps the list, and sends SYN to every entry in order after the UPD requests |
| OrchestrationProperties.SettleKeepsLists | src/networkOfCounters/Agent.java:71-72 | a completed settle step changes no agent's list |
| OrchestrationProperties.AverageOf | src/networkOfCounters/Agent.java:184-198 | the average of an agent with a known counter, list and sum is (counter + sum) / (length + 1), truncated |
| OrchestrationProperties.AnnounceSettles | src/networkOfCounters/Agent.java:70-72 | once every UPD request succeeds, the join goes on with the settle step |
| OrchestrationProperties.AnnounceOutcome | src/networkOfCounters/Agent.java:70-72 | a completed announce keeps the list, sets the counter to (initial + sum of the members' counters as before the join) / (length + 1), and sends UPD to every entry in order, then SYN to every entry in the same order |
| OrchestrationProperties.UpdPhase | src/networkOfCounters/Agent.java:70 | completed UPD requests leave the joiner's own state and every counter it will average unchanged, and go out in list order |
| OrchestrationProperties.SettleAfterUpd | src/networkOfCounters/Agent.java:71-72 | after such UPD requests, a completed settle step leaves the averaged counter and the list on the joiner, and issues all UPD requests and then all SYN requests |
| OrchestrationProperties.SynPhase | src/networkOfCounters/Agent.java:72 | the joiner's SYN requests leave its own state unchanged and go out in list order |
| OrchestrationProperties.JoinAnnounces | src/networkOfCounters/Agent.java:57-73 | after a completed join every entry of the new agent's list lists the new agent |
| OrchestrationProperties.JoinInClosedNetwork | src/networkOfCounters/Agent.java:57-73 | in a closed network, a join through a running introducer completes, the new agent is not in its own list, and the network stays closed |
| OrchestrationProperties.AnnounceInClosedNet | src/networkOfCounters/Agent.java:70-72 | in a closed network, the announce step completes and keeps the network closed |
| OrchestrationProperties.SettleInClosedNet | src/networkOfCounters/Agent.java:71-72 | in a closed network, a settle step whose joiner's list answers completes and keeps the network closed |
| OrchestrationProperties.TwoAgentJoin | src/networkOfCounters/Agent.java:57-73 | a first agent at 0 and an agent joining through it with 100: the joiner ends at 50 and the first agent at 25, each listing the other, after one UPD and one SYN |
| OrchestrationProperties.TwoAgentAnnounce | src/networkOfCounters/Agent.java:70 | in that scenario, the joiner's UPD makes the first agent list it |
| OrchestrationProperties.TwoAgentSettle | src/networkOfCounters/Agent.java:71-72 | the joiner averages to 50 before its SYN, so the first agent averages 0 against 50 |
| OrchestrationProperties.TwoAgentSync | src/networkOfCounters/Agent.java:72 | the SYN sets the first agent to 25 |
| OrchestrationProperties.LeaveOutcome | src/networkOfCounters/Agent.java:225-238 | the run flag is cleared exactly when every request succeeded; the leaver's list is not edited; a completed leave sent DEL to every member in order, then SYN to every member in the same order |
| OrchestrationProperties.LeaveAbortsAtFirstUnreachable | src/networkOfCounters/Agent.java:225-235 | the first member that does not answer aborts the leave after the DEL requests up to it, with its failure; the agent keeps running |
| OrchestrationProperties.LeaveInClosedNetwork | src/networkOfCounters/Agent.java:225-238 | in a closed network, a leave whose list answers completes, no member of the leaver's list lists the leaver any more, and the leaver has stopped |
| OrchestrationProperties.LeaveKeepsClosed | src/networkOfCounters/Agent.java:225-238 | when, moreover, every running agent that lists the leaver is in the leaver's list, after the leave no running agent lists the leaver and the network is closed again |
| OrchestrationProperties.LeaveDelStep | src/networkOfCounters/Agent.java:225-234 | in a closed network the DEL loop of a leaver whose list answers completes, leaves the leaver's own entry alone, keeps the network closed, and every member still runs and no longer lists the leaver |
| OrchestrationProperties.LeaveSynStep | src/networkOfCounters/Agent.java:206-217 | in a closed network a SYN loop to running members completes, keeps the network closed and changes no list |
| OrchestrationProperties.AnnounceLists | src/networkOfCounters/Agent.java:70-72 | if the announce completes, it keeps the joiner's list and every agent, makes every entry of the list list the joiner, and adds nothing else to any list |
| OrchestrationProperties.JoinKeepsSymmetric | src/networkOfCounters/Agent.java:57-73 | a join through a running introducer into a symmetric network completes and leaves it symmetric |
| OrchestrationProperties.SymmetricAfterJoin | src/networkOfCounters/Agent.java:57-73 | lists that gain only the joiner, on exactly the joiner's entries, with the joiner listing running agents only, stay symmetric |
| OrchestrationProperties.LeaveLists | src/networkOfCounters/Agent.java:225-238 | a completed leave in a closed network removes the leaver from lists and no other entry, and adds none |
| OrchestrationProperties.LeaveKeepsSymmetric | src/networkOfCounters/Agent.java:225-238 | a running agent leaving a symmetric network completes its leave and stops, and the network stays symmetric |
| OrchestrationProperties.SymmetricAfterLeave | src/networkOfCounters/Agent.java:225-238 | lists that lose only the leaver, once the leaver is stopped and no running agent lists it, stay symmetric |
| OrchestrationProperties.TwoLeavesKeepClosed | src/networkOfCounters/Agent.java:225-238 | two running agents leaving a symmetric network one after the other both complete, and the network is still closed |
| OrchestrationProperties.RemoveAllNoDuplicates | src/networkOfCounters/Agent.java:125 | removeIf keeps a list without duplicates free of them |
| OrchestrationProperties.BroadcastDelNoDuplicates | src/networkOfCounters/Agent.java:226-235 | a DEL loop, completed or not, keeps every list that had no duplicates free of them |
| OrchestrationProperties.LeaveAfterDel | src/networkOfCounters/Agent.java:225-238 | after its DEL loop, a leave (whether its SYN loop completes or not) changes no agent's list and starts no stopped agent |
| OrchestrationProperties.LeaveKeepsDuplicateFree | src/networkOfCounters/Agent.java:225-238 | a leave, completed or not, never makes a running agent list an agent twice |
| OrchestrationProperties.BroadcastUpdOnce | src/networkOfCounters/Agent.java:162-173 | a completed UPD loop over a list without duplicates appends the sender exactly once to every target and changes no other list |
| OrchestrationProperties.AnnounceListsOnce | src/networkOfCounters/Agent.java:70-72 | a completed announce over a duplicate-free list that omits the joiner appends the joiner exactly once to every entry and changes no other list |
| OrchestrationProperties.DuplicateFreeAfterJoin | src/networkOfCounters/Agent.java:57-73 | lists that gain the joiner once, on the joiner's duplicate-free list, where no running agent listed it, have no duplicates |
| OrchestrationProperties.JoinKeepsDuplicateFree | src/networkOfCounters/Agent.java:57-73 | a join through a running introducer into a symmetric network without duplicate entries leaves no running agent listing an agent twice |
| Agent.SumClocksStep | src/networkOfCounters/Agent.java:186-195 | one more CLK request extends the running sum, or fails at a peer that does not answer |
| Agent.SumClocksErrPersists | src/networkOfCounters/Agent.java:186-195 | once a CLK request fails, the whole loop fails with that error |
| Agent.BroadcastStep | src/networkOfCounters/Agent.java:163-172 | from position i, a loop is one request followed, unless it fails, by the loop from i + 1 |
| Agent.LoopStep | src/networkOfCounters/Agent.java:163-172 | one iteration either ends the loop with the failed request last, or leaves the rest of the loop to run on the network the answer produced |
| Agent.JoinUnfold | src/networkOfCounters/Agent.java:57-70 | a join with an introducer that answers continues with the announce step from the list it built |
| Agent.Network.CreateFirstAgent | src/networkOfCounters/Agent.java:35-46 | the first agent starts with counter 0, an empty list, and running; no other agent changes |
| Agent.Network.Tick | src/networkOfCounters/Agent.java:273-274 | while the agent runs, a tick adds exactly 1 to its counter; a stopped agent does not change |
| Agent.Network.SetCounter | src/networkOfCounters/Agent.java:263-265 | the counter becomes exactly the given value; nothing else changes |
| Agent.Network.StopThisAgent | src/networkOfCounters/Agent.java:295-297 | the run flag is cleared; nothing else changes |
| Agent.Network.GetAverageOfCounterValue | src/networkOfCounters/Agent.java:184-198 | the for-loop over the list returns exactly Average: the truncated mean of the own and listed counters, or the failure of the first peer that does not answer; no state changes |
| Agent.Network.GetAgentListFromIntroAgent | src/networkOfCounters/Agent.java:146-154 | the NET request succeeds exactly when the introducer is present and running, and otherwise fails with Unreachable or NoAnswer; the introducer's handler replies with its list unchanged, and that list is returned |
| Agent.Network.AnswerToClient | src/networkOfCounters/Agent.java:99-135 | the in-place handler yields exactly Serve's reply and new network, and an exception leaves the state unchanged |
| Agent.Network.Request | src/networkOfCounters/Agent.java:168-171 | one connection with a built segment has Deliver's effect: the target's answer, or, when the target is absent or stopped or its handler throws, a failure with no state change |
| Agent.Network.RequestAt | src/networkOfCounters/Agent.java:163-172 | one loop iteration records its request and keeps the loop equal to Broadcast, whether the request fails or not |
| Agent.Network.SendToEach | src/networkOfCounters/Agent.java:162-173 | the while loop leaves exactly Broadcast's network and status, and records Broadcast's requests |
| Agent.Network.SendIPAndPortToOtherAgents | src/networkOfCounters/Agent.java:162-173 | UPD to the agent's list, as Broadcast |
| Agent.Network.SynchronizeCounters | src/networkOfCounters/Agent.java:206-217 | SYN to the agent's list, as Broadcast |
| Agent.Network.RemoveAgentFromNetwork | src/networkOfCounters/Agent.java:225-238 | DEL to the list, then SYN, then stop; the end state, status and recorded requests are exactly Leave's |
| Agent.Network.CreateJoiningAgent | src/networkOfCounters/Agent.java:57-73 | the joining constructor leaves exactly Join's end state, status and recorded requests |

## Left out

- Socket I/O and object serialization: `sendMessage`, `sendObject`,
  `getMessage` and `getObject` are not modelled. A request is the target's
  handler applied to its map entry, and a reply is a value.
- Threads and timing: thread creation, `start` and `Thread.sleep` are not
  modelled. The `volatile` fields and the races between the timer thread and
  the server thread are concurrency, which a sequential model cannot show.
  One tick is the explicit step `Tick`.
- File and console logging (`appendToLogActivity`, `SimpleDateFormat`) is not
  modelled.
- `MonitorHTTPServer.java` and `RequestUtils.java` (the HTTP control panel and
  its regular expressions) are not part of this model.
- Java `long` overflow: counters are unbounded integers. The truncating
  division is modelled exactly (`JavaDiv`).
- Address parsing: `split(":")` and `Integer.parseInt` on list entries are not
  modelled. A list entry is used as the identity of the agent it names, as
  `toString` produces it. A malformed entry (NumberFormatException) is
  therefore not modelled.
- Agent.Network.SendToEach iterates over the list as it was when the loop
  began. Java iterates the live list, which differs only when an agent lists
  itself: the handler then changes the list under the iterator, and Java
  throws ConcurrentModificationException. The join and leave lemmas assume
  that the agent does not list itself.
- A request an agent sends to itself from its joining constructor is answered
  by its own server thread in Java, as in the model. Only a CLK sent from
  inside the agent's own SYN handler would block its single server thread;
  the model answers that request instead.
- The server loop checks the run flag before each `accept`
  (Agent.java:81), so after `stopThisAgent` (Agent.java:295-297) it still
  serves the one connection its pending `accept` returns. The model stops
  answering at once, so that one extra request is not modelled. The server
  socket is never closed, so a stopped agent stays in the map.
- When a join fails, the new agent's threads are already running, so the
  agent stays in the map. It is running with whatever state it had reached.
- An exception in the Java server thread ends that thread, so the agent
  stops answering. In the model, only the current request fails.
- A SYN handler (Agent.java:114-118) averages by sending CLK to its own
  list. If that list holds a stopped peer, the Java server thread blocks on
  a connection that is never accepted (Agent.java:81, 186-195): from then on
  that agent answers nobody, and the loop of the agent that sent the SYN
  blocks with it. The same holds for a CLK or SYN sent straight to a stopped
  peer. The model returns `NoAnswer` instead; the requester's sequence ends
  there, and every other agent keeps answering.
- `GetFlagFromSegment` takes the first three Unicode scalar values of the
  segment, while Java's `substring(0, 3)` counts UTF-16 code units. The two
  differ for a segment that starts with a character outside the Basic
  Multilingual Plane.
- `getIP`, `getPort` and `info` are trivial getters and are not modelled.
  `getTimerValue` is `Network.GetTimerValue`.
- OrchestrationProperties.JoinStart together with AnnounceOutcome states the
  outcome of a whole join. A single lemma stating it with the concrete list
  `JoinList` is not part of the model.

Points where the code behaves differently from what one might expect of a
network of counters; the model follows the code:

- A single `UPD` handler appends the sender with no duplicate check, so a
  second UPD from the same sender adds a second copy (`DispatchUpd`). The
  protocol never sends one: only a fresh joiner sends UPD, once to each entry
  of a duplicate-free list, so joins and leaves keep every list free of
  duplicates (`JoinKeepsDuplicateFree`, `LeaveKeepsDuplicateFree`).
- The comment on `setCounter` (Agent.java:256) says that it also
  synchronizes every agent's counter, but its body (Agent.java:263) only
  assigns the counter and sends no `SYN` (`Network.SetCounter`).
- `SYN` is not idempotent: a second round moves the counters again
  (`SynNotIdempotent`).
- The division truncates toward zero (`AverageTruncatesTowardZero`).
- The joiner overwrites its own counter before it sends `SYN`, so in the
  two-agent example the agents do not end at a common value: the joiner ends
  at 50 and the first agent at 25 (`TwoAgentJoin`).
