/**
 * The protocol of the network of counters as a sequential state machine.
 *
 * Every remote call the agents make is a blocking request/reply, so a whole
 * network is modelled as one map from an agent's identity ("127.0.0.1:<port>")
 * to that agent's state, and a request to a peer as applying the peer's request
 * handler to its entry. A peer that is not in the map is unreachable, and a
 * peer whose run flag is cleared no longer answers: either way the request
 * fails, and the failure aborts the loop that issued it.
 */
module Protocol {
  import opened Wrappers
  import opened MessageUtils

  /** Every agent listens on loopback. */
  const IP_ADDRESS: string := "127.0.0.1"

  // The request flags and the text replies.
  const NET: string := "NET"
  const CLK: string := "CLK"
  const SYN: string := "SYN"
  const UPD: string := "UPD"
  const DEL: string := "DEL"
  const ACK: string := "ACK\n"
  const INCORRECT_FLAG: string := "INCORRECT FLAG"

  /** Agent.toString: the identity under which an agent is listed by its peers. */
  function Identity(port: int): string {
    IP_ADDRESS + ":" + IntToDecimal(port)
  }

  /** The three fields of one agent: counterValue, agentsAddressesAndPorts, keepProcessing. */
  datatype AgentState = AgentState(counter: int, members: seq<string>, running: bool)

  /** A network: every live agent, by identity. */
  type Net = map<string, AgentState>

  /**
   * Why a request could not be answered: nobody listens at the peer's identity,
   * the peer's server loop has ended (its run flag is cleared, so the request
   * is never answered), or the segment could not be decoded.
   */
  datatype Failure = Unreachable(peer: string) | NoAnswer(peer: string) | Malformed(cause: SegmentError)

  /** A reply travels back as text or as a serialized list or counter value. */
  datatype Reply = Text(text: string) | MemberList(list: seq<string>) | CounterValue(value: int)

  /** The result of handling one request: the reply and the network afterwards, or an exception. */
  datatype Outcome = Answered(reply: Reply, net: Net) | Failed(error: Failure)

  datatype Status = Completed | Aborted(error: Failure)

  /** One request issued by an orchestration loop: who sent which flag to whom. */
  datatype Call = Call(from: string, flag: string, to: string)

  /** The result of a sequence of requests: the network, how it ended and the requests issued. */
  datatype FanOut = FanOut(net: Net, status: Status, calls: seq<Call>)

  /** The requests a loop issues when it sends flag to each of targets in order. */
  function CallsTo(from: string, flag: string, targets: seq<string>): (r: seq<Call>)
    ensures |r| == |targets|
    ensures forall k :: 0 <= k < |targets| ==> r[k] == Call(from, flag, targets[k])
  {
    seq(|targets|, k requires 0 <= k < |targets| => Call(from, flag, targets[k]))
  }

  /** The peer p answers requests: it is in the network and its server loop still runs. */
  predicate Answers(net: Net, p: string) {
    p in net && net[p].running
  }

  /** The failure of a request to a peer that does not answer. */
  function NoReply(net: Net, p: string): Failure {
    if p in net then NoAnswer(p) else Unreachable(p)
  }

  /**
   * Every member listed by a running agent is an agent of the network that
   * answers. A stopped agent never sends again, so its list does not matter.
   */
  ghost predicate ClosedNet(net: Net) {
    forall a, p :: Answers(net, a) && p in net[a].members ==> Answers(net, p)
  }

  /**
   * A closed network whose lists are symmetric: a running agent never lists
   * itself, and every running agent it lists lists it back.
   */
  ghost predicate Symmetric(net: Net) {
    forall a, p :: Answers(net, a) && p in net[a].members ==> p != a && Answers(net, p) && a in net[p].members
  }

  /** A list that names every agent at most once. */
  predicate NoDuplicates(s: seq<string>) {
    forall i, j :: 0 <= i < j < |s| ==> s[i] != s[j]
  }

  /** No running agent lists the same agent twice. */
  ghost predicate DuplicateFree(net: Net) {
    forall a :: Answers(net, a) ==> NoDuplicates(net[a].members)
  }

  // ---------------------------------------------------------------------
  // Arithmetic of the average
  // ---------------------------------------------------------------------

  /**
   * Java's long division, which truncates toward zero: a negative dividend
   * gives the negated quotient of its magnitude.
   */
  function JavaDiv(a: int, b: int): int
    requires b > 0
    decreases if a < 0 then 1 else 0
  {
    if a < 0 then -JavaDiv(-a, b) else a / b
  }

  /**
   * The sum of the counters the loop of getAverageOfCounterValue collects with CLK,
   * one peer after the other; the first peer that does not answer aborts it.
   */
  function SumClocks(net: Net, peers: seq<string>): Result<int, Failure>
    decreases |peers|
  {
    if peers == [] then Ok(0)
    else
      var last := peers[|peers| - 1];
      match SumClocks(net, peers[..|peers| - 1])
      case Err(e) => Err(e)
      case Ok(v) => if Answers(net, last) then Ok(v + net[last].counter) else Err(NoReply(net, last))
  }

  /** getAverageOfCounterValue: (own counter + every member's counter) / (members + 1). */
  function Average(net: Net, agent: string): Result<int, Failure>
    requires agent in net
  {
    var st := net[agent];
    match SumClocks(net, st.members)
    case Err(e) => Err(e)
    case Ok(v) => Ok(JavaDiv(st.counter + v, |st.members| + 1))
  }

  // ---------------------------------------------------------------------
  // The request handler
  // ---------------------------------------------------------------------

  /** removeIf(e -> e.equals(x)): every entry equal to x is dropped, the rest keep their order. */
  function RemoveAll(s: seq<string>, x: string): seq<string>
    decreases |s|
  {
    if s == [] then [] else (if s[0] == x then [] else [s[0]]) + RemoveAll(s[1..], x)
  }

  /** The switch of answerToClient, once the flag and the sender's identity are decoded. */
  function Dispatch(net: Net, agent: string, flag: string, client: string): (o: Outcome)
    requires agent in net
    ensures o.Answered? ==> o.net.Keys == net.Keys && o.net[agent].running == net[agent].running
    ensures o.Answered? ==> forall a :: a in net && a != agent ==> o.net[a] == net[a]
  {
    var st := net[agent];
    if flag == NET then Answered(MemberList(st.members), net)
    else if flag == CLK then Answered(CounterValue(st.counter), net)
    else if flag == SYN then
      match Average(net, agent)
      case Err(e) => Failed(e)
      case Ok(avg) => Answered(Text(ACK), net[agent := st.(counter := avg)])
    else if flag == UPD then Answered(Text(ACK), net[agent := st.(members := st.members + [client])])
    else if flag == DEL then Answered(Text(ACK), net[agent := st.(members := RemoveAll(st.members, client))])
    else Answered(Text(INCORRECT_FLAG), net)
  }

  /** answerToClient: decode the sender, then the flag, then dispatch. */
  function Serve(net: Net, agent: string, segment: string): (o: Outcome)
    requires agent in net
    ensures o.Answered? ==> o.net.Keys == net.Keys && o.net[agent].running == net[agent].running
    ensures o.Answered? ==> forall a :: a in net && a != agent ==> o.net[a] == net[a]
  {
    match GetIPAndPortFromSegment(segment)
    case Err(e) => Failed(Malformed(e))
    case Ok(client) =>
      match GetFlagFromSegment(segment)
      case Err(e) => Failed(Malformed(e))
      case Ok(flag) => Dispatch(net, agent, flag, client)
  }

  /**
   * A request with flag from the agent me to target: the connection fails when
   * target is not in the network, and no answer comes when target's server
   * loop has ended; otherwise target's handler answers the decoded request
   * (lemma DeliverIsServe: for me == Identity(port) this is Serve applied to
   * the segment getSegment builds).
   */
  function Deliver(net: Net, me: string, flag: string, target: string): (o: Outcome)
    ensures o.Answered? <==> Answers(net, target) && Dispatch(net, target, flag, me).Answered?
    ensures o.Failed? && !Answers(net, target) ==> o.error == NoReply(net, target)
    ensures o.Answered? ==> o.net.Keys == net.Keys
    ensures o.Answered? ==> o.net[target].running == net[target].running
    ensures o.Answered? ==> forall a :: a in net && a != target ==> o.net[a] == net[a]
  {
    if !Answers(net, target) then Failed(NoReply(net, target))
    else Dispatch(net, target, flag, me)
  }

  // ---------------------------------------------------------------------
  // Orchestration
  // ---------------------------------------------------------------------

  /**
   * The loops of sendIPAndPortToOtherAgents, synchronizeCounters and
   * removeAgentFromNetwork: me sends flag to each target in order, and the
   * first request that fails aborts the rest.
   */
  function Broadcast(net: Net, me: string, flag: string, targets: seq<string>): (r: FanOut)
    ensures r.net.Keys == net.Keys
    ensures forall a :: a in net && a !in targets ==> r.net[a] == net[a]
    ensures forall a :: a in net ==> r.net[a].running == net[a].running
    decreases |targets|
  {
    if targets == [] then FanOut(net, Completed, [])
    else
      var call := Call(me, flag, targets[0]);
      match Deliver(net, me, flag, targets[0])
      case Failed(e) => FanOut(net, Aborted(e), [call])
      case Answered(_, next) =>
        var rest := Broadcast(next, me, flag, targets[1..]);
        FanOut(rest.net, rest.status, [call] + rest.calls)
  }

  /**
   * The constructor of a joining agent me with introducer intro. Its own
   * threads run first, so it is in the network from the start; it fetches the
   * introducer's list (NET), appends the introducer, and goes on with Announce.
   */
  function Join(net: Net, me: string, initCounterVal: int, intro: string): (r: FanOut)
    requires me !in net
    ensures me in r.net && r.net[me].running
    ensures r.net.Keys == net.Keys + {me}
    ensures forall a :: a in net ==> r.net[a].running == net[a].running
  {
    var started := net[me := AgentState(initCounterVal, [], true)];
    if !Answers(started, intro) then FanOut(started, Aborted(NoReply(started, intro)), [])
    else Announce(started[me := started[me].(members := started[intro].members + [intro])], me)
  }

  /** The joining agent announces itself to every entry of its list (UPD), then goes on with Settle. */
  function Announce(listed: Net, me: string): (r: FanOut)
    requires me in listed
    ensures r.net.Keys == listed.Keys
    ensures forall a :: a in listed ==> r.net[a].running == listed[a].running
  {
    var upd := Broadcast(listed, me, UPD, listed[me].members);
    if upd.status.Aborted? then upd else Settle(upd, me)
  }

  /**
   * The joining agent sets its counter to the average (CLK to every entry) and
   * asks every entry to synchronize (SYN); the requests of upd come first.
   */
  function Settle(upd: FanOut, me: string): (r: FanOut)
    requires me in upd.net
    ensures r.net.Keys == upd.net.Keys
    ensures forall a :: a in upd.net ==> r.net[a].running == upd.net[a].running
  {
    var avg := Average(upd.net, me);
    if avg.Err? then FanOut(upd.net, Aborted(avg.error), upd.calls)
    else
      var averaged := upd.net[me := upd.net[me].(counter := avg.value)];
      var syn := Broadcast(averaged, me, SYN, averaged[me].members);
      FanOut(syn.net, syn.status, upd.calls + syn.calls)
  }

  /**
   * removeAgentFromNetwork of agent me: DEL to every member, then SYN to every
   * member, then the run flag is cleared; an exception anywhere skips what
   * follows it.
   */
  function Leave(net: Net, me: string): (r: FanOut)
    requires me in net
    ensures r.net.Keys == net.Keys
    ensures forall a :: a in net && a != me ==> r.net[a].running == net[a].running
  {
    var del := Broadcast(net, me, DEL, net[me].members);
    if del.status.Aborted? then del
    else
      var syn := Broadcast(del.net, me, SYN, del.net[me].members);
      if syn.status.Aborted? then FanOut(syn.net, syn.status, del.calls + syn.calls)
      else FanOut(syn.net[me := syn.net[me].(running := false)], Completed, del.calls + syn.calls)
  }
}
