/**
 * The agents of the network of counters as one object: the map from identity
 * to the three fields of each agent is updated in place, request by request,
 * by methods that follow the loops of the Java class step by step. Each method
 * is proved to compute what the corresponding function of Protocol describes.
 * The ghost trace records the UPD, SYN and DEL requests of the fan-out loops,
 * in order; the NET request of a join and the CLK requests of an average are
 * not recorded in it.
 */
module Agent {
  import opened Wrappers
  import opened MessageUtils
  import opened Protocol
  import opened ProtocolProperties

  // ---------------------------------------------------------------------
  // The loop of getAverageOfCounterValue, one request at a time
  // ---------------------------------------------------------------------

  /** One more CLK request extends the running sum, or fails at a peer that does not answer. */
  lemma SumClocksStep(net: Net, peers: seq<string>, i: nat)
    requires i < |peers|
    ensures SumClocks(net, peers[..i + 1]) ==
              match SumClocks(net, peers[..i])
              case Err(e) => Err(e)
              case Ok(v) => if Answers(net, peers[i]) then Ok(v + net[peers[i]].counter) else Err(NoReply(net, peers[i]))
  {
    assert peers[..i + 1][..i] == peers[..i];
  }

  /** Once the loop fails, the later peers are never asked: the sum fails with the same error. */
  lemma {:induction false} SumClocksErrPersists(net: Net, peers: seq<string>, i: nat)
    requires i <= |peers|
    requires SumClocks(net, peers[..i]).Err?
    ensures SumClocks(net, peers) == SumClocks(net, peers[..i])
    decreases |peers| - i
  {
    if i < |peers| {
      SumClocksStep(net, peers, i);
      SumClocksErrPersists(net, peers, i + 1);
    } else {
      assert peers[..i] == peers;
    }
  }

  /** A fan-out result with calls issued before it. */
  function After(calls: seq<Call>, r: FanOut): FanOut {
    FanOut(r.net, r.status, calls + r.calls)
  }

  /** The loop of requests from position i on: one request, then the rest of the loop, unless it fails. */
  lemma BroadcastStep(net: Net, me: string, flag: string, targets: seq<string>, i: nat)
    requires i < |targets|
    ensures var d := Deliver(net, me, flag, targets[i]);
      Broadcast(net, me, flag, targets[i..]) ==
        if d.Failed? then FanOut(net, Aborted(d.error), [Call(me, flag, targets[i])])
        else After([Call(me, flag, targets[i])], Broadcast(d.net, me, flag, targets[i + 1..]))
  {
    assert targets[i..][0] == targets[i];
    assert targets[i..][1..] == targets[i + 1..];
  }

  /** Concatenation of traces is associative. */
  lemma AppendAssoc(a: seq<Call>, b: seq<Call>, c: seq<Call>)
    ensures (a + b) + c == a + (b + c)
  {
  }

  /** Calls issued before calls issued before a result. */
  lemma AfterAfter(a: seq<Call>, b: seq<Call>, r: FanOut)
    ensures After(a, After(b, r)) == After(a + b, r)
  {
    assert a + (b + r.calls) == (a + b) + r.calls;
  }

  /**
   * One iteration of a request loop: from position i on, one request is
   * issued and either fails, ending the loop, or leaves the rest of the loop
   * to run on the network it produced.
   */
  lemma LoopStep(start: Net, net: Net, me: string, flag: string, targets: seq<string>, i: nat, done: seq<Call>)
    requires i < |targets|
    requires Broadcast(start, me, flag, targets) == After(done, Broadcast(net, me, flag, targets[i..]))
    ensures var d := Deliver(net, me, flag, targets[i]);
      d.Failed? ==> Broadcast(start, me, flag, targets) == FanOut(net, Aborted(d.error), done + [Call(me, flag, targets[i])])
    ensures var d := Deliver(net, me, flag, targets[i]);
      d.Answered? ==> Broadcast(start, me, flag, targets) ==
                      After(done + [Call(me, flag, targets[i])], Broadcast(d.net, me, flag, targets[i + 1..]))
  {
    var call := Call(me, flag, targets[i]);
    BroadcastStep(net, me, flag, targets, i);
    var d := Deliver(net, me, flag, targets[i]);
    if d.Answered? {
      AfterAfter(done, [call], Broadcast(d.net, me, flag, targets[i + 1..]));
    }
  }

  /** A join whose introducer answers goes on with Announce from the list it was given. */
  lemma JoinUnfold(net: Net, me: string, initCounterVal: int, intro: string, listed: Net)
    requires me !in net
    requires Answers(net[me := AgentState(initCounterVal, [], true)], intro)
    requires var started := net[me := AgentState(initCounterVal, [], true)];
      listed == started[me := started[me].(members := started[intro].members + [intro])]
    ensures Join(net, me, initCounterVal, intro) == Announce(listed, me)
  {
  }

  /**
   * Every agent of the network, by identity, with the requests the
   * orchestration loops have issued so far.
   */
  class Network {
    var agents: Net
    ghost var trace: seq<Call>

    /** A network with no agent yet. */
    constructor()
      ensures agents == map[] && trace == []
    {
      agents := map[];
      trace := [];
    }

    /** getTimerValue: the agent's counter, whether or not it still runs. */
    function GetTimerValue(port: int): int
      reads this
      requires Identity(port) in agents
    {
      agents[Identity(port)].counter
    }

    /**
     * The constructor of the first agent, listening on a port no agent uses:
     * counter 0, an empty list, running.
     */
    method CreateFirstAgent(port: int)
      requires Identity(port) !in agents
      modifies this
      ensures agents == old(agents)[Identity(port) := AgentState(0, [], true)]
      ensures trace == old(trace)
    {
      agents := agents[Identity(port) := AgentState(0, [], true)];
    }

    /** One step of the timer thread: while the agent runs, its counter goes up by exactly 1. */
    method Tick(port: int)
      requires Identity(port) in agents
      modifies this
      ensures var st := old(agents)[Identity(port)];
        agents == old(agents)[Identity(port) := if st.running then st.(counter := st.counter + 1) else st]
      ensures old(agents)[Identity(port)].running ==> GetTimerValue(port) == old(GetTimerValue(port)) + 1
      ensures trace == old(trace)
    {
      var me := Identity(port);
      if agents[me].running {
        agents := agents[me := agents[me].(counter := agents[me].counter + 1)];
      }
    }

    /** setCounter: the counter becomes exactly the value given; nothing else changes. */
    method SetCounter(port: int, milliseconds: int)
      requires Identity(port) in agents
      modifies this
      ensures agents == old(agents)[Identity(port) := old(agents)[Identity(port)].(counter := milliseconds)]
      ensures GetTimerValue(port) == milliseconds
      ensures trace == old(trace)
    {
      var me := Identity(port);
      agents := agents[me := agents[me].(counter := milliseconds)];
    }

    /** stopThisAgent: the run flag is cleared; nothing else changes. */
    method StopThisAgent(port: int)
      requires Identity(port) in agents
      modifies this
      ensures agents == old(agents)[Identity(port) := old(agents)[Identity(port)].(running := false)]
      ensures trace == old(trace)
    {
      var me := Identity(port);
      agents := agents[me := agents[me].(running := false)];
    }

    /**
     * getAverageOfCounterValue of agent me: the sum starts at its own counter,
     * each listed peer is asked for its counter (CLK) in order, and the sum is
     * divided, truncating, by the list size plus one. The first peer that
     * does not answer aborts the loop. No state changes.
     */
    method GetAverageOfCounterValue(me: string) returns (r: Result<int, Failure>)
      requires me in agents
      ensures r == Average(agents, me)
    {
      var st := agents[me];
      var members := st.members;
      var sum := st.counter;
      var i := 0;
      while i < |members|
        invariant 0 <= i <= |members|
        invariant SumClocks(agents, members[..i]) == Ok(sum - st.counter)
      {
        SumClocksStep(agents, members, i);
        if !Answers(agents, members[i]) {
          SumClocksErrPersists(agents, members, i + 1);
          return Err(NoReply(agents, members[i]));
        }
        sum := sum + agents[members[i]].counter;
        i := i + 1;
      }
      assert members[..i] == members;
      r := Ok(JavaDiv(sum, |members| + 1));
    }

    /**
     * getAgentListFromIntroAgent: a NET request from the agent on port to the
     * introducer; the reply is the list the introducer's handler sends back.
     */
    method GetAgentListFromIntroAgent(port: int, introPort: int) returns (r: Result<seq<string>, Failure>)
      ensures r.Ok? <==> Answers(agents, Identity(introPort))
      ensures r.Err? ==> r.error == NoReply(agents, Identity(introPort))
      ensures r.Ok? ==> Serve(agents, Identity(introPort), GetSegment(NET, IP_ADDRESS, port)) ==
                        Answered(MemberList(r.value), agents)
      ensures r.Ok? ==> r.value == agents[Identity(introPort)].members
    {
      var intro := Identity(introPort);
      if !Answers(agents, intro) {
        return Err(NoReply(agents, intro));
      }
      DeliverIsServe(agents, port, NET, intro);
      r := Ok(agents[intro].members);
    }

    /**
     * answerToClient of agent agentId: decode the sender and the flag of the
     * segment, then answer. NET and CLK only read, SYN overwrites the counter
     * with the agent's average, UPD appends the sender, DEL removes every copy
     * of it, and any other flag is answered with "INCORRECT FLAG". An exception
     * leaves the state as it was.
     */
    method AnswerToClient(agentId: string, segment: string) returns (r: Result<Reply, Failure>)
      requires agentId in agents
      modifies this
      ensures var o := Serve(old(agents), agentId, segment);
        (o.Answered? ==> r == Ok(o.reply) && agents == o.net) &&
        (o.Failed? ==> r == Err(o.error) && agents == old(agents))
      ensures trace == old(trace)
    {
      var clientData := GetIPAndPortFromSegment(segment);
      if clientData.Err? {
        return Err(Malformed(clientData.error));
      }
      var flagReceived := GetFlagFromSegment(segment);
      if flagReceived.Err? {
        return Err(Malformed(flagReceived.error));
      }
      var flag := flagReceived.value;
      var client := clientData.value;
      var st := agents[agentId];
      if flag == NET {
        r := Ok(MemberList(st.members));
      } else if flag == CLK {
        r := Ok(CounterValue(st.counter));
      } else if flag == SYN {
        var avg := GetAverageOfCounterValue(agentId);
        if avg.Err? {
          return Err(avg.error);
        }
        agents := agents[agentId := st.(counter := avg.value)];
        r := Ok(Text(ACK));
      } else if flag == UPD {
        agents := agents[agentId := st.(members := st.members + [client])];
        r := Ok(Text(ACK));
      } else if flag == DEL {
        agents := agents[agentId := st.(members := RemoveAll(st.members, client))];
        r := Ok(Text(ACK));
      } else {
        r := Ok(Text(INCORRECT_FLAG));
      }
    }

    /**
     * One connection from the agent on port to target: the segment getSegment
     * builds is sent, and target's answerToClient handles it; the connection
     * fails when no agent has the identity target, and no answer comes when
     * target's server loop has ended.
     */
    method Request(port: int, flag: string, target: string) returns (r: Result<Reply, Failure>)
      requires |flag| == 3 && '-' !in flag
      modifies this
      ensures var d := Deliver(old(agents), Identity(port), flag, target);
        (d.Answered? ==> r == Ok(d.reply) && agents == d.net) &&
        (d.Failed? ==> r == Err(d.error) && agents == old(agents))
      ensures trace == old(trace)
    {
      if !Answers(agents, target) {
        return Err(NoReply(agents, target));
      }
      DeliverIsServe(agents, port, flag, target);
      r := AnswerToClient(target, GetSegment(flag, IP_ADDRESS, port));
    }

    /**
     * One iteration of the loop below: the request to targets[i] is recorded
     * and sent; the loop from i on then either ends with its failure or goes
     * on from i + 1 over the network the answer left.
     */
    method RequestAt(port: int, flag: string, targets: seq<string>, i: nat, ghost start: Net, ghost done: seq<Call>)
      returns (reply: Result<Reply, Failure>)
      requires |flag| == 3 && '-' !in flag
      requires i < |targets|
      requires Broadcast(start, Identity(port), flag, targets) ==
               After(done, Broadcast(agents, Identity(port), flag, targets[i..]))
      modifies this
      ensures trace == old(trace) + [Call(Identity(port), flag, targets[i])]
      ensures reply.Err? ==> agents == old(agents)
      ensures reply.Err? ==>
        Broadcast(start, Identity(port), flag, targets) ==
        FanOut(agents, Aborted(reply.error), done + [Call(Identity(port), flag, targets[i])])
      ensures reply.Ok? ==>
        Broadcast(start, Identity(port), flag, targets) ==
        After(done + [Call(Identity(port), flag, targets[i])], Broadcast(agents, Identity(port), flag, targets[i + 1..]))
    {
      var me := Identity(port);
      LoopStep(start, agents, me, flag, targets, i, done);
      trace := trace + [Call(me, flag, targets[i])];
      reply := Request(port, flag, targets[i]);
    }

    /**
     * The loop shared by sendIPAndPortToOtherAgents, synchronizeCounters and
     * removeAgentFromNetwork: the agent on port sends flag to each target in
     * order, each target's handler answers it, and the first request that
     * fails ends the loop.
     */
    method SendToEach(port: int, flag: string, targets: seq<string>) returns (status: Status)
      requires |flag| == 3 && '-' !in flag
      modifies this
      ensures var b := Broadcast(old(agents), Identity(port), flag, targets);
        agents == b.net && status == b.status && trace == old(trace) + b.calls
    {
      ghost var me := Identity(port);
      ghost var start := agents;
      ghost var oldTrace := trace;
      ghost var done: seq<Call> := [];
      var i := 0;
      assert targets[i..] == targets;
      while i < |targets|
        invariant 0 <= i <= |targets|
        invariant Broadcast(start, me, flag, targets) == After(done, Broadcast(agents, me, flag, targets[i..]))
        invariant trace == oldTrace + done
      {
        AppendAssoc(oldTrace, done, [Call(me, flag, targets[i])]);
        var reply := RequestAt(port, flag, targets, i, start, done);
        done := done + [Call(me, flag, targets[i])];
        if reply.Err? {
          return Aborted(reply.error);
        }
        i := i + 1;
      }
      assert done + [] == done;
      status := Completed;
    }

    /** sendIPAndPortToOtherAgents: UPD to every entry of the agent's list. */
    method SendIPAndPortToOtherAgents(port: int) returns (status: Status)
      requires Identity(port) in agents
      modifies this
      ensures var b := Broadcast(old(agents), Identity(port), UPD, old(agents)[Identity(port)].members);
        agents == b.net && status == b.status && trace == old(trace) + b.calls
    {
      status := SendToEach(port, UPD, agents[Identity(port)].members);
    }

    /** synchronizeCounters: SYN to every entry of the agent's list. */
    method SynchronizeCounters(port: int) returns (status: Status)
      requires Identity(port) in agents
      modifies this
      ensures var b := Broadcast(old(agents), Identity(port), SYN, old(agents)[Identity(port)].members);
        agents == b.net && status == b.status && trace == old(trace) + b.calls
    {
      status := SendToEach(port, SYN, agents[Identity(port)].members);
    }

    /**
     * removeAgentFromNetwork: DEL to every entry of the agent's list, then SYN
     * to every entry, then stopThisAgent; an exception skips what follows it.
     */
    method RemoveAgentFromNetwork(port: int) returns (status: Status)
      requires Identity(port) in agents
      modifies this
      ensures var l := Leave(old(agents), Identity(port));
        agents == l.net && status == l.status && trace == old(trace) + l.calls
    {
      var me := Identity(port);
      ghost var start := agents;
      ghost var oldTrace := trace;
      ghost var del := Broadcast(start, me, DEL, start[me].members);
      status := SendToEach(port, DEL, agents[me].members);
      if status.Aborted? {
        return;
      }
      ghost var syn := Broadcast(del.net, me, SYN, del.net[me].members);
      status := SynchronizeCounters(port);
      AppendAssoc(oldTrace, del.calls, syn.calls);
      if status.Aborted? {
        return;
      }
      StopThisAgent(port);
    }

    /**
     * The constructor of a joining agent on a port no agent uses, with an
     * initial counter and an introducer: its threads start, it takes the
     * introducer's list (NET) and appends the introducer, sends UPD to every
     * entry, sets its counter to the average, and sends SYN to every entry.
     * An exception ends the sequence; the agent keeps running in any case.
     */
    method CreateJoiningAgent(port: int, initCounterVal: int, introAgentPort: int) returns (status: Status)
      requires Identity(port) !in agents
      modifies this
      ensures var j := Join(old(agents), Identity(port), initCounterVal, Identity(introAgentPort));
        agents == j.net && status == j.status && trace == old(trace) + j.calls
    {
      var me := Identity(port);
      var intro := Identity(introAgentPort);
      ghost var start := agents;
      ghost var oldTrace := trace;
      agents := agents[me := AgentState(initCounterVal, [], true)];
      var list := GetAgentListFromIntroAgent(port, introAgentPort);
      if list.Err? {
        return Aborted(list.error);
      }
      agents := agents[me := agents[me].(members := list.value + [intro])];
      ghost var listed := agents;
      JoinUnfold(start, me, initCounterVal, intro, listed);
      ghost var upd := Broadcast(listed, me, UPD, listed[me].members);
      status := SendIPAndPortToOtherAgents(port);
      assert agents == upd.net && status == upd.status && trace == oldTrace + upd.calls;
      if status.Aborted? {
        return;
      }
      assert Announce(listed, me) == Settle(upd, me);
      var avg := GetAverageOfCounterValue(me);
      if avg.Err? {
        return Aborted(avg.error);
      }
      agents := agents[me := agents[me].(counter := avg.value)];
      ghost var syn := Broadcast(agents, me, SYN, agents[me].members);
      status := SynchronizeCounters(port);
      AppendAssoc(oldTrace, upd.calls, syn.calls);
    }
  }
}
