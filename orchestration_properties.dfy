/** What the join and leave sequences of an agent guarantee. */
module OrchestrationProperties {
  import opened Wrappers
  import opened MessageUtils
  import opened Protocol
  import opened ProtocolProperties

  // ---------------------------------------------------------------------
  // One loop of requests
  // ---------------------------------------------------------------------

  /** The requests to a non-empty prefix are the request to its head, then those to the rest. */
  lemma CallsToCons(me: string, flag: string, targets: seq<string>, k: nat)
    requires k < |targets|
    ensures CallsTo(me, flag, targets[..k + 1]) == [Call(me, flag, targets[0])] + CallsTo(me, flag, targets[1..][..k])
    ensures k == 0 ==> CallsTo(me, flag, targets[..1]) == [Call(me, flag, targets[0])]
  {
    assert targets[1..][..k] == targets[..k + 1][1..];
  }

  /** The requests to a non-empty list are the request to its head, then those to its tail. */
  lemma CallsToHead(me: string, flag: string, targets: seq<string>)
    requires targets != []
    ensures CallsTo(me, flag, targets) == [Call(me, flag, targets[0])] + CallsTo(me, flag, targets[1..])
  {
  }

  /**
   * The requests go out in list order: all of them when the loop completes, and
   * when it aborts, those up to and including the one that failed.
   */
  lemma {:induction false} BroadcastCalls(net: Net, me: string, flag: string, targets: seq<string>)
    ensures var r := Broadcast(net, me, flag, targets);
      (r.status.Completed? ==> r.calls == CallsTo(me, flag, targets)) &&
      (r.status.Aborted? ==> 1 <= |r.calls| <= |targets| &&
                             r.calls == CallsTo(me, flag, targets[..|r.calls|]))
    decreases |targets|
  {
    var r := Broadcast(net, me, flag, targets);
    if targets != [] {
      var call := Call(me, flag, targets[0]);
      var d := Deliver(net, me, flag, targets[0]);
      if d.Failed? {
        CallsToCons(me, flag, targets, 0);
      } else {
        var rest := Broadcast(d.net, me, flag, targets[1..]);
        assert r == FanOut(rest.net, rest.status, [call] + rest.calls);
        BroadcastCalls(d.net, me, flag, targets[1..]);
        if rest.status.Completed? {
          CallsToHead(me, flag, targets);
        } else {
          CallsToCons(me, flag, targets, |rest.calls|);
        }
      }
    }
  }

  /**
   * For UPD and DEL, which cannot fail at a peer that answers, the first target
   * that does not answer aborts the loop: it is the last request issued, and
   * none follows.
   */
  lemma {:induction false} BroadcastStopsAtFirstUnreachable(net: Net, me: string, flag: string,
                                                            targets: seq<string>, k: nat)
    requires flag == UPD || flag == DEL
    requires k < |targets| && !Answers(net, targets[k])
    requires forall j :: 0 <= j < k ==> Answers(net, targets[j])
    ensures Broadcast(net, me, flag, targets).status == Aborted(NoReply(net, targets[k]))
    ensures Broadcast(net, me, flag, targets).calls == CallsTo(me, flag, targets[..k + 1])
    ensures Broadcast(net, me, flag, targets).net.Keys == net.Keys
    decreases k
  {
    if k == 0 {
      CallsToCons(me, flag, targets, 0);
    } else {
      var next := Dispatch(net, targets[0], flag, me).net;
      BroadcastReachableHead(net, me, flag, targets);
      DispatchKeepsAnswers(net, targets[0], flag, me);
      BroadcastStopsAtFirstUnreachable(next, me, flag, targets[1..], k - 1);
      CallsToCons(me, flag, targets, k);
    }
  }

  /** A loop of UPD or DEL requests whose first target answers goes on from that target's answer. */
  lemma BroadcastReachableHead(net: Net, me: string, flag: string, targets: seq<string>)
    requires flag == UPD || flag == DEL
    requires targets != [] && Answers(net, targets[0])
    ensures var next := Dispatch(net, targets[0], flag, me).net;
      var rest := Broadcast(next, me, flag, targets[1..]);
      Broadcast(net, me, flag, targets) == FanOut(rest.net, rest.status, [Call(me, flag, targets[0])] + rest.calls)
  {
  }

  /** A handled request changes no agent's presence or run flag, so who answers stays the same. */
  lemma DispatchKeepsAnswers(net: Net, agent: string, flag: string, client: string)
    requires agent in net
    requires Dispatch(net, agent, flag, client).Answered?
    ensures var next := Dispatch(net, agent, flag, client).net;
      forall p :: (Answers(next, p) <==> Answers(net, p)) && NoReply(next, p) == NoReply(net, p)
  {
  }

  /**
   * A loop of UPD requests only ever appends the sender (no list loses an
   * entry or gains another one, no counter moves), and when it completes every
   * target lists the sender.
   */
  lemma {:induction false} BroadcastUpd(net: Net, me: string, targets: seq<string>)
    ensures var r := Broadcast(net, me, UPD, targets);
      (forall a, x :: a in net && x in net[a].members ==> x in r.net[a].members) &&
      (forall a, x :: a in net && x in r.net[a].members ==> x in net[a].members || x == me) &&
      (forall a :: a in net ==> r.net[a].counter == net[a].counter) &&
      (r.status.Completed? ==> forall t :: t in targets ==> t in r.net && me in r.net[t].members)
    decreases |targets|
  {
    if targets != [] && Answers(net, targets[0]) {
      var t0 := targets[0];
      DispatchUpd(net, t0, me);
      var next := Dispatch(net, t0, UPD, me).net;
      assert next[t0].members == net[t0].members + [me];
      BroadcastUpd(next, me, targets[1..]);
      assert forall t :: t in targets ==> t == t0 || t in targets[1..];
    }
  }

  /**
   * A loop of DEL requests only ever removes the sender (no list gains an
   * entry or loses another one, no counter moves), and when it completes no
   * target lists the sender.
   */
  lemma {:induction false} BroadcastDel(net: Net, me: string, targets: seq<string>)
    ensures var r := Broadcast(net, me, DEL, targets);
      (forall a, x :: a in net && x in r.net[a].members ==> x in net[a].members) &&
      (forall a, x :: a in net && x in net[a].members && x != me ==> x in r.net[a].members) &&
      (forall a :: a in net ==> r.net[a].counter == net[a].counter) &&
      (r.status.Completed? ==> forall t :: t in targets ==> t in r.net && me !in r.net[t].members)
    decreases |targets|
  {
    if targets != [] && Answers(net, targets[0]) {
      var t0 := targets[0];
      var next := Dispatch(net, t0, DEL, me).net;
      assert next[t0].members == RemoveAll(net[t0].members, me);
      RemoveAllRemoves(net[t0].members, me);
      RemoveAllKeepsOthers(net[t0].members, me);
      assert forall x :: x in net[t0].members && x != me ==> x in next[t0].members by {
        forall x | x in net[t0].members && x != me ensures x in next[t0].members {
          assert multiset(next[t0].members)[x] == multiset(net[t0].members)[x] > 0;
        }
      }
      BroadcastDel(next, me, targets[1..]);
      assert forall t :: t in targets ==> t == t0 || t in targets[1..];
    }
  }

  /** A loop of SYN requests moves counters only: every list stays as it was. */
  lemma {:induction false} BroadcastSyn(net: Net, me: string, targets: seq<string>)
    ensures var r := Broadcast(net, me, SYN, targets);
      forall a :: a in net ==> r.net[a].members == net[a].members
    decreases |targets|
  {
    if targets != [] && Answers(net, targets[0]) {
      DispatchSyn(net, targets[0], me);
      var d := Deliver(net, me, SYN, targets[0]);
      if d.Answered? {
        BroadcastSyn(d.net, me, targets[1..]);
      }
    }
  }

  /**
   * When every listed member of every agent answers, a loop of UPD, DEL or SYN
   * requests to targets that answer completes, and keeps every listed member
   * answering (a sender that UPD adds to lists must answer itself).
   */
  lemma {:induction false} BroadcastInClosedNet(net: Net, me: string, flag: string, targets: seq<string>)
    requires ClosedNet(net)
    requires flag == UPD || flag == DEL || flag == SYN
    requires flag == UPD ==> Answers(net, me)
    requires forall t :: t in targets ==> Answers(net, t)
    ensures Broadcast(net, me, flag, targets).status == Completed
    ensures ClosedNet(Broadcast(net, me, flag, targets).net)
    decreases |targets|
  {
    if targets != [] {
      var t0 := targets[0];
      assert t0 in targets;
      if flag == SYN {
        DispatchSyn(net, t0, me);
        AverageOk(net, t0);
      } else if flag == DEL {
        RemoveAllKeepsOthers(net[t0].members, me);
      }
      var next := Dispatch(net, t0, flag, me).net;
      DispatchKeepsAnswers(net, t0, flag, me);
      assert ClosedNet(next) by {
        forall a, p | Answers(next, a) && p in next[a].members ensures Answers(next, p) {
          assert Answers(net, a);
          if a != t0 {
            assert p in net[a].members;
          } else if flag == UPD {
            assert next[t0].members == net[t0].members + [me];
          } else {
            assert p in net[t0].members;
          }
        }
      }
      assert forall t :: t in targets[1..] ==> t in targets;
      BroadcastInClosedNet(next, me, flag, targets[1..]);
    }
  }

  // ---------------------------------------------------------------------
  // Join
  // ---------------------------------------------------------------------

  /** The list a joining agent ends up with: the introducer's list, then the introducer. */
  function JoinList(net: Net, intro: string): seq<string>
    requires intro in net
  {
    net[intro].members + [intro]
  }

  /**
   * With an introducer that answers, the joining agent enters the network with its
   * initial counter and the list JoinList, and announces itself from there.
   */
  lemma JoinStart(net: Net, me: string, initCounterVal: int, intro: string)
    requires me !in net
    requires Answers(net, intro)
    ensures Join(net, me, initCounterVal, intro) ==
              Announce(net[me := AgentState(initCounterVal, JoinList(net, intro), true)], me)
  {
    var started := net[me := AgentState(initCounterVal, [], true)];
    assert started[intro] == net[intro];
    var list := JoinList(net, intro);
    assert started[me := started[me].(members := list)] == net[me := AgentState(initCounterVal, list, true)];
  }

  /**
   * An introducer that is missing or no longer answers makes the join fail at
   * once; the new agent still runs, alone.
   */
  lemma JoinIntroducerMissing(net: Net, me: string, initCounterVal: int, intro: string)
    requires me !in net
    requires !Answers(net, intro) && intro != me
    ensures Join(net, me, initCounterVal, intro) ==
              FanOut(net[me := AgentState(initCounterVal, [], true)], Aborted(NoReply(net, intro)), [])
  {
  }

  /**
   * A completed settle step leaves the agent with its list as it was and its
   * counter at the average taken over upd's network, after sending SYN to every
   * entry of its list in order.
   */
  lemma SettleOutcome(upd: FanOut, me: string)
    requires me in upd.net
    requires me !in upd.net[me].members
    ensures var r := Settle(upd, me);
      r.status.Completed? ==>
        Average(upd.net, me).Ok? &&
        r.net[me] == upd.net[me].(counter := Average(upd.net, me).value) &&
        r.calls == upd.calls + CallsTo(me, SYN, upd.net[me].members)
  {
    var avg := Average(upd.net, me);
    if avg.Ok? {
      var averaged := upd.net[me := upd.net[me].(counter := avg.value)];
      BroadcastCalls(averaged, me, SYN, averaged[me].members);
    }
  }

  /** After a completed settle step every entry of upd's network still has its list. */
  lemma SettleKeepsLists(upd: FanOut, me: string)
    requires me in upd.net
    ensures var r := Settle(upd, me);
      r.status.Completed? ==> forall a :: a in upd.net ==> a in r.net && r.net[a].members == upd.net[a].members
  {
    var avg := Average(upd.net, me);
    if avg.Ok? {
      var averaged := upd.net[me := upd.net[me].(counter := avg.value)];
      BroadcastSyn(averaged, me, averaged[me].members);
    }
  }

  /** The average of an agent whose counter and list are known, when every member answers. */
  lemma AverageOf(net: Net, agent: string, counter: int, list: seq<string>, sum: int)
    requires agent in net && net[agent].counter == counter && net[agent].members == list
    requires SumClocks(net, list) == Ok(sum)
    ensures Average(net, agent) == Ok(JavaDiv(counter + sum, |list| + 1))
  {
  }

  /** An announce step whose UPD requests all succeed goes on with Settle. */
  lemma AnnounceSettles(listed: Net, me: string)
    requires me in listed
    ensures var upd := Broadcast(listed, me, UPD, listed[me].members);
      upd.status.Completed? ==> Announce(listed, me) == Settle(upd, me)
  {
  }

  /**
   * A completed announce step by an agent entering net with counter and list
   * leaves its list as it was and its counter at the average of its own and its
   * members' counters as they are in net (the UPD requests move no counter),
   * after sending UPD and then SYN to every entry of its list in order.
   */
  lemma AnnounceOutcome(net: Net, me: string, counter: int, list: seq<string>)
    requires me !in net && me !in list
    ensures var r := Announce(net[me := AgentState(counter, list, true)], me);
      r.status.Completed? ==>
        SumClocks(net, list).Ok? &&
        r.net[me] == AgentState(JavaDiv(counter + SumClocks(net, list).value, |list| + 1), list, true) &&
        r.calls == CallsTo(me, UPD, list) + CallsTo(me, SYN, list)
  {
    var listed := net[me := AgentState(counter, list, true)];
    assert listed[me].members == list;
    AnnounceSettles(listed, me);
    UpdPhase(net, me, counter, list);
    var upd := Broadcast(listed, me, UPD, list);
    if upd.status.Completed? {
      var sum := SumClocks(net, list);
      SettleAfterUpd(upd, me, counter, list, sum);
      var r := Settle(upd, me);
      assert Announce(listed, me) == r;
      if r.status.Completed? {
        var avg := JavaDiv(counter + sum.value, |list| + 1);
        assert r.net[me] == AgentState(avg, list, true);
      }
    } else {
      assert Announce(listed, me) == upd;
    }
  }

  /**
   * The UPD requests of an agent entering net with counter and list leave its
   * own state and every counter it will sum as they were, and go out in order.
   */
  lemma UpdPhase(net: Net, me: string, counter: int, list: seq<string>)
    requires me !in net && me !in list
    ensures var upd := Broadcast(net[me := AgentState(counter, list, true)], me, UPD, list);
      upd.status.Completed? ==>
        me in upd.net && upd.net[me] == AgentState(counter, list, true) &&
        SumClocks(upd.net, list) == SumClocks(net, list) &&
        upd.calls == CallsTo(me, UPD, list)
  {
    var listed := net[me := AgentState(counter, list, true)];
    var upd := Broadcast(listed, me, UPD, list);
    BroadcastCalls(listed, me, UPD, list);
    BroadcastUpd(listed, me, list);
    assert forall p :: p in list ==> p != me;
    SumClocksAgree(upd.net, net, list);
  }

  /** Settle, once the UPD requests have left the agent's own state and the counters it sums as given. */
  lemma SettleAfterUpd(upd: FanOut, me: string, counter: int, list: seq<string>, sum: Result<int, Failure>)
    requires me in upd.net && upd.net[me] == AgentState(counter, list, true) && me !in list
    requires SumClocks(upd.net, list) == sum
    requires upd.calls == CallsTo(me, UPD, list)
    ensures var r := Settle(upd, me);
      r.status.Completed? ==>
        sum.Ok? &&
        r.net[me] == AgentState(JavaDiv(counter + sum.value, |list| + 1), list, true) &&
        r.calls == CallsTo(me, UPD, list) + CallsTo(me, SYN, list)
  {
    var avg := Average(upd.net, me);
    if sum.Ok? {
      AverageOf(upd.net, me, counter, list, sum.value);
      var averaged := upd.net[me := AgentState(avg.value, list, true)];
      assert averaged == upd.net[me := upd.net[me].(counter := avg.value)];
      var syn := Broadcast(averaged, me, SYN, list);
      assert Settle(upd, me) == FanOut(syn.net, syn.status, upd.calls + syn.calls);
      SynPhase(upd.net, me, avg.value, list);
      assert avg.value == JavaDiv(counter + sum.value, |list| + 1);
      assert syn.net[me] == AgentState(JavaDiv(counter + sum.value, |list| + 1), list, true);
    } else {
      assert avg.Err?;
    }
  }

  /** The SYN requests of an agent with counter and list leave its own state as it was, and go out in order. */
  lemma SynPhase(net: Net, me: string, counter: int, list: seq<string>)
    requires me !in list
    ensures var syn := Broadcast(net[me := AgentState(counter, list, true)], me, SYN, list);
      me in syn.net && syn.net[me] == AgentState(counter, list, true) &&
      (syn.status.Completed? ==> syn.calls == CallsTo(me, SYN, list))
  {
    BroadcastCalls(net[me := AgentState(counter, list, true)], me, SYN, list);
  }

  /** After a completed join every entry of the new agent's list lists the new agent. */
  lemma JoinAnnounces(net: Net, me: string, initCounterVal: int, intro: string)
    requires me !in net
    requires intro in net
    ensures var r := Join(net, me, initCounterVal, intro);
      r.status.Completed? ==> forall t :: t in JoinList(net, intro) ==> t in r.net && me in r.net[t].members
  {
    if Answers(net, intro) {
      var list := JoinList(net, intro);
      var listed := net[me := AgentState(initCounterVal, list, true)];
      JoinStart(net, me, initCounterVal, intro);
      var upd := Broadcast(listed, me, UPD, list);
      if upd.status.Completed? {
        assert Announce(listed, me) == Settle(upd, me);
        BroadcastUpd(listed, me, list);
        SettleKeepsLists(upd, me);
      }
    } else {
      JoinIntroducerMissing(net, me, initCounterVal, intro);
    }
  }

  /**
   * When every listed member answers, a join through an introducer that answers
   * completes, the new agent is not in its own list, and every listed member
   * still answers.
   */
  lemma JoinInClosedNetwork(net: Net, me: string, initCounterVal: int, intro: string)
    requires ClosedNet(net)
    requires me !in net
    requires Answers(net, intro)
    ensures me !in JoinList(net, intro)
    ensures Join(net, me, initCounterVal, intro).status == Completed
    ensures ClosedNet(Join(net, me, initCounterVal, intro).net)
  {
    var list := JoinList(net, intro);
    assert forall p :: p in list ==> Answers(net, p);
    var listed := net[me := AgentState(initCounterVal, list, true)];
    JoinStart(net, me, initCounterVal, intro);
    assert ClosedNet(listed) by {
      forall a, p | Answers(listed, a) && p in listed[a].members ensures Answers(listed, p) {
        if a != me {
          assert Answers(net, a) && p in net[a].members;
        }
        assert Answers(net, p) && p != me;
      }
    }
    AnnounceInClosedNet(listed, me);
  }

  /** In a closed network the announce step completes and keeps the network closed. */
  lemma AnnounceInClosedNet(listed: Net, me: string)
    requires ClosedNet(listed) && Answers(listed, me)
    ensures Announce(listed, me).status == Completed
    ensures ClosedNet(Announce(listed, me).net)
  {
    assert forall t :: t in listed[me].members ==> Answers(listed, t);
    BroadcastInClosedNet(listed, me, UPD, listed[me].members);
    AnnounceSettles(listed, me);
    var upd := Broadcast(listed, me, UPD, listed[me].members);
    assert Answers(upd.net, me);
    SettleInClosedNet(upd, me);
  }

  /** In a closed network the settle step completes and keeps the network closed. */
  lemma SettleInClosedNet(upd: FanOut, me: string)
    requires ClosedNet(upd.net) && me in upd.net
    requires forall t :: t in upd.net[me].members ==> Answers(upd.net, t)
    ensures Settle(upd, me).status == Completed
    ensures ClosedNet(Settle(upd, me).net)
  {
    AverageOk(upd.net, me);
    var avg := Average(upd.net, me);
    var averaged := upd.net[me := upd.net[me].(counter := avg.value)];
    assert ClosedNet(averaged) by {
      forall a, p | Answers(averaged, a) && p in averaged[a].members ensures Answers(averaged, p) {
        assert Answers(upd.net, a) && p in upd.net[a].members;
        assert Answers(upd.net, p);
      }
    }
    assert forall t :: t in averaged[me].members ==> Answers(averaged, t);
    BroadcastInClosedNet(averaged, me, SYN, averaged[me].members);
  }

  /**
   * The two-agent case: a first agent a at 0, and b joining through a with 100.
   * One might expect both to end at 50, but b averages (100 + 0) / 2 = 50 BEFORE
   * it sends SYN, so a then averages its 0 against b's 50 and ends at 25.
   */
  lemma TwoAgentJoin(a: string, b: string)
    requires a != b
    ensures var r := Join(map[a := AgentState(0, [], true)], b, 100, a);
      r.status == Completed &&
      r.net == map[a := AgentState(25, [b], true), b := AgentState(50, [a], true)] &&
      r.calls == [Call(b, UPD, a), Call(b, SYN, a)]
  {
    var n0 := map[a := AgentState(0, [], true)];
    assert JoinList(n0, a) == [a];
    var listed := map[a := AgentState(0, [], true), b := AgentState(100, [a], true)];
    assert n0[b := AgentState(100, [a], true)] == listed;
    JoinStart(n0, b, 100, a);
    var updated := map[a := AgentState(0, [b], true), b := AgentState(100, [a], true)];
    TwoAgentAnnounce(a, b);
    var upd := FanOut(updated, Completed, [Call(b, UPD, a)]);
    assert Announce(listed, b) == Settle(upd, b);
    TwoAgentSettle(a, b);
  }

  /** b's UPD to a: a lists b. */
  lemma TwoAgentAnnounce(a: string, b: string)
    requires a != b
    ensures Broadcast(map[a := AgentState(0, [], true), b := AgentState(100, [a], true)], b, UPD, [a]) ==
            FanOut(map[a := AgentState(0, [b], true), b := AgentState(100, [a], true)], Completed, [Call(b, UPD, a)])
  {
    var listed := map[a := AgentState(0, [], true), b := AgentState(100, [a], true)];
    var updated := map[a := AgentState(0, [b], true), b := AgentState(100, [a], true)];
    assert [] + [b] == [b];
    assert listed[a := listed[a].(members := [b])] == updated;
    assert [a][1..] == [];
    assert Dispatch(listed, a, UPD, b) == Answered(Text(ACK), updated);
    assert Broadcast(updated, b, UPD, []) == FanOut(updated, Completed, []);
  }

  /** b averages to 50, then its SYN makes a average to 25. */
  lemma TwoAgentSettle(a: string, b: string)
    requires a != b
    ensures Settle(FanOut(map[a := AgentState(0, [b], true), b := AgentState(100, [a], true)], Completed,
                          [Call(b, UPD, a)]), b) ==
            FanOut(map[a := AgentState(25, [b], true), b := AgentState(50, [a], true)], Completed,
                   [Call(b, UPD, a), Call(b, SYN, a)])
  {
    var updated := map[a := AgentState(0, [b], true), b := AgentState(100, [a], true)];
    assert [a][..0] == [];
    assert SumClocks(updated, [a]) == Ok(0);
    assert Average(updated, b) == Ok(50);
    var averaged := map[a := AgentState(0, [b], true), b := AgentState(50, [a], true)];
    assert updated[b := updated[b].(counter := 50)] == averaged;
    TwoAgentSync(a, b);
  }

  /** b's SYN to a: a averages its 0 against b's 50. */
  lemma TwoAgentSync(a: string, b: string)
    requires a != b
    ensures Broadcast(map[a := AgentState(0, [b], true), b := AgentState(50, [a], true)], b, SYN, [a]) ==
            FanOut(map[a := AgentState(25, [b], true), b := AgentState(50, [a], true)], Completed, [Call(b, SYN, a)])
  {
    var averaged := map[a := AgentState(0, [b], true), b := AgentState(50, [a], true)];
    assert [b][..0] == [];
    assert SumClocks(averaged, [b]) == Ok(50);
    assert Average(averaged, a) == Ok(25);
    var synced := map[a := AgentState(25, [b], true), b := AgentState(50, [a], true)];
    assert averaged[a := averaged[a].(counter := 25)] == synced;
    assert [a][1..] == [];
    assert Dispatch(averaged, a, SYN, b) == Answered(Text(ACK), synced);
    assert Broadcast(synced, b, SYN, []) == FanOut(synced, Completed, []);
  }

  // ---------------------------------------------------------------------
  // Leave
  // ---------------------------------------------------------------------

  /**
   * Leaving clears the run flag exactly when every request succeeded; it never
   * edits the leaver's own list; and a completed leave sent DEL to every member
   * in order and then SYN to every member in the same order.
   */
  lemma LeaveOutcome(net: Net, me: string)
    requires me in net
    ensures var r := Leave(net, me);
      var list := net[me].members;
      r.net[me].running == (if r.status.Completed? then false else net[me].running) &&
      (me !in list ==> r.net[me].members == list) &&
      (me !in list && r.status.Completed? ==> r.calls == CallsTo(me, DEL, list) + CallsTo(me, SYN, list))
  {
    var list := net[me].members;
    var del := Broadcast(net, me, DEL, list);
    BroadcastCalls(net, me, DEL, list);
    if del.status.Completed? {
      var syn := Broadcast(del.net, me, SYN, del.net[me].members);
      BroadcastCalls(del.net, me, SYN, del.net[me].members);
    }
  }

  /**
   * The first member that does not answer aborts the leave: no later request
   * is sent and the agent keeps running.
   */
  lemma LeaveAbortsAtFirstUnreachable(net: Net, me: string, k: nat)
    requires me in net
    requires k < |net[me].members| && !Answers(net, net[me].members[k])
    requires forall j :: 0 <= j < k ==> Answers(net, net[me].members[j])
    ensures var r := Leave(net, me);
      var list := net[me].members;
      r.status == Aborted(NoReply(net, list[k])) &&
      r.calls == CallsTo(me, DEL, list[..k + 1]) &&
      r.net[me].running == net[me].running
  {
    BroadcastStopsAtFirstUnreachable(net, me, DEL, net[me].members, k);
  }

  /**
   * When every listed member of a running agent answers, and so does every
   * member of the leaver's list, a leave completes, no member of the leaver's
   * list lists the leaver any more, and the leaver has stopped.
   */
  lemma LeaveInClosedNetwork(net: Net, me: string)
    requires ClosedNet(net)
    requires me in net
    requires me !in net[me].members
    requires forall t :: t in net[me].members ==> Answers(net, t)
    ensures var r := Leave(net, me);
      r.status == Completed &&
      (forall t :: t in net[me].members ==> t in r.net && me !in r.net[t].members) &&
      !r.net[me].running
  {
    var list := net[me].members;
    LeaveDelStep(net, me);
    var del := Broadcast(net, me, DEL, list);
    LeaveSynStep(del.net, me, list);
    var syn := Broadcast(del.net, me, SYN, list);
    assert Leave(net, me) == FanOut(syn.net[me := syn.net[me].(running := false)], Completed, del.calls + syn.calls);
  }

  /**
   * If moreover every running agent that lists the leaver is in the leaver's
   * list, then after the leave no running agent lists the leaver, and every
   * member listed by a running agent still answers.
   */
  lemma LeaveKeepsClosed(net: Net, me: string)
    requires ClosedNet(net)
    requires me in net
    requires me !in net[me].members
    requires forall t :: t in net[me].members ==> Answers(net, t)
    requires forall a :: Answers(net, a) && me in net[a].members ==> a in net[me].members
    ensures var r := Leave(net, me);
      (forall a :: Answers(r.net, a) ==> me !in r.net[a].members) &&
      ClosedNet(r.net)
  {
    var list := net[me].members;
    LeaveDelStep(net, me);
    var del := Broadcast(net, me, DEL, list);
    LeaveSynStep(del.net, me, list);
    var syn := Broadcast(del.net, me, SYN, list);
    var r := Leave(net, me);
    assert r.net == syn.net[me := syn.net[me].(running := false)];
    assert forall a :: Answers(r.net, a) ==> me !in syn.net[a].members by {
      forall a | Answers(r.net, a) ensures me !in syn.net[a].members {
        assert a != me && Answers(net, a);
        assert syn.net[a].members == del.net[a].members;
        if a !in list {
          assert del.net[a] == net[a];
        }
      }
    }
    assert ClosedNet(r.net) by {
      forall a, p | Answers(r.net, a) && p in r.net[a].members ensures Answers(r.net, p) {
        assert Answers(syn.net, a) && p in syn.net[a].members;
        assert Answers(syn.net, p) && p != me;
      }
    }
  }

  /**
   * The DEL loop of a leave in a closed network completes, leaves the leaver
   * as it was, removes the leaver from every target's list, and keeps the
   * network closed.
   */
  lemma LeaveDelStep(net: Net, me: string)
    requires ClosedNet(net)
    requires me in net
    requires me !in net[me].members
    requires forall t :: t in net[me].members ==> Answers(net, t)
    ensures var list := net[me].members;
      var del := Broadcast(net, me, DEL, list);
      del.status == Completed && del.net[me] == net[me] && ClosedNet(del.net) &&
      (forall t :: t in list ==> Answers(del.net, t) && me !in del.net[t].members)
  {
    var list := net[me].members;
    BroadcastInClosedNet(net, me, DEL, list);
    BroadcastDel(net, me, list);
  }

  /** The SYN loop of a leave in a closed network completes, changes no list and keeps the network closed. */
  lemma LeaveSynStep(net: Net, me: string, list: seq<string>)
    requires ClosedNet(net)
    requires forall t :: t in list ==> Answers(net, t)
    ensures var syn := Broadcast(net, me, SYN, list);
      syn.status == Completed && ClosedNet(syn.net) &&
      (forall a :: a in net ==> syn.net[a].members == net[a].members)
  {
    BroadcastInClosedNet(net, me, SYN, list);
    BroadcastSyn(net, me, list);
  }

  // ---------------------------------------------------------------------
  // Symmetric networks: any sequence of joins and leaves
  // ---------------------------------------------------------------------

  /** A symmetric network is closed, and no running agent lists itself. */
  lemma SymmetricIsClosed(net: Net)
    requires Symmetric(net)
    ensures ClosedNet(net)
    ensures forall a :: Answers(net, a) ==> a !in net[a].members
  {
  }

  /** A running agent of a symmetric network lists only agents of the network. */
  lemma SymmetricListsMembers(net: Net, a: string, x: string)
    requires Symmetric(net) && Answers(net, a)
    requires x !in net
    ensures x !in net[a].members
  {
    assert x in net[a].members ==> Answers(net, x);
  }

  /**
   * A join through a running introducer into a symmetric network completes
   * and leaves the network symmetric: the joiner lists its introducer and the
   * introducer's list, and each of them lists the joiner.
   */
  lemma JoinKeepsSymmetric(net: Net, me: string, initCounterVal: int, intro: string)
    requires Symmetric(net)
    requires me !in net
    requires Answers(net, intro)
    ensures var r := Join(net, me, initCounterVal, intro);
      r.status == Completed && Symmetric(r.net)
  {
    var list := JoinList(net, intro);
    var listed := net[me := AgentState(initCounterVal, list, true)];
    forall a | a in net ensures a != me && listed[a] == net[a] { }
    SymmetricIsClosed(net);
    JoinInClosedNetwork(net, me, initCounterVal, intro);
    JoinStart(net, me, initCounterVal, intro);
    AnnounceLists(listed, me);
    assert forall t :: t in list ==> Answers(net, t);
    SymmetricAfterJoin(net, Announce(listed, me).net, me, list);
  }

  /**
   * How a completed announce step changes the lists: the joiner's own list
   * stays, every entry of it gains the joiner, and no other list changes.
   */
  lemma AnnounceLists(listed: Net, me: string)
    requires me in listed && me !in listed[me].members
    ensures var list := listed[me].members;
      var r := Announce(listed, me).net;
      Announce(listed, me).status == Completed ==>
      r.Keys == listed.Keys && r[me].members == list &&
      (forall a, x :: a in listed && x in listed[a].members ==> x in r[a].members) &&
      (forall a, x :: a in listed && x in r[a].members ==> x in listed[a].members || (x == me && a in list)) &&
      (forall t :: t in list ==> t in r && me in r[t].members)
  {
    var list := listed[me].members;
    var upd := Broadcast(listed, me, UPD, list);
    BroadcastUpd(listed, me, list);
    if upd.status.Completed? {
      AnnounceSettles(listed, me);
      SettleKeepsLists(upd, me);
      assert upd.net[me] == listed[me];
      forall a, x | a in listed && x in upd.net[a].members
        ensures x in listed[a].members || (x == me && a in list)
      {
        if a !in list {
          assert upd.net[a] == listed[a];
        }
      }
    }
  }

  /** The lists a completed join leaves behind are symmetric. */
  lemma SymmetricAfterJoin(net: Net, r: Net, me: string, list: seq<string>)
    requires Symmetric(net)
    requires me !in net
    requires forall t :: t in list ==> Answers(net, t)
    requires r.Keys == net.Keys + {me}
    requires forall a :: a in net ==> r[a].running == net[a].running
    requires r[me].running && r[me].members == list
    requires forall a, x :: a in net && x in net[a].members ==> x in r[a].members
    requires forall a, x :: a in net && x in r[a].members ==> x in net[a].members || (x == me && a in list)
    requires forall t :: t in list ==> me in r[t].members
    ensures Symmetric(r)
  {
    forall a, p | Answers(r, a) && p in r[a].members
      ensures p != a && Answers(r, p) && a in r[p].members
    {
      if a == me {
        assert p in list && Answers(net, p) && p != me;
        assert r[p].running == net[p].running;
      } else if p == me {
        assert Answers(net, a);
        SymmetricListsMembers(net, a, me);
        assert a in list;
      } else {
        assert Answers(net, a) && p in net[a].members;
        assert Answers(net, p) && a in net[p].members;
        assert r[p].running == net[p].running;
      }
    }
  }

  /**
   * A running agent leaving a symmetric network completes its leave, and the
   * network stays symmetric: the stopped leaver's list no longer counts, and
   * no running agent lists the leaver.
   */
  lemma LeaveKeepsSymmetric(net: Net, me: string)
    requires Symmetric(net)
    requires Answers(net, me)
    ensures var r := Leave(net, me);
      r.status == Completed && !r.net[me].running && Symmetric(r.net)
  {
    SymmetricIsClosed(net);
    assert forall t :: t in net[me].members ==> Answers(net, t);
    assert forall a :: Answers(net, a) && me in net[a].members ==> a in net[me].members;
    LeaveInClosedNetwork(net, me);
    LeaveKeepsClosed(net, me);
    LeaveLists(net, me);
    SymmetricAfterLeave(net, Leave(net, me).net, me);
  }

  /** A completed leave in a closed network removes the leaver from lists and nothing else. */
  lemma LeaveLists(net: Net, me: string)
    requires ClosedNet(net)
    requires me in net
    requires me !in net[me].members
    requires forall t :: t in net[me].members ==> Answers(net, t)
    ensures var r := Leave(net, me).net;
      (forall a, x :: a in net && x in r[a].members ==> x in net[a].members) &&
      (forall a, x :: a in net && x in net[a].members && x != me ==> x in r[a].members)
  {
    var list := net[me].members;
    LeaveDelStep(net, me);
    BroadcastDel(net, me, list);
    var del := Broadcast(net, me, DEL, list);
    LeaveSynStep(del.net, me, list);
    var syn := Broadcast(del.net, me, SYN, list);
    assert Leave(net, me).net == syn.net[me := syn.net[me].(running := false)];
  }

  /** The lists a completed leave leaves behind are symmetric. */
  lemma SymmetricAfterLeave(net: Net, r: Net, me: string)
    requires Symmetric(net)
    requires me in net && r.Keys == net.Keys && !r[me].running
    requires forall a :: a in net && a != me ==> r[a].running == net[a].running
    requires forall a :: Answers(r, a) ==> me !in r[a].members
    requires forall a, x :: a in net && x in r[a].members ==> x in net[a].members
    requires forall a, x :: a in net && x in net[a].members && x != me ==> x in r[a].members
    ensures Symmetric(r)
  {
    forall a, p | Answers(r, a) && p in r[a].members
      ensures p != a && Answers(r, p) && a in r[p].members
    {
      assert a != me && Answers(net, a) && p in net[a].members;
      assert p != me && Answers(net, p) && a in net[p].members;
      assert r[p].running == net[p].running;
    }
  }

  /**
   * Two running agents leaving a symmetric network one after the other both
   * complete, and every member a running agent lists still answers.
   */
  lemma TwoLeavesKeepClosed(net: Net, a: string, b: string)
    requires Symmetric(net)
    requires Answers(net, a) && Answers(net, b) && a != b
    ensures var first := Leave(net, a);
      var second := Leave(first.net, b);
      first.status == Completed && second.status == Completed && ClosedNet(second.net)
  {
    LeaveKeepsSymmetric(net, a);
    var first := Leave(net, a);
    assert Answers(first.net, b);
    LeaveKeepsSymmetric(first.net, b);
    SymmetricIsClosed(Leave(first.net, b).net);
  }

  // ---------------------------------------------------------------------
  // No list names an agent twice
  // ---------------------------------------------------------------------

  /** Appending an entry not yet listed keeps a list free of duplicates. */
  lemma NoDuplicatesAppend(s: seq<string>, x: string)
    requires NoDuplicates(s) && x !in s
    ensures NoDuplicates(s + [x])
  {
    forall i, j | 0 <= i < j < |s + [x]| ensures (s + [x])[i] != (s + [x])[j] {
      if j == |s| {
        assert s[i] in s;
      }
    }
  }

  /** Removing every copy of an entry keeps a list free of duplicates. */
  lemma {:induction false} RemoveAllNoDuplicates(s: seq<string>, x: string)
    requires NoDuplicates(s)
    ensures NoDuplicates(RemoveAll(s, x))
    decreases |s|
  {
    if s != [] {
      var tail := s[1..];
      assert NoDuplicates(tail) by {
        forall i, j | 0 <= i < j < |tail| ensures tail[i] != tail[j] {
          assert tail[i] == s[i + 1] && tail[j] == s[j + 1];
        }
      }
      RemoveAllNoDuplicates(tail, x);
      RemoveAllKeepsOthers(tail, x);
      if s[0] != x {
        assert s[0] !in tail by {
          forall j | 0 <= j < |tail| ensures tail[j] != s[0] {
            assert tail[j] == s[j + 1];
          }
        }
        assert RemoveAll(s, x) == [s[0]] + RemoveAll(tail, x);
        assert s[0] !in RemoveAll(tail, x);
        var r := RemoveAll(s, x);
        forall i, j | 0 <= i < j < |r| ensures r[i] != r[j] {
          if i == 0 {
            assert r[j] == RemoveAll(tail, x)[j - 1];
          } else {
            assert r[i] == RemoveAll(tail, x)[i - 1] && r[j] == RemoveAll(tail, x)[j - 1];
          }
        }
      }
    }
  }

  /** A DEL loop keeps every list that had no duplicates free of them. */
  lemma {:induction false} BroadcastDelNoDuplicates(net: Net, me: string, targets: seq<string>)
    ensures var r := Broadcast(net, me, DEL, targets);
      forall a :: a in net && NoDuplicates(net[a].members) ==> NoDuplicates(r.net[a].members)
    decreases |targets|
  {
    if targets != [] && Answers(net, targets[0]) {
      var t0 := targets[0];
      var next := Dispatch(net, t0, DEL, me).net;
      assert next[t0].members == RemoveAll(net[t0].members, me);
      if NoDuplicates(net[t0].members) {
        RemoveAllNoDuplicates(net[t0].members, me);
      }
      BroadcastDelNoDuplicates(next, me, targets[1..]);
    }
  }

  /**
   * A leave, completed or not, never makes a running agent list an agent
   * twice: DEL only removes, SYN changes no list and the stop changes none.
   */
  lemma LeaveKeepsDuplicateFree(net: Net, me: string)
    requires me in net
    requires DuplicateFree(net)
    ensures DuplicateFree(Leave(net, me).net)
  {
    LeaveDelKeepsDuplicateFree(net, me);
    LeaveAfterDel(net, me);
    SameListsKeepDuplicateFree(Broadcast(net, me, DEL, net[me].members).net, Leave(net, me).net);
  }

  /**
   * After its DEL loop, a leave, completed or not, changes no list and starts
   * no agent.
   */
  lemma LeaveAfterDel(net: Net, me: string)
    requires me in net
    ensures var del := Broadcast(net, me, DEL, net[me].members).net;
      var r := Leave(net, me).net;
      r.Keys == del.Keys &&
      (forall a :: a in del ==> r[a].members == del[a].members) &&
      (forall a :: a in del && r[a].running ==> del[a].running)
  {
    var del := Broadcast(net, me, DEL, net[me].members);
    if del.status.Completed? {
      var syn := Broadcast(del.net, me, SYN, del.net[me].members);
      BroadcastSyn(del.net, me, del.net[me].members);
      if syn.status.Aborted? {
        assert Leave(net, me).net == syn.net;
      } else {
        assert Leave(net, me).net == syn.net[me := syn.net[me].(running := false)];
      }
    } else {
      assert Leave(net, me) == del;
    }
  }

  /** The DEL loop of a leave keeps the network free of duplicates. */
  lemma LeaveDelKeepsDuplicateFree(net: Net, me: string)
    requires me in net
    requires DuplicateFree(net)
    ensures DuplicateFree(Broadcast(net, me, DEL, net[me].members).net)
  {
    var del := Broadcast(net, me, DEL, net[me].members);
    BroadcastDelNoDuplicates(net, me, net[me].members);
    forall a | Answers(del.net, a) ensures NoDuplicates(del.net[a].members) {
      assert Answers(net, a);
    }
  }

  /** Keeping every list and starting no agent keeps a network free of duplicates. */
  lemma SameListsKeepDuplicateFree(before: Net, after: Net)
    requires DuplicateFree(before)
    requires after.Keys == before.Keys
    requires forall a :: a in before ==> after[a].members == before[a].members
    requires forall a :: a in before && after[a].running ==> before[a].running
    ensures DuplicateFree(after)
  {
    forall a | Answers(after, a) ensures NoDuplicates(after[a].members) {
      assert Answers(before, a);
    }
  }

  /**
   * A UPD loop over a list without duplicates that completes appends the
   * sender exactly once to every target and changes no other list.
   */
  lemma {:induction false} BroadcastUpdOnce(net: Net, me: string, targets: seq<string>)
    requires NoDuplicates(targets)
    ensures var r := Broadcast(net, me, UPD, targets);
      r.status.Completed? ==>
        forall a :: a in net ==> r.net[a].members == (if a in targets then net[a].members + [me] else net[a].members)
    decreases |targets|
  {
    if targets != [] && Answers(net, targets[0]) {
      var t0 := targets[0];
      var tail := targets[1..];
      var next := Dispatch(net, t0, UPD, me).net;
      assert next[t0].members == net[t0].members + [me];
      assert NoDuplicates(tail) by {
        forall i, j | 0 <= i < j < |tail| ensures tail[i] != tail[j] {
          assert tail[i] == targets[i + 1] && tail[j] == targets[j + 1];
        }
      }
      assert t0 !in tail by {
        forall j | 0 <= j < |tail| ensures tail[j] != t0 {
          assert tail[j] == targets[j + 1];
        }
      }
      BroadcastUpdOnce(next, me, tail);
      assert forall a :: a in targets <==> a == t0 || a in tail;
    }
  }

  /**
   * A completed announce over a list without duplicates, by a joiner not in
   * it, appends the joiner exactly once to every entry and changes no other list.
   */
  lemma AnnounceListsOnce(listed: Net, me: string)
    requires me in listed && me !in listed[me].members
    requires NoDuplicates(listed[me].members)
    ensures var list := listed[me].members;
      var r := Announce(listed, me);
      r.status == Completed ==>
        r.net.Keys == listed.Keys &&
        forall a :: a in listed ==> r.net[a].members == (if a in list then listed[a].members + [me] else listed[a].members)
  {
    var list := listed[me].members;
    var upd := Broadcast(listed, me, UPD, list);
    BroadcastUpdOnce(listed, me, list);
    if upd.status.Completed? {
      AnnounceSettles(listed, me);
      SettleKeepsLists(upd, me);
    }
  }

  /** The lists a join leaves behind have no duplicates. */
  lemma DuplicateFreeAfterJoin(net: Net, r: Net, me: string, list: seq<string>)
    requires DuplicateFree(net)
    requires me !in net && NoDuplicates(list)
    requires r.Keys == net.Keys + {me}
    requires forall a :: a in net ==> r[a].running == net[a].running
    requires r[me].members == list
    requires forall a :: a in net ==> r[a].members == (if a in list then net[a].members + [me] else net[a].members)
    requires forall a :: Answers(net, a) ==> me !in net[a].members
    ensures DuplicateFree(r)
  {
    forall a | Answers(r, a) ensures NoDuplicates(r[a].members) {
      if a != me {
        assert Answers(net, a);
        if a in list {
          NoDuplicatesAppend(net[a].members, me);
        }
      }
    }
  }

  /**
   * A join through a running introducer into a symmetric network without
   * duplicate entries leaves no duplicate entries: the joiner's list is the
   * introducer's list and the introducer, each once, and every entry of it
   * gains the joiner exactly once.
   */
  lemma JoinKeepsDuplicateFree(net: Net, me: string, initCounterVal: int, intro: string)
    requires Symmetric(net) && DuplicateFree(net)
    requires me !in net
    requires Answers(net, intro)
    ensures DuplicateFree(Join(net, me, initCounterVal, intro).net)
  {
    var list := JoinList(net, intro);
    var listed := net[me := AgentState(initCounterVal, list, true)];
    forall a | a in net ensures a != me && listed[a] == net[a] { }
    assert intro !in net[intro].members;
    NoDuplicatesAppend(net[intro].members, intro);
    forall a | Answers(net, a) ensures me !in net[a].members {
      SymmetricListsMembers(net, a, me);
    }
    assert me !in list;
    JoinKeepsSymmetric(net, me, initCounterVal, intro);
    JoinStart(net, me, initCounterVal, intro);
    AnnounceListsOnce(listed, me);
    var r := Announce(listed, me);
    assert r.status == Completed && r.net.Keys == net.Keys + {me};
    assert forall a :: a in net ==> r.net[a].running == listed[a].running;
    assert r.net[me].members == list;
    assert forall a :: a in net ==>
      r.net[a].members == (if a in list then net[a].members + [me] else net[a].members);
    DuplicateFreeAfterJoin(net, r.net, me, list);
  }
}
