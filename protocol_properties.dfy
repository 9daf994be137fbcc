/** What the protocol of the network of counters guarantees, and what it does not. */
module ProtocolProperties {
  import opened Wrappers
  import opened MessageUtils
  import opened Protocol

  // ---------------------------------------------------------------------
  // removeIf
  // ---------------------------------------------------------------------

  /** After the removal, x is absent. */
  lemma {:induction false} RemoveAllRemoves(s: seq<string>, x: string)
    ensures x !in RemoveAll(s, x)
    decreases |s|
  {
    if s != [] { RemoveAllRemoves(s[1..], x); }
  }

  /** Removing an absent entry changes nothing. */
  lemma {:induction false} RemoveAllAbsent(s: seq<string>, x: string)
    requires x !in s
    ensures RemoveAll(s, x) == s
    decreases |s|
  {
    if s != [] {
      assert s[0] != x;
      RemoveAllAbsent(s[1..], x);
      assert s == [s[0]] + s[1..];
    }
  }

  /** Every other entry keeps its number of copies, and nothing new appears. */
  lemma {:induction false} RemoveAllKeepsOthers(s: seq<string>, x: string)
    ensures forall y :: y != x ==> multiset(RemoveAll(s, x))[y] == multiset(s)[y]
    ensures forall y :: y in RemoveAll(s, x) ==> y in s
    decreases |s|
  {
    if s != [] {
      RemoveAllKeepsOthers(s[1..], x);
      assert s == [s[0]] + s[1..];
      assert multiset(s) == multiset([s[0]]) + multiset(s[1..]);
      var head := if s[0] == x then [] else [s[0]];
      assert multiset(RemoveAll(s, x)) == multiset(head) + multiset(RemoveAll(s[1..], x));
    }
  }

  /** The removal distributes over concatenation: the survivors keep their relative order. */
  lemma {:induction false} RemoveAllAppend(a: seq<string>, b: seq<string>, x: string)
    ensures RemoveAll(a + b, x) == RemoveAll(a, x) + RemoveAll(b, x)
    decreases |a|
  {
    if a != [] {
      assert (a + b)[1..] == a[1..] + b;
      RemoveAllAppend(a[1..], b, x);
    } else {
      assert a + b == b;
    }
  }

  // ---------------------------------------------------------------------
  // Identities
  // ---------------------------------------------------------------------

  /** Agents on different ports have different toString identities, so the network can be keyed by them. */
  lemma IdentityInjective(port1: int, port2: int)
    requires Identity(port1) == Identity(port2)
    ensures port1 == port2
  {
    var prefix := IP_ADDRESS + ":";
    assert Identity(port1) == prefix + IntToDecimal(port1);
    assert Identity(port2) == prefix + IntToDecimal(port2);
    assert IntToDecimal(port1) == Identity(port1)[|prefix|..];
    assert IntToDecimal(port2) == Identity(port2)[|prefix|..];
    IntToDecimalInjective(port1, port2);
  }

  // ---------------------------------------------------------------------
  // From the wire to the dispatch table
  // ---------------------------------------------------------------------

  /**
   * A request built by getSegment with any three-letter flag without a dash
   * (the five request flags among them) reaches the switch
   * of answerToClient with that flag and with the sender's toString as the
   * client identity: delivering it is serving the segment.
   */
  lemma DeliverIsServe(net: Net, port: int, flag: string, target: string)
    requires |flag| == 3 && '-' !in flag
    requires Answers(net, target)
    ensures Serve(net, target, GetSegment(flag, IP_ADDRESS, port)) == Deliver(net, Identity(port), flag, target)
  {
    NoDashNoSeparator(flag);
    NoDashNoSeparator(IP_ADDRESS);
    IdentityRoundTrip(flag, IP_ADDRESS, port);
    FlagRoundTrip(flag, IP_ADDRESS, port);
  }

  /** A segment whose identity cannot be decoded is answered by an exception and changes nothing. */
  lemma ServeMalformed(net: Net, agent: string, segment: string)
    requires agent in net
    requires GetIPAndPortFromSegment(segment).Err?
    ensures Serve(net, agent, segment) == Failed(Malformed(ArrayIndexOutOfBounds))
  {
    IPAndPortSpec(segment);
  }

  /** NET and CLK only read; any unknown flag is answered with "INCORRECT FLAG" and changes nothing. */
  lemma DispatchReadOnly(net: Net, agent: string, flag: string, client: string)
    requires agent in net
    ensures flag == NET ==> Dispatch(net, agent, flag, client) == Answered(MemberList(net[agent].members), net)
    ensures flag == CLK ==> Dispatch(net, agent, flag, client) == Answered(CounterValue(net[agent].counter), net)
    ensures flag !in {NET, CLK, SYN, UPD, DEL} ==>
              Dispatch(net, agent, flag, client) == Answered(Text(INCORRECT_FLAG), net)
  {
  }

  /** SYN overwrites the receiver's counter with its own average, replies ACK and keeps its list. */
  lemma DispatchSyn(net: Net, agent: string, client: string)
    requires agent in net
    ensures var o := Dispatch(net, agent, SYN, client);
      match Average(net, agent)
      case Err(e) => o == Failed(e)
      case Ok(avg) =>
        o.Answered? && o.reply == Text(ACK) && o.net.Keys == net.Keys &&
        o.net[agent] == AgentState(avg, net[agent].members, net[agent].running) &&
        forall a :: a in net && a != agent ==> o.net[a] == net[a]
  {
  }

  /**
   * UPD appends the sender at the end: the list grows by exactly one, the earlier
   * entries and the counter stay, and a sender already listed is listed twice.
   */
  lemma DispatchUpd(net: Net, agent: string, client: string)
    requires agent in net
    ensures var o := Dispatch(net, agent, UPD, client);
      o.Answered? && o.reply == Text(ACK) &&
      |o.net[agent].members| == |net[agent].members| + 1 &&
      o.net[agent].members[..|net[agent].members|] == net[agent].members &&
      o.net[agent].members[|net[agent].members|] == client &&
      multiset(o.net[agent].members)[client] == multiset(net[agent].members)[client] + 1 &&
      o.net[agent].counter == net[agent].counter
  {
    var o := Dispatch(net, agent, UPD, client);
    assert o.net[agent].members == net[agent].members + [client];
    assert o.net[agent].members[..|net[agent].members|] == net[agent].members;
  }

  /**
   * DEL removes every copy of the sender and no other entry; deleting an absent
   * sender changes nothing; the counter stays.
   */
  lemma DispatchDel(net: Net, agent: string, client: string)
    requires agent in net
    ensures var o := Dispatch(net, agent, DEL, client);
      o.Answered? && o.reply == Text(ACK) &&
      client !in o.net[agent].members &&
      (forall y :: y != client ==> multiset(o.net[agent].members)[y] == multiset(net[agent].members)[y]) &&
      (client !in net[agent].members ==> o.net == net) &&
      o.net[agent].counter == net[agent].counter
  {
    var s := net[agent].members;
    RemoveAllRemoves(s, client);
    RemoveAllKeepsOthers(s, client);
    if client !in s {
      RemoveAllAbsent(s, client);
      assert net[agent := net[agent].(members := s)] == net;
    }
  }

  // ---------------------------------------------------------------------
  // The average
  // ---------------------------------------------------------------------

  /** Bounds on the sum of counters: each lies in [lo, hi]. */
  lemma {:induction false} SumClocksBounds(net: Net, peers: seq<string>, lo: int, hi: int)
    requires forall p :: p in peers ==> Answers(net, p) && lo <= net[p].counter <= hi
    ensures SumClocks(net, peers).Ok?
    ensures lo * |peers| <= SumClocks(net, peers).value <= hi * |peers|
    decreases |peers|
  {
    if peers != [] {
      var init := peers[..|peers| - 1];
      var last := peers[|peers| - 1];
      assert forall p :: p in init ==> p in peers;
      SumClocksBounds(net, init, lo, hi);
      assert last in peers;
      var v := SumClocks(net, init).value;
      assert SumClocks(net, peers) == Ok(v + net[last].counter);
      MulSucc(lo, |init|);
      MulSucc(hi, |init|);
    }
  }

  /** One more factor adds one more copy. */
  lemma MulSucc(x: int, n: nat)
    ensures x * (n + 1) == x * n + x
  {
  }

  /** Multiplication by a positive factor can be cancelled. */
  lemma MulCancel(a: int, b: int, n: int)
    requires n > 0
    ensures a * n <= b * n ==> a <= b
    ensures a * n < b * n ==> a < b
  {
    assert (b - a) * n == b * n - a * n;
  }

  /** Truncating division rounds toward zero: down for a non-negative total, up for a negative one. */
  lemma JavaDivTruncates(a: int, b: int)
    requires b > 0
    ensures 0 <= a ==> 0 <= JavaDiv(a, b) && JavaDiv(a, b) * b <= a < JavaDiv(a, b) * b + b
    ensures a < 0 ==> JavaDiv(a, b) <= 0 && a <= JavaDiv(a, b) * b < a + b
  {
    if a >= 0 {
      EuclidNat(a, b);
    } else {
      EuclidNat(-a, b);
      var p := (-a) / b;
      assert JavaDiv(a, b) == -p;
      assert (-p) * b == -(p * b);
    }
  }

  /** Euclidean division of a natural number by a positive one. */
  lemma EuclidNat(m: nat, b: int)
    requires b > 0
    ensures 0 <= m / b && m / b * b <= m < m / b * b + b
  {
    var q, r := m / b, m % b;
    assert m == q * b + r && 0 <= r < b;
  }

  /** Truncating division of a total within [lo * n, hi * n] lies within [lo, hi]. */
  lemma JavaDivBounds(total: int, n: int, lo: int, hi: int)
    requires n > 0
    requires lo * n <= total <= hi * n
    ensures lo <= JavaDiv(total, n) <= hi
  {
    var q := JavaDiv(total, n);
    JavaDivTruncates(total, n);
    if total >= 0 {
      assert lo * n < (q + 1) * n;
      MulCancel(lo, q + 1, n);
      MulCancel(q, hi, n);
    } else {
      MulCancel(lo, q, n);
      assert q * n < (hi + 1) * n;
      MulCancel(q, hi + 1, n);
    }
  }

  /**
   * The average lies between the smallest and the largest of the counters it
   * averages; in particular agents whose counters are all equal keep that value.
   */
  lemma AverageWithinBounds(net: Net, agent: string, lo: int, hi: int)
    requires agent in net
    requires lo <= net[agent].counter <= hi
    requires forall p :: p in net[agent].members ==> Answers(net, p) && lo <= net[p].counter <= hi
    ensures Average(net, agent).Ok?
    ensures lo <= Average(net, agent).value <= hi
  {
    var st := net[agent];
    SumClocksBounds(net, st.members, lo, hi);
    MeanBounds(st.counter, SumClocks(net, st.members).value, |st.members|, lo, hi);
  }

  /** Own counter plus m further counters, all within [lo, hi], average to a value within [lo, hi]. */
  lemma MeanBounds(own: int, sum: int, m: nat, lo: int, hi: int)
    requires lo <= own <= hi
    requires lo * m <= sum <= hi * m
    ensures lo <= JavaDiv(own + sum, m + 1) <= hi
  {
    assert lo * (m + 1) == lo * m + lo;
    assert hi * (m + 1) == hi * m + hi;
    JavaDivBounds(own + sum, m + 1, lo, hi);
  }

  /** The loop of CLK requests succeeds exactly when every peer answers. */
  lemma {:induction false} SumClocksOk(net: Net, peers: seq<string>)
    ensures SumClocks(net, peers).Ok? <==> forall k :: 0 <= k < |peers| ==> Answers(net, peers[k])
    decreases |peers|
  {
    if peers != [] {
      var init := peers[..|peers| - 1];
      SumClocksOk(net, init);
      assert forall k :: 0 <= k < |init| ==> init[k] == peers[k];
    }
  }

  /** The average can be taken exactly when every member of the agent's list answers. */
  lemma AverageOk(net: Net, agent: string)
    requires agent in net
    ensures Average(net, agent).Ok? <==> forall p :: p in net[agent].members ==> Answers(net, p)
  {
    SumClocksOk(net, net[agent].members);
  }

  /** The loop of CLK requests fails at the first peer that does not answer, and at no other. */
  lemma {:induction false} SumClocksFirstMissing(net: Net, peers: seq<string>)
    requires SumClocks(net, peers).Err?
    ensures exists k :: 0 <= k < |peers| && SumClocks(net, peers).error == NoReply(net, peers[k]) &&
                        !Answers(net, peers[k]) && forall j :: 0 <= j < k ==> Answers(net, peers[j])
    decreases |peers|
  {
    var init := peers[..|peers| - 1];
    var last := peers[|peers| - 1];
    var before := SumClocks(net, init);
    if before.Err? {
      assert SumClocks(net, peers) == before;
      SumClocksFirstMissing(net, init);
      var k :| 0 <= k < |init| && before.error == NoReply(net, init[k]) &&
               !Answers(net, init[k]) && forall j :: 0 <= j < k ==> Answers(net, init[j]);
      assert forall j :: 0 <= j <= k ==> peers[j] == init[j];
    } else {
      assert !Answers(net, last) && SumClocks(net, peers) == Err(NoReply(net, last));
      SumClocksOk(net, init);
      assert forall j :: 0 <= j < |init| ==> peers[j] == init[j];
      var k := |peers| - 1;
      assert peers[k] == last && !Answers(net, last);
    }
  }

  /** The sum depends only on which peers are present and answer, and on their counters. */
  lemma {:induction false} SumClocksAgree(n1: Net, n2: Net, peers: seq<string>)
    requires forall p :: p in peers ==> (p in n1 <==> p in n2)
    requires forall p :: p in peers && p in n1 ==> n1[p].counter == n2[p].counter && n1[p].running == n2[p].running
    ensures SumClocks(n1, peers) == SumClocks(n2, peers)
    decreases |peers|
  {
    if peers != [] {
      var init := peers[..|peers| - 1];
      assert forall p :: p in init ==> p in peers;
      SumClocksAgree(n1, n2, init);
      assert peers[|peers| - 1] in peers;
    }
  }

  /** Two small averages: {10, 20, 30} gives 20, and {10, 21} gives 15 (the remainder is dropped). */
  lemma AverageExamples()
    ensures Average(map["a" := AgentState(10, ["b", "c"], true),
                        "b" := AgentState(20, [], true),
                        "c" := AgentState(30, [], true)], "a") == Ok(20)
    ensures Average(map["a" := AgentState(10, ["b"], true),
                        "b" := AgentState(21, [], true)], "a") == Ok(15)
  {
    var n1 := map["a" := AgentState(10, ["b", "c"], true), "b" := AgentState(20, [], true),
                  "c" := AgentState(30, [], true)];
    assert ["b", "c"][..1] == ["b"];
    assert ["b"][..0] == [];
    assert SumClocks(n1, ["b", "c"]) == Ok(50);
    var n2 := map["a" := AgentState(10, ["b"], true), "b" := AgentState(21, [], true)];
    assert SumClocks(n2, ["b"]) == Ok(21);
  }

  /** The division truncates toward zero: counters -3 and 0 average to -1, where a floor division would give -2. */
  lemma AverageTruncatesTowardZero()
    ensures Average(map["a" := AgentState(-3, ["b"], true), "b" := AgentState(0, [], true)], "a") == Ok(-1)
  {
    var n := map["a" := AgentState(-3, ["b"], true), "b" := AgentState(0, [], true)];
    assert ["b"][..0] == [];
    assert SumClocks(n, ["b"]) == Ok(0);
  }

  /**
   * SYN is not idempotent: the receiver averages against its own, already
   * changed counter, so a second SYN moves it again (0 and 10 give 5, then 7).
   */
  lemma SynNotIdempotent()
    ensures var n0 := map["a" := AgentState(0, ["b"], true), "b" := AgentState(10, ["a"], true)];
      var o1 := Dispatch(n0, "a", SYN, "b");
      o1.Answered? && o1.net["a"].counter == 5 &&
      var o2 := Dispatch(o1.net, "a", SYN, "b");
      o2.Answered? && o2.net["a"].counter == 7
  {
    var n0 := map["a" := AgentState(0, ["b"], true), "b" := AgentState(10, ["a"], true)];
    assert ["b"][..0] == [];
    assert SumClocks(n0, ["b"]) == Ok(10);
    var n1 := n0["a" := AgentState(5, ["b"], true)];
    assert SumClocks(n1, ["b"]) == Ok(10);
  }
}
