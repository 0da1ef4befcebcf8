/** The reading half of one pipelined chunk, and what the socket owes while it runs. */
module Reading {
  import opened Wire
  import opened Sequences
  import opened Ladder

  datatype State<A, Q, B> = State(traffic: seq<Action<A, Q, B>>, wanted: set<A>, entries: map<A, B>)

  function Receive<A, Q, B>(traffic: seq<Action<A, Q, B>>, event: Event<A, Q, B>): seq<Action<A, Q, B>> {
    traffic + [Received(event)]
  }

  /** One request for each address of a set. */
  ghost function Requests<A(!new), Q>(addresses: set<A>, query: Q): multiset<Request<A, Q>> {
    multiset(set x | x in addresses :: Request(x, query))
  }

  lemma RequestsWith<A(!new), Q>(addresses: set<A>, x: A, query: Q)
    requires x !in addresses
    ensures Requests(addresses + {x}, query) == Requests(addresses, query) + multiset{Request(x, query)}
  {
  }

  lemma RequestsMinus<A(!new), Q>(addresses: set<A>, r: Request<A, Q>, query: Q)
    requires r in Requests(addresses, query)
    ensures r.query == query && r.address in addresses
    ensures Requests(addresses - {r.address}, query) == Requests(addresses, query) - multiset{r}
  {
  }

  lemma RequestsNone<A(!new), Q>(addresses: set<A>, query: Q)
    ensures Requests(addresses, query) == multiset{} <==> addresses == {}
  {
    if x :| x in addresses {
      assert Request(x, query) in Requests(addresses, query);
    }
  }

  /** The addresses of a chunk sent before any poison, and neither poison nor absent. */
  ghost function Live<A(!new)>(chunk: seq<A>, poison: iset<A>, absent: iset<A>): (live: set<A>)
    ensures live <= Elements(chunk)
  {
    if chunk == [] then {}
    else
      var earlier := chunk[..|chunk| - 1];
      var last := chunk[|chunk| - 1];
      Snoc(chunk);
      if last in poison || last in absent || Within(earlier, poison) != [] then Live(earlier, poison, absent)
      else Live(earlier, poison, absent) + {last}
  }

  lemma {:induction false} LiveCons<A(!new)>(chunk: seq<A>, poison: iset<A>, absent: iset<A>)
    requires chunk != []
    ensures Live(chunk, poison, absent) ==
            if chunk[0] in poison then {}
            else (if chunk[0] in absent then {} else {chunk[0]}) + Live(chunk[1..], poison, absent)
  {
    var n := |chunk|;
    if n == 1 {
      assert chunk[..0] == [] && chunk[1..] == [];
    } else {
      LiveCons(chunk[..n - 1], poison, absent);
      assert chunk[..n - 1][1..] == chunk[1..][..n - 2];
      assert chunk[1..][n - 2] == chunk[n - 1];
      assert Within(chunk[..n - 1], poison) ==
             (if chunk[0] in poison then [chunk[0]] else []) + Within(chunk[1..][..n - 2], poison);
    }
  }

  /** What is lost is what is not live. */
  lemma {:induction false} LostIsNotLive<A(!new)>(chunk: seq<A>, poison: iset<A>, absent: iset<A>)
    requires Distinct(chunk)
    ensures Lost(chunk, poison, absent) == Without(chunk, Live(chunk, poison, absent))
  {
    if chunk != [] {
      LiveCons(chunk, poison, absent);
      LostIsNotLive(chunk[1..], poison, absent);
      var live := Live(chunk, poison, absent);
      if chunk[0] in poison {
        WithoutNone(chunk, live);
      } else {
        WithoutAgrees(chunk[1..], live, Live(chunk[1..], poison, absent));
      }
    }
  }

  lemma PoisonAfterSend<A(!new), Q(!new), B>(traffic: seq<Action<A, Q, B>>, request: Request<A, Q>,
                                             poison: iset<Request<A, Q>>)
    ensures PoisonSent(traffic + [Sent(request)], poison) <==> PoisonSent(traffic, poison) || request in poison
  {
    var after := traffic + [Sent(request)];
    assert after[|traffic|] == Sent(request);
    if PoisonSent(traffic, poison) {
      var k :| 0 <= k < |traffic| && traffic[k].Sent? && traffic[k].request in poison;
      assert after[k] == traffic[k];
    }
  }

  lemma AfterSend<A(!new), Q(!new), B>(traffic: seq<Action<A, Q, B>>, request: Request<A, Q>,
                                                          faults: Faults<A, Q>)
    ensures var after := traffic + [Sent(request)];
      && Outstanding(after) == Outstanding(traffic) + multiset{request}
      && Deliverable(after, faults) ==
           Deliverable(traffic, faults) +
           if faults.Silent(request) || PoisonSent(traffic, faults.poison) then multiset{} else multiset{request}
  {
    assert (traffic + [Sent(request)])[..|traffic|] == traffic;
  }

  ghost function NoFaults<A(!new), Q(!new)>(): Faults<A, Q> {
    Faults(iset{}, iset{})
  }

  lemma {:induction false} AfterRead<A(!new), Q(!new), B>(traffic: seq<Action<A, Q, B>>, event: Event<A, Q, B>,
                                                          faults: Faults<A, Q>)
    ensures var after := Receive(traffic, event);
      var gone := if event.Reply? || event.Malformed? then multiset{event.re} else multiset{};
      && Outstanding(after) == Outstanding(traffic) - gone
      && Deliverable(after, faults) == Deliverable(traffic, faults) - gone
      && (PoisonSent(after, faults.poison) <==> PoisonSent(traffic, faults.poison))
  {
    var after := Receive(traffic, event);
    assert after[..|traffic|] == traffic;
    if PoisonSent(traffic, faults.poison) {
      var k :| 0 <= k < |traffic| && traffic[k].Sent? && traffic[k].request in faults.poison;
      assert after[k] == traffic[k];
    }
  }

  // ----- firing the whole chunk before reading

  function Burst<A, Q, B>(chunk: seq<A>, query: Q): seq<Action<A, Q, B>> {
    seq(|chunk|, i requires 0 <= i < |chunk| => Sent(Request(chunk[i], query)))
  }

  lemma BurstSnoc<A, Q, B>(traffic: seq<Action<A, Q, B>>, chunk: seq<A>, query: Q)
    requires chunk != []
    ensures var n := |chunk| - 1;
      traffic + Burst(chunk, query) == traffic + Burst(chunk[..n], query) + [Sent(Request(chunk[n], query))]
  {
  }

  lemma {:induction false} BurstOutstanding<A(!new), Q(!new), B(!new)>(traffic: seq<Action<A, Q, B>>,
      chunk: seq<A>, query: Q)
    requires Distinct(chunk)
    ensures Outstanding(traffic + Burst(chunk, query)) == Outstanding(traffic) + Requests(Elements(chunk), query)
  {
    if chunk == [] {
      assert traffic + Burst(chunk, query) == traffic;
      RequestsNone(Elements(chunk), query);
    } else {
      var n := |chunk| - 1;
      Snoc(chunk);
      BurstSnoc(traffic, chunk, query);
      BurstOutstanding(traffic, chunk[..n], query);
      AfterSend(traffic + Burst(chunk[..n], query), Request(chunk[n], query), NoFaults());
      RequestsWith(Elements(chunk[..n]), chunk[n], query);
    }
  }

  lemma {:induction false} BurstPoison<A(!new), Q(!new), B>(traffic: seq<Action<A, Q, B>>, chunk: seq<A>, query: Q,
                                                            faults: Faults<A, Q>)
    requires !PoisonSent(traffic, faults.poison)
    ensures PoisonSent(traffic + Burst(chunk, query), faults.poison) <==> Within(chunk, faults.Poison(query)) != []
  {
    if chunk == [] {
      assert traffic + Burst(chunk, query) == traffic;
    } else {
      var n := |chunk| - 1;
      BurstSnoc(traffic, chunk, query);
      BurstPoison(traffic, chunk[..n], query, faults);
      PoisonAfterSend(traffic + Burst(chunk[..n], query), Request(chunk[n], query), faults.poison);
      WithinSnoc(chunk, faults.Poison(query));
    }
  }

  lemma WithinSnoc<A>(chunk: seq<A>, keep: iset<A>)
    requires chunk != []
    ensures var n := |chunk| - 1;
      Within(chunk, keep) == Within(chunk[..n], keep) + if chunk[n] in keep then [chunk[n]] else []
  {
    var n := |chunk| - 1;
    assert chunk == chunk[..n] + [chunk[n]];
    WithinConcat(chunk[..n], [chunk[n]], keep);
    assert Within([chunk[n]][1..], keep) == [];
  }

  lemma {:induction false} BurstDeliverable<A(!new), Q(!new), B(!new)>(traffic: seq<Action<A, Q, B>>, chunk: seq<A>,
                                                                       query: Q, faults: Faults<A, Q>)
    requires Distinct(chunk) && !PoisonSent(traffic, faults.poison)
    ensures Deliverable(traffic + Burst(chunk, query), faults) ==
            Deliverable(traffic, faults) + Requests(Live(chunk, faults.Poison(query), faults.Absent(query)), query)
  {
    var poison, absent := faults.Poison(query), faults.Absent(query);
    if chunk == [] {
      assert traffic + Burst(chunk, query) == traffic;
      RequestsNone(Live(chunk, poison, absent), query);
    } else {
      var n := |chunk| - 1;
      Snoc(chunk);
      BurstSnoc(traffic, chunk, query);
      BurstDeliverable(traffic, chunk[..n], query, faults);
      BurstPoison(traffic, chunk[..n], query, faults);
      AfterSend(traffic + Burst(chunk[..n], query), Request(chunk[n], query), faults);
      RequestsWith(Live(chunk[..n], poison, absent), chunk[n], query);
    }
  }

  // ----- reading until nothing is wanted, the idle gap, or a dead socket

  /** Bounded because a socket yields at most one datagram a send, and at most `limit` resets are tolerated. */
  ghost function ReadAll<A(!new), Q(!new), B(!new)>(net: Network<A, Q, B>, honest: (Request<A, Q>, B) -> bool,
                                                    sock: nat,
                                                    s: State<A, Q, B>, resets: nat, limit: nat): State<A, Q, B>
    requires Admissible(net, honest) && resets <= limit
    decreases |Outstanding(s.traffic)|, limit - resets
  {
    if s.wanted == {} then s
    else
      var event := net(sock, s.traffic);
      var next := s.(traffic := Receive(s.traffic, event));
      assert Lawful(event, Outstanding(s.traffic), honest);
      AfterRead(s.traffic, event, NoFaults());
      match event
      case Timeout => next
      case OsError => next
      case Reset => if resets == limit then next else ReadAll(net, honest, sock, next, resets + 1, limit)
      case Malformed(_) => ReadAll(net, honest, sock, next, resets, limit)
      case Reply(re, body) =>
        ReadAll(net, honest, sock, State(next.traffic, s.wanted - {re.address}, s.entries[re.address := body]),
                resets, limit)
  }

  /** `entries` extends `before` by honest answers to members of `asked` alone. */
  ghost predicate Answered<A(!new), Q, B(!new)>(before: map<A, B>, entries: map<A, B>, asked: set<A>, query: Q,
                                                honest: (Request<A, Q>, B) -> bool) {
    && before.Keys <= entries.Keys <= before.Keys + asked
    && (forall x :: x in before ==> entries[x] == before[x])
    && (forall x :: x in entries && x !in before ==> honest(Request(x, query), entries[x]))
  }

  /** Each address of the chunk is wanted or honestly answered, and only wanted ones are still due. */
  ghost predicate Accounted<A(!new), Q(!new), B(!new)>(s: State<A, Q, B>, before: map<A, B>, chunk: seq<A>, query: Q,
                                                       honest: (Request<A, Q>, B) -> bool) {
    && Outstanding(s.traffic) <= Requests(s.wanted, query)
    && s.wanted == Elements(chunk) - s.entries.Keys
    && Answered(before, s.entries, Elements(chunk), query, honest)
  }

  lemma AccountedAfterReply<A(!new), Q(!new), B(!new)>(
      s: State<A, Q, B>, re: Request<A, Q>, body: B, before: map<A, B>,
                                                       chunk: seq<A>, query: Q, honest: (Request<A, Q>, B) -> bool)
    requires Accounted(s, before, chunk, query, honest)
    requires re in Outstanding(s.traffic) && honest(re, body)
    ensures Accounted(State(Receive(s.traffic, Reply(re, body)), s.wanted - {re.address},
                            s.entries[re.address := body]),
                      before, chunk, query, honest)
  {
    RequestsMinus(s.wanted, re, query);
    AfterRead(s.traffic, Reply(re, body), NoFaults());
  }

  lemma AccountedAfterMiss<A(!new), Q(!new), B(!new)>(
      s: State<A, Q, B>, event: Event<A, Q, B>, before: map<A, B>,
                                                      chunk: seq<A>, query: Q, honest: (Request<A, Q>, B) -> bool)
    requires Accounted(s, before, chunk, query, honest) && !event.Reply?
    ensures Accounted(s.(traffic := Receive(s.traffic, event)), before, chunk, query, honest)
  {
    AfterRead(s.traffic, event, NoFaults());
  }

  /** On a socket that owed nothing before the chunk, the account holds to the end; so a chunk answered in
      full leaves the socket owing nothing. */
  lemma {:induction false} CleanReading<A(!new), Q(!new), B(!new)>(
      net: Network<A, Q, B>, honest: (Request<A, Q>, B) -> bool, sock: nat, s: State<A, Q, B>,
      resets: nat, limit: nat, before: map<A, B>, chunk: seq<A>, query: Q)
    requires Admissible(net, honest) && resets <= limit
    requires Accounted(s, before, chunk, query, honest)
    ensures Accounted(ReadAll(net, honest, sock, s, resets, limit), before, chunk, query, honest)
    decreases |Outstanding(s.traffic)|, limit - resets
  {
    if s.wanted != {} {
      var event := net(sock, s.traffic);
      var next := s.(traffic := Receive(s.traffic, event));
      assert Lawful(event, Outstanding(s.traffic), honest);
      AfterRead(s.traffic, event, NoFaults());
      if event.Reply? {
        AccountedAfterReply(s, event.re, event.body, before, chunk, query, honest);
        var answered := State(next.traffic, s.wanted - {event.re.address}, s.entries[event.re.address := event.body]);
        CleanReading(net, honest, sock, answered, resets, limit, before, chunk, query);
      } else {
        AccountedAfterMiss(s, event, before, chunk, query, honest);
        if event.Malformed? {
          CleanReading(net, honest, sock, next, resets, limit, before, chunk, query);
        } else if event.Reset? && resets < limit {
          CleanReading(net, honest, sock, next, resets + 1, limit, before, chunk, query);
        }
      }
    }
  }

  lemma DueAfterReply<A(!new), Q(!new), B(!new)>(
      s: State<A, Q, B>, event: Event<A, Q, B>, query: Q, faults: Faults<A, Q>, live: set<A>)
    requires event.Reply? && event.re in Deliverable(s.traffic, faults)
    requires Deliverable(s.traffic, faults) == Requests(s.wanted * live, query)
    ensures event.re.address in s.wanted * live
    ensures Deliverable(Receive(s.traffic, event), faults) == Requests((s.wanted - {event.re.address}) * live, query)
  {
    AfterRead(s.traffic, event, faults);
    RequestsMinus(s.wanted * live, event.re, query);
    assert (s.wanted - {event.re.address}) * live == s.wanted * live - {event.re.address};
  }

  /** Nothing due, nothing wanted that could still be answered. */
  lemma NothingDue<A(!new), Q(!new)>(wanted: set<A>, live: set<A>, query: Q)
    requires Requests(wanted * live, query) == multiset{}
    ensures wanted - live == wanted
  {
    RequestsNone(wanted * live, query);
    assert wanted - live == wanted - wanted * live;
  }

  lemma NothingWanted<A(!new), Q(!new)>(wanted: set<A>, live: set<A>, query: Q)
    requires wanted == {}
    ensures Requests(wanted * live, query) == multiset{} && wanted - live == wanted
  {
    RequestsNone(wanted * live, query);
  }

  /** In the poison model exactly the live addresses of the chunk are answered. */
  lemma {:induction false} PoisonedReading<A(!new), Q(!new), B(!new)>(
      net: Network<A, Q, B>, honest: (Request<A, Q>, B) -> bool, sock: nat, s: State<A, Q, B>,
      resets: nat, limit: nat, query: Q, faults: Faults<A, Q>, live: set<A>)
    requires Admissible(net, honest) && Poisoned(net, faults, honest) && resets <= limit
    requires Deliverable(s.traffic, faults) == Requests(s.wanted * live, query)
    ensures var r := ReadAll(net, honest, sock, s, resets, limit);
      && r.wanted == s.wanted - live
      && Deliverable(r.traffic, faults) == multiset{}
      && (PoisonSent(r.traffic, faults.poison) <==> PoisonSent(s.traffic, faults.poison))
    decreases |Outstanding(s.traffic)|, limit - resets
  {
    var event := net(sock, s.traffic);
    assert Lawful(event, Outstanding(s.traffic), honest);
    assert NextDelivery(event, Deliverable(s.traffic, faults), honest);
    if s.wanted == {} {
      NothingWanted(s.wanted, live, query);
    } else if event.Reply? {
      AfterRead(s.traffic, event, faults);
      DueAfterReply(s, event, query, faults, live);
      var answered := State(Receive(s.traffic, event), s.wanted - {event.re.address},
                            s.entries[event.re.address := event.body]);
      PoisonedReading(net, honest, sock, answered, resets, limit, query, faults, live);
    } else {
      AfterRead(s.traffic, event, faults);
      NothingDue(s.wanted, live, query);
    }
  }
}
