/** The network as the request/reply client of wing_parser/net/client.py sees it.

    A client talks to the console through one socket at a time. What a socket has seen so far is its
    traffic: the requests sent and the outcomes of the reads. The network decides the outcome of the
    next read from the socket's number and its traffic, so one network value fixes one run, and a
    statement about every network is a statement about every loss, delay and reordering. */
module Wire {

  datatype Request<A, Q> = Request(address: A, query: Q)

  /** What one read of the socket can yield. A malformed datagram names the request it answered, which
      the client cannot see. */
  datatype Event<A, Q, B> =
    | Timeout
    | Reset
    | OsError
    | Malformed(re: Request<A, Q>)
    | Reply(re: Request<A, Q>, body: B)

  datatype Action<A, Q, B> = Sent(request: Request<A, Q>) | Received(event: Event<A, Q, B>)

  type Network<!A, !Q, !B> = (nat, seq<Action<A, Q, B>>) -> Event<A, Q, B>

  // ----- what a network may do

  /** The requests whose one datagram has not arrived yet. */
  ghost function Outstanding<A, Q, B>(traffic: seq<Action<A, Q, B>>): multiset<Request<A, Q>> {
    if traffic == [] then multiset{}
    else
      var before := Outstanding(traffic[..|traffic| - 1]);
      match traffic[|traffic| - 1]
      case Sent(r) => before + multiset{r}
      case Received(Reply(r, _)) => before - multiset{r}
      case Received(Malformed(r)) => before - multiset{r}
      case Received(_) => before
  }

  /** A datagram answers a request still outstanding on the same socket, and says what the console says. */
  ghost predicate Lawful<A, Q, B>(event: Event<A, Q, B>, due: multiset<Request<A, Q>>,
                                  honest: (Request<A, Q>, B) -> bool) {
    match event
    case Reply(r, body) => r in due && honest(r, body)
    case Malformed(r) => r in due
    case _ => true
  }

  /** Any loss, any corruption and any order: only duplication and crossing sockets are excluded. */
  ghost predicate Admissible<A(!new), Q(!new), B(!new)>(net: Network<A, Q, B>,
                                                        honest: (Request<A, Q>, B) -> bool) {
    forall sock, traffic :: Lawful(net(sock, traffic), Outstanding(traffic), honest)
  }

  /** What goes wrong besides: a request in `poison` silences everything sent after it on its socket, and itself; a
      request in `absent` gets no answer. The same address may answer one query and not another. */
  datatype Faults<!A(==,!new), !Q(==,!new)> = Faults(poison: iset<Request<A, Q>>, absent: iset<Request<A, Q>>) {
    ghost predicate Silent(r: Request<A, Q>) {
      r in poison || r in absent
    }

    ghost function Poison(query: Q): iset<A> {
      iset a | Request(a, query) in poison
    }

    ghost function Absent(query: Q): iset<A> {
      iset a | Request(a, query) in absent
    }
  }

  ghost predicate PoisonSent<A, Q, B>(traffic: seq<Action<A, Q, B>>, poison: iset<Request<A, Q>>) {
    exists i :: 0 <= i < |traffic| && traffic[i].Sent? && traffic[i].request in poison
  }

  /** The replies on their way when nothing is lost but by these faults. */
  ghost function Deliverable<A(!new), Q(!new), B>(traffic: seq<Action<A, Q, B>>, faults: Faults<A, Q>)
    : multiset<Request<A, Q>>
  {
    if traffic == [] then multiset{}
    else
      var earlier := traffic[..|traffic| - 1];
      var before := Deliverable(earlier, faults);
      match traffic[|traffic| - 1]
      case Sent(r) =>
        if faults.Silent(r) || PoisonSent(earlier, faults.poison) then before else before + multiset{r}
      case Received(Reply(r, _)) => before - multiset{r}
      case Received(Malformed(r)) => before - multiset{r}
      case Received(_) => before
  }

  ghost predicate NextDelivery<A, Q, B>(event: Event<A, Q, B>, due: multiset<Request<A, Q>>,
                                        honest: (Request<A, Q>, B) -> bool) {
    if due == multiset{} then event == Timeout
    else event.Reply? && event.re in due && honest(event.re, event.body)
  }

  /** The measured hazard and no other loss: what is deliverable arrives, in any order, before the idle gap. */
  ghost predicate Poisoned<A(!new), Q(!new), B(!new)>(net: Network<A, Q, B>, faults: Faults<A, Q>,
                                                      honest: (Request<A, Q>, B) -> bool) {
    forall sock, traffic :: NextDelivery(net(sock, traffic), Deliverable(traffic, faults), honest)
  }

  lemma {:induction false} DeliverableIsOutstanding<A(!new), Q(!new), B>(traffic: seq<Action<A, Q, B>>,
                                                                         faults: Faults<A, Q>)
    ensures Deliverable(traffic, faults) <= Outstanding(traffic)
  {
    if traffic != [] {
      DeliverableIsOutstanding(traffic[..|traffic| - 1], faults);
    }
  }

  lemma {:induction false} SilentIsNotDelivered<A(!new), Q(!new), B>(traffic: seq<Action<A, Q, B>>,
                                                                     faults: Faults<A, Q>, r: Request<A, Q>)
    requires r in Deliverable(traffic, faults)
    ensures !faults.Silent(r)
  {
    var earlier := traffic[..|traffic| - 1];
    if r in Deliverable(earlier, faults) {
      SilentIsNotDelivered(earlier, faults, r);
    }
  }

  /** The poison model is one of the admissible networks. */
  lemma PoisonedIsAdmissible<A(!new), Q(!new), B(!new)>(net: Network<A, Q, B>, faults: Faults<A, Q>,
                                                        honest: (Request<A, Q>, B) -> bool)
    requires Poisoned(net, faults, honest)
    ensures Admissible(net, honest)
  {
    forall sock, traffic
      ensures Lawful(net(sock, traffic), Outstanding(traffic), honest)
    {
      DeliverableIsOutstanding(traffic, faults);
      assert NextDelivery(net(sock, traffic), Deliverable(traffic, faults), honest);
    }
  }

  /** Whatever the faults, a console that can answer every other request has a network that behaves so: the
      hypothesis of the isolation theorems is not empty. */
  lemma PoisonNetworkExists<A(!new), Q(!new), B(!new)>(faults: Faults<A, Q>, answer: Request<A, Q> -> B,
                                                       honest: (Request<A, Q>, B) -> bool)
    returns (net: Network<A, Q, B>)
    requires forall r :: !faults.Silent(r) ==> honest(r, answer(r))
    ensures Poisoned(net, faults, honest)
  {
    net := (sock, traffic) => Deliver(Deliverable(traffic, faults), answer);
    forall sock, traffic: seq<Action<A, Q, B>>
      ensures NextDelivery(net(sock, traffic), Deliverable(traffic, faults), honest)
    {
      var due := Deliverable(traffic, faults);
      var event := Deliver(due, answer);
      assert net(sock, traffic) == event;
      if due != multiset{} {
        SilentIsNotDelivered(traffic, faults, event.re);
      }
    }
  }

  ghost function Deliver<A(!new), Q(!new), B>(due: multiset<Request<A, Q>>, answer: Request<A, Q> -> B)
    : (event: Event<A, Q, B>)
    ensures due == multiset{} ==> event == Timeout
    ensures due != multiset{} ==> event.Reply? && event.re in due && event.body == answer(event.re)
  {
    if due == multiset{} then Timeout
    else
      var r :| r in due;
      Reply(r, answer(r))
  }
}
