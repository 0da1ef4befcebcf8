/** What a batch did, told by what was sent and read on its sockets alone. */
module Traces {
  import opened Wire
  import opened Sequences
  import opened Ladder
  import opened Reading

  // ----- the events of one chunk

  function Heard<A, Q, B>(events: seq<Event<A, Q, B>>): seq<Action<A, Q, B>> {
    seq(|events|, i requires 0 <= i < |events| => Received(events[i]))
  }

  /** Each event is what the network gave on this socket after the ones before it. */
  ghost predicate Follows<A(!new), Q(!new), B(!new)>(net: Network<A, Q, B>, sock: nat, start: seq<Action<A, Q, B>>,
                                                     events: seq<Event<A, Q, B>>) {
    forall k :: 0 <= k < |events| ==> Given(net, sock, start, events, k)
  }

  ghost predicate Given<A(!new), Q(!new), B(!new)>(net: Network<A, Q, B>, sock: nat, start: seq<Action<A, Q, B>>,
                                                   events: seq<Event<A, Q, B>>, k: nat)
    requires k < |events|
  {
    events[k] == net(sock, start + Heard(events[..k]))
  }

  ghost predicate Replied<A, Q, B>(events: seq<Event<A, Q, B>>, x: A) {
    exists k :: 0 <= k < |events| && events[k].Reply? && events[k].re.address == x
  }

  /** The last event ends the reading whatever is still wanted: the idle gap, a dead socket, or more resets than
      there were sends. */
  ghost predicate Fatal<A, Q, B>(events: seq<Event<A, Q, B>>, sends: nat)
    requires events != []
  {
    var last := events[|events| - 1];
    last.Timeout? || last.OsError? || (last.Reset? && multiset(events)[Reset] > sends)
  }

  ghost predicate Over<A(!new), Q, B>(chunk: seq<A>, events: seq<Event<A, Q, B>>) {
    || (forall x :: x in Elements(chunk) ==> Replied(events, x))
    || (events != [] && Fatal(events, |chunk|))
  }

  /** Reading was not over after any smaller number of events. */
  ghost predicate NotBefore<A(!new), Q, B>(chunk: seq<A>, events: seq<Event<A, Q, B>>) {
    forall k :: 0 <= k < |events| ==> OpenAt(chunk, events, k)
  }

  ghost predicate OpenAt<A(!new), Q, B>(chunk: seq<A>, events: seq<Event<A, Q, B>>, k: nat)
    requires k <= |events|
  {
    !Over(chunk, events[..k])
  }

  /** The replies among the events entered one after the other. */
  ghost function Noted<A, Q, B>(before: map<A, B>, events: seq<Event<A, Q, B>>): map<A, B> {
    if events == [] then before
    else
      var earlier, last := Noted(before, events[..|events| - 1]), events[|events| - 1];
      if last.Reply? then earlier[last.re.address := last.body] else earlier
  }

  lemma {:induction false} NotedConcat<A, Q, B>(before: map<A, B>, a: seq<Event<A, Q, B>>, b: seq<Event<A, Q, B>>)
    ensures Noted(before, a + b) == Noted(Noted(before, a), b)
  {
    if b == [] {
      assert a + b == a;
    } else {
      NotedConcat(before, a, b[..|b| - 1]);
      assert (a + b)[..|a + b| - 1] == a + b[..|b| - 1];
    }
  }

  lemma RepliedSnoc<A, Q, B>(events: seq<Event<A, Q, B>>, event: Event<A, Q, B>, x: A)
    ensures Replied(events + [event], x) <==> Replied(events, x) || (event.Reply? && event.re.address == x)
  {
    var all := events + [event];
    assert all[|events|] == event;
    if Replied(events, x) {
      var k :| 0 <= k < |events| && events[k].Reply? && events[k].re.address == x;
      assert all[k] == events[k];
    }
  }

  lemma {:induction false} NotedKeys<A, Q, B>(before: map<A, B>, events: seq<Event<A, Q, B>>, x: A)
    ensures x in Noted(before, events) <==> x in before || Replied(events, x)
  {
    if events != [] {
      var front, last := events[..|events| - 1], events[|events| - 1];
      NotedKeys(before, front, x);
      assert events == front + [last];
      RepliedSnoc(front, last, x);
    }
  }

  /** The k-th event is the last reply to its address. */
  ghost predicate LastReply<A, Q, B>(events: seq<Event<A, Q, B>>, k: nat) {
    && k < |events| && events[k].Reply?
    && forall j :: k < j < |events| && events[j].Reply? ==> events[j].re.address != events[k].re.address
  }

  /** The entry under an address is the body of the last reply to it, or what was there before. */
  lemma {:induction false} NotedLast<A, Q, B>(before: map<A, B>, events: seq<Event<A, Q, B>>, k: nat)
    requires LastReply(events, k)
    ensures events[k].re.address in Noted(before, events)
    ensures Noted(before, events)[events[k].re.address] == events[k].body
    decreases |events|
  {
    if k < |events| - 1 {
      var front := events[..|events| - 1];
      assert front[k] == events[k];
      NotedLast(before, front, k);
    }
  }

  lemma {:induction false} NotedElsewhere<A, Q, B>(before: map<A, B>, events: seq<Event<A, Q, B>>, x: A)
    requires x in before && !Replied(events, x)
    ensures x in Noted(before, events) && Noted(before, events)[x] == before[x]
  {
    if events != [] {
      var front, last := events[..|events| - 1], events[|events| - 1];
      assert events == front + [last];
      RepliedSnoc(front, last, x);
      NotedElsewhere(before, front, x);
    }
  }

  /** Each reply is kept, the last one to an address over any other, and nothing else is touched. */
  ghost predicate Kept<A(!new), Q, B>(before: map<A, B>, events: seq<Event<A, Q, B>>, entries: map<A, B>) {
    && (forall x :: x in entries <==> x in before || Replied(events, x))
    && (forall x :: x in before && x in entries && !Replied(events, x) ==> entries[x] == before[x])
    && (forall k {:trigger LastReply(events, k)} :: 0 <= k < |events| && LastReply(events, k) ==>
          events[k].re.address in entries && entries[events[k].re.address] == events[k].body)
  }

  lemma NotedIs<A(!new), Q, B>(before: map<A, B>, events: seq<Event<A, Q, B>>)
    ensures Kept(before, events, Noted(before, events))
  {
    var entries := Noted(before, events);
    forall x
      ensures x in entries <==> x in before || Replied(events, x)
      ensures x in before && x in entries && !Replied(events, x) ==> entries[x] == before[x]
    {
      NotedKeys(before, events, x);
      if x in before && !Replied(events, x) { NotedElsewhere(before, events, x); }
    }
    forall k: nat {:trigger LastReply(events, k)} | LastReply(events, k)
      ensures events[k].re.address in entries && entries[events[k].re.address] == events[k].body
    {
      NotedLast(before, events, k);
    }
  }

  /** Where reading a chunk has come: every event heeded, none read too many. */
  ghost predicate SoFar<A(!new), Q(!new), B(!new)>(net: Network<A, Q, B>, sock: nat, start: seq<Action<A, Q, B>>,
                                                   chunk: seq<A>, before: map<A, B>, events: seq<Event<A, Q, B>>,
                                                   s: State<A, Q, B>) {
    && s.traffic == start + Heard(events) && Follows(net, sock, start, events)
    && s.entries == Noted(before, events)
    && (forall x :: x in s.wanted <==> x in Elements(chunk) && !Replied(events, x))
    && NotBefore(chunk, events)
  }

  /** Reading may go on. */
  ghost predicate Going<A(!new), Q, B>(chunk: seq<A>, events: seq<Event<A, Q, B>>) {
    events == [] || !Fatal(events, |chunk|)
  }

  lemma HeardSnoc<A, Q, B>(start: seq<Action<A, Q, B>>, events: seq<Event<A, Q, B>>, event: Event<A, Q, B>)
    ensures start + Heard(events + [event]) == Receive(start + Heard(events), event)
  {
    assert Heard(events + [event]) == Heard(events) + [Received(event)];
  }

  lemma FollowsSnoc<A(!new), Q(!new), B(!new)>(net: Network<A, Q, B>, sock: nat, start: seq<Action<A, Q, B>>,
                                               events: seq<Event<A, Q, B>>, event: Event<A, Q, B>)
    requires Follows(net, sock, start, events) && event == net(sock, start + Heard(events))
    ensures Follows(net, sock, start, events + [event])
  {
    var all := events + [event];
    forall k | 0 <= k < |all|
      ensures Given(net, sock, start, all, k)
    {
      if k < |events| {
        assert all[..k] == events[..k] && Given(net, sock, start, events, k);
      } else {
        assert all[..k] == events;
      }
    }
  }

  /** What is wanted, is stored and is known after one more event. */
  function AfterEvent<A, Q, B>(s: State<A, Q, B>, event: Event<A, Q, B>): State<A, Q, B> {
    var traffic := Receive(s.traffic, event);
    if event.Reply? then State(traffic, s.wanted - {event.re.address}, s.entries[event.re.address := event.body])
    else s.(traffic := traffic)
  }

  lemma HearOne<A(!new), Q(!new), B(!new)>(net: Network<A, Q, B>, sock: nat, start: seq<Action<A, Q, B>>,
                                           chunk: seq<A>, before: map<A, B>, events: seq<Event<A, Q, B>>,
                                           s: State<A, Q, B>, event: Event<A, Q, B>)
    requires SoFar(net, sock, start, chunk, before, events, s) && Going(chunk, events) && s.wanted != {}
    requires event == net(sock, s.traffic)
    ensures SoFar(net, sock, start, chunk, before, events + [event], AfterEvent(s, event))
  {
    var all := events + [event];
    HeardSnoc(start, events, event);
    FollowsSnoc(net, sock, start, events, event);
    assert all[..|events|] == events;
    forall x
      ensures x in AfterEvent(s, event).wanted <==> x in Elements(chunk) && !Replied(all, x)
    {
      RepliedSnoc(events, event, x);
    }
    forall k | 0 <= k < |all|
      ensures OpenAt(chunk, all, k)
    {
      if k < |events| {
        assert all[..k] == events[..k] && OpenAt(chunk, events, k);
      } else {
        StillWanted(chunk, events, s.wanted);
        assert all[..k] == events;
      }
    }
  }

  lemma StillWanted<A(!new), Q, B>(chunk: seq<A>, events: seq<Event<A, Q, B>>, wanted: set<A>)
    requires forall x :: x in wanted <==> x in Elements(chunk) && !Replied(events, x)
    requires Going(chunk, events) && wanted != {}
    ensures !Over(chunk, events)
  {
    var x :| x in wanted;
  }

  lemma AllReplied<A(!new), Q, B>(chunk: seq<A>, events: seq<Event<A, Q, B>>, wanted: set<A>)
    requires forall x :: x in wanted <==> x in Elements(chunk) && !Replied(events, x)
    requires wanted == {}
    ensures Over(chunk, events)
  {
    forall x | x in Elements(chunk)
      ensures Replied(events, x)
    {
      assert x !in wanted;
    }
  }

  lemma Stops<A(!new), Q(!new), B(!new)>(chunk: seq<A>, events: seq<Event<A, Q, B>>, event: Event<A, Q, B>)
    ensures var all := events + [event];
      && multiset(all)[Reset] == multiset(events)[Reset] + (if event.Reset? then 1 else 0)
      && (event.Malformed? || event.Reply? ==> Going(chunk, all))
      && (event.Reset? && multiset(events)[Reset] < |chunk| ==> Going(chunk, all))
      && (event.Reset? && multiset(events)[Reset] >= |chunk| ==> Over(chunk, all))
      && (event.Timeout? || event.OsError? ==> Over(chunk, all))
  {
    var all := events + [event];
    assert all[|all| - 1] == event;
    assert multiset(all) == multiset(events) + multiset{event};
  }

  /** One read of the loop. */
  lemma {:induction false} ReadAllOnce<A(!new), Q(!new), B(!new)>(net: Network<A, Q, B>,
      honest: (Request<A, Q>, B) -> bool, sock: nat, s: State<A, Q, B>, resets: nat, limit: nat)
    requires Admissible(net, honest) && resets <= limit && s.wanted != {}
    ensures var event := net(sock, s.traffic);
      ReadAll(net, honest, sock, s, resets, limit) ==
        if event.Malformed? || event.Reply? then ReadAll(net, honest, sock, AfterEvent(s, event), resets, limit)
        else if event.Reset? && resets < limit then ReadAll(net, honest, sock, AfterEvent(s, event), resets + 1, limit)
        else AfterEvent(s, event)
    ensures var event := net(sock, s.traffic);
      event.Malformed? || event.Reply? ==> |Outstanding(AfterEvent(s, event).traffic)| < |Outstanding(s.traffic)|
    ensures var event := net(sock, s.traffic);
      event.Reset? ==> |Outstanding(AfterEvent(s, event).traffic)| == |Outstanding(s.traffic)|
  {
    var event := net(sock, s.traffic);
    assert Lawful(event, Outstanding(s.traffic), honest);
    AfterRead(s.traffic, event, NoFaults());
  }

  /** Reading heeds every event and stops at the first point where it is over: neither before nor after. */
  lemma {:induction false} Hears<A(!new), Q(!new), B(!new)>(
      net: Network<A, Q, B>, honest: (Request<A, Q>, B) -> bool, sock: nat, s: State<A, Q, B>, resets: nat,
      start: seq<Action<A, Q, B>>, chunk: seq<A>, before: map<A, B>, events: seq<Event<A, Q, B>>)
    returns (all: seq<Event<A, Q, B>>)
    requires Admissible(net, honest) && SoFar(net, sock, start, chunk, before, events, s) && Going(chunk, events)
    requires resets == multiset(events)[Reset] <= |chunk|
    ensures SoFar(net, sock, start, chunk, before, all, ReadAll(net, honest, sock, s, resets, |chunk|))
    ensures Over(chunk, all)
    decreases |Outstanding(s.traffic)|, |chunk| - resets
  {
    if s.wanted == {} {
      all := events;
      AllReplied(chunk, events, s.wanted);
    } else {
      var event := net(sock, s.traffic);
      var next := AfterEvent(s, event);
      ReadAllOnce(net, honest, sock, s, resets, |chunk|);
      Stops(chunk, events, event);
      HearOne(net, sock, start, chunk, before, events, s, event);
      all := events + [event];
      if event.Malformed? || event.Reply? {
        all := Hears(net, honest, sock, next, resets, start, chunk, before, events + [event]);
      } else if event.Reset? && resets < |chunk| {
        all := Hears(net, honest, sock, next, resets + 1, start, chunk, before, events + [event]);
      }
    }
  }

  // ----- one chunk, one pass, one batch

  /** A chunk fired on a socket after this traffic, and the events then read. */
  datatype ChunkRun<A, Q, B> = ChunkRun(sock: nat, start: seq<Action<A, Q, B>>, chunk: seq<A>,
                                        events: seq<Event<A, Q, B>>)

  ghost predicate ChunkRan<A(!new), Q(!new), B(!new)>(net: Network<A, Q, B>, query: Q, c: ChunkRun<A, Q, B>) {
    && Follows(net, c.sock, c.start + Burst(c.chunk, query), c.events)
    && Over(c.chunk, c.events) && NotBefore(c.chunk, c.events)
  }

  /** The addresses of the chunk that no reply named, in order. */
  ghost function Missed<A, Q, B>(c: ChunkRun<A, Q, B>): seq<A> {
    Without(c.chunk, Noted<A, Q, B>(map[], c.events).Keys)
  }

  ghost function TrafficAfter<A, Q, B>(query: Q, c: ChunkRun<A, Q, B>): seq<Action<A, Q, B>> {
    c.start + Burst(c.chunk, query) + Heard(c.events)
  }

  /** After a chunk answered in full its socket is kept, after any other a new one is taken. */
  ghost function SockAfter<A, Q, B>(c: ChunkRun<A, Q, B>): nat {
    if Missed(c) == [] then c.sock else c.sock + 1
  }

  ghost function StartAfter<A, Q, B>(query: Q, c: ChunkRun<A, Q, B>): seq<Action<A, Q, B>> {
    if Missed(c) == [] then TrafficAfter(query, c) else []
  }

  ghost function Joined<A, Q, B>(chunks: seq<ChunkRun<A, Q, B>>): seq<A> {
    if chunks == [] then [] else Joined(chunks[..|chunks| - 1]) + chunks[|chunks| - 1].chunk
  }

  ghost function AllMissed<A, Q, B>(chunks: seq<ChunkRun<A, Q, B>>): seq<A> {
    if chunks == [] then [] else AllMissed(chunks[..|chunks| - 1]) + Missed(chunks[|chunks| - 1])
  }

  ghost function AllEvents<A, Q, B>(chunks: seq<ChunkRun<A, Q, B>>): seq<Event<A, Q, B>> {
    if chunks == [] then [] else AllEvents(chunks[..|chunks| - 1]) + chunks[|chunks| - 1].events
  }

  ghost predicate Handover<A, Q, B>(query: Q, c: ChunkRun<A, Q, B>, d: ChunkRun<A, Q, B>) {
    d.sock == SockAfter(c) && d.start == StartAfter(query, c)
  }

  /** The i-th chunk starts where the one before it ended. */
  ghost predicate Takeover<A, Q, B>(query: Q, chunks: seq<ChunkRun<A, Q, B>>, i: nat)
    requires 0 < i < |chunks|
  {
    Handover(query, chunks[i - 1], chunks[i])
  }

  /** Chunks run one after the other from this socket on, and none of them longer than allowed. */
  ghost predicate ChunksRan<A(!new), Q(!new), B(!new)>(net: Network<A, Q, B>, query: Q, size: int, sock: nat,
                                                       start: seq<Action<A, Q, B>>, chunks: seq<ChunkRun<A, Q, B>>) {
    && (forall i :: 0 <= i < |chunks| ==> ChunkRanAt(net, query, size, chunks, i))
    && (chunks != [] ==> chunks[0].sock == sock && chunks[0].start == start)
    && (forall i :: 0 < i < |chunks| ==> Takeover(query, chunks, i))
  }

  ghost predicate ChunkRanAt<A(!new), Q(!new), B(!new)>(net: Network<A, Q, B>, query: Q, size: int,
                                                        chunks: seq<ChunkRun<A, Q, B>>, i: nat)
    requires i < |chunks|
  {
    ChunkRan(net, query, chunks[i]) && 1 <= |chunks[i].chunk| <= size
  }

  /** All chunks but the last are full. */
  ghost predicate Full<A, Q, B>(size: int, chunks: seq<ChunkRun<A, Q, B>>) {
    forall i :: 0 <= i < |chunks| - 1 ==> FullAt(size, chunks, i)
  }

  ghost predicate FullAt<A, Q, B>(size: int, chunks: seq<ChunkRun<A, Q, B>>, i: nat)
    requires i < |chunks|
  {
    |chunks[i].chunk| == size
  }

  datatype PassRun<A, Q, B> = PassRun(pass: Pass<A>, chunks: seq<ChunkRun<A, Q, B>>)

  /** The pass cut its addresses into full chunks and a rest, and leaves what these missed. */
  ghost predicate PassRan<A(!new), Q(!new), B(!new)>(net: Network<A, Q, B>, query: Q, sock: nat,
                                                     start: seq<Action<A, Q, B>>, p: PassRun<A, Q, B>) {
    && ChunksRan(net, query, p.pass.size, sock, start, p.chunks) && Full(p.pass.size, p.chunks)
    && Joined(p.chunks) == p.pass.before && AllMissed(p.chunks) == p.pass.after
  }

  lemma ChunkAdded<A(!new), Q(!new), B(!new)>(net: Network<A, Q, B>, query: Q, size: int, sock: nat,
                                              start: seq<Action<A, Q, B>>, chunks: seq<ChunkRun<A, Q, B>>,
                                              c: ChunkRun<A, Q, B>)
    requires ChunksRan(net, query, size, sock, start, chunks) && ChunkRan(net, query, c) && 1 <= |c.chunk| <= size
    requires if chunks == [] then c.sock == sock && c.start == start else Handover(query, chunks[|chunks| - 1], c)
    ensures ChunksRan(net, query, size, sock, start, chunks + [c])
  {
    var all := chunks + [c];
    forall i | 0 < i < |all|
      ensures Takeover(query, all, i)
    {
      assert all[i - 1] == chunks[i - 1];
      if i < |chunks| { assert all[i] == chunks[i] && Takeover(query, chunks, i); }
    }
    forall i | 0 <= i < |all|
      ensures ChunkRanAt(net, query, size, all, i)
    {
      if i < |chunks| { assert all[i] == chunks[i] && ChunkRanAt(net, query, size, chunks, i); }
    }
  }

  lemma Snoced<A, Q, B>(chunks: seq<ChunkRun<A, Q, B>>, c: ChunkRun<A, Q, B>)
    ensures Joined(chunks + [c]) == Joined(chunks) + c.chunk
    ensures AllMissed(chunks + [c]) == AllMissed(chunks) + Missed(c)
    ensures AllEvents(chunks + [c]) == AllEvents(chunks) + c.events
  {
    assert (chunks + [c])[..|chunks|] == chunks;
  }

  ghost function EventsOf<A, Q, B>(passes: seq<PassRun<A, Q, B>>): seq<Event<A, Q, B>> {
    if passes == [] then [] else EventsOf(passes[..|passes| - 1]) + AllEvents(passes[|passes| - 1].chunks)
  }

  /** The next pass takes what the one before left, in chunks half the size but not below 1, from a new socket; and
      there is one only because the one before left something and recovered something. */
  ghost predicate NextRung<A(!new), Q(!new), B(!new)>(net: Network<A, Q, B>, query: Q, p: PassRun<A, Q, B>,
                                                      q: PassRun<A, Q, B>) {
    && q.pass.before == p.pass.after != [] && |p.pass.after| != |p.pass.before|
    && q.pass.size == (if p.pass.size / 2 > 1 then p.pass.size / 2 else 1)
    && p.chunks != [] && PassRan(net, query, SockAfter(p.chunks[|p.chunks| - 1]) + 1, [], q)
  }

  ghost predicate Rung<A(!new), Q(!new), B(!new)>(net: Network<A, Q, B>, query: Q, passes: seq<PassRun<A, Q, B>>,
                                                  k: nat)
    requires 0 < k < |passes|
  {
    NextRung(net, query, passes[k - 1], passes[k])
  }

  /** Passes over these addresses, from this socket on, that leave `pending`. */
  ghost predicate Rungs<A(!new), Q(!new), B(!new)>(net: Network<A, Q, B>, query: Q, asked: seq<A>, batchSize: int,
                                                   sock: nat, start: seq<Action<A, Q, B>>,
                                                   passes: seq<PassRun<A, Q, B>>, pending: seq<A>) {
    && (passes == [] ==> pending == asked)
    && (passes != [] ==>
          && passes[0].pass.before == asked != [] && passes[0].pass.size == (if batchSize > 1 then batchSize else 1)
          && PassRan(net, query, sock, start, passes[0])
          && passes[|passes| - 1].pass.after == pending)
    && (forall k :: 0 < k < |passes| ==> Rung(net, query, passes, k))
  }

  /** The batch ends only when nothing is left, when its last pass recovered nothing, or after the first pass and all
      its retries. */
  ghost predicate Finished<A, Q, B>(retryRounds: int, passes: seq<PassRun<A, Q, B>>, unresolved: seq<A>) {
    && |passes| <= (if retryRounds >= 0 then retryRounds + 1 else 0)
    && (|| unresolved == []
        || (passes != [] && |passes[|passes| - 1].pass.after| == |passes[|passes| - 1].pass.before|)
        || |passes| == (if retryRounds >= 0 then retryRounds + 1 else 0))
  }

  /** A whole batch: what was asked on which socket, its passes, and what came of it. */
  datatype Batch<A(==), Q, B> = Batch(asked: seq<A>, sock: nat, start: seq<Action<A, Q, B>>,
                                      passes: seq<PassRun<A, Q, B>>, replies: map<A, B>, unresolved: seq<A>)

  /** It made these passes, ended when it should, and its replies are those read in all of them. */
  ghost predicate BatchRan<A(!new), Q(!new), B(!new)>(net: Network<A, Q, B>, query: Q, batchSize: int, retryRounds: int,
                                                      b: Batch<A, Q, B>) {
    && Rungs(net, query, b.asked, batchSize, b.sock, b.start, b.passes, b.unresolved)
    && Finished(retryRounds, b.passes, b.unresolved)
    && b.replies == Noted(map[], EventsOf(b.passes))
  }

  ghost function Plain<A, Q, B>(passes: seq<PassRun<A, Q, B>>): seq<Pass<A>> {
    seq(|passes|, i requires 0 <= i < |passes| => passes[i].pass)
  }

  lemma PassAdded<A(!new), Q(!new), B(!new)>(net: Network<A, Q, B>, query: Q, asked: seq<A>, batchSize: int, sock: nat,
                                             start: seq<Action<A, Q, B>>, passes: seq<PassRun<A, Q, B>>,
                                             pending: seq<A>, p: PassRun<A, Q, B>)
    requires Rungs(net, query, asked, batchSize, sock, start, passes, pending) && p.pass.before == pending != []
    requires passes == [] ==>
      PassRan(net, query, sock, start, p) && p.pass.size == (if batchSize > 1 then batchSize else 1)
    requires passes != [] ==> NextRung(net, query, passes[|passes| - 1], p)
    ensures Rungs(net, query, asked, batchSize, sock, start, passes + [p], p.pass.after)
  {
    var all := passes + [p];
    forall k | 0 < k < |all|
      ensures Rung(net, query, all, k)
    {
      assert all[k - 1] == passes[k - 1];
      if k < |passes| { assert all[k] == passes[k] && Rung(net, query, passes, k); }
    }
  }

  lemma PassesSnoced<A, Q, B>(passes: seq<PassRun<A, Q, B>>, p: PassRun<A, Q, B>)
    ensures EventsOf(passes + [p]) == EventsOf(passes) + AllEvents(p.chunks)
    ensures Plain(passes + [p]) == Plain(passes) + [p.pass]
  {
    assert (passes + [p])[..|passes|] == passes;
  }
}
