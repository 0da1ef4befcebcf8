/** The UDP request/reply client of wing_parser/net/client.py: one request, or a pipelined batch with
    retries on rotated sockets. */
module Client {
  import opened Results
  import opened SharedMaps
  import opened Wire
  import opened Sequences
  import opened Ladder
  import opened Reading
  import opened Traces

  datatype BatchResult<A(==), B> = BatchResult(replies: map<A, B>, unresolved: seq<A>)

  /** A chunk fired on a socket that owed nothing. */
  lemma CleanChunk<A(!new), Q(!new), B(!new)>(net: Network<A, Q, B>, honest: (Request<A, Q>, B) -> bool, sock: nat,
                                              start: seq<Action<A, Q, B>>, chunk: seq<A>, before: map<A, B>, query: Q)
    requires Admissible(net, honest) && Distinct(chunk)
    requires Elements(chunk) !! before.Keys
    requires Outstanding(start) == multiset{}
    ensures var done := ReadAll(net, honest, sock, State(start + Burst(chunk, query), Elements(chunk), before), 0,
                                |chunk|);
      var missing := Without(chunk, Elements(chunk) - done.wanted);
      && missing == Without(chunk, done.entries.Keys)
      && Answered(before, done.entries, Elements(chunk), query, honest)
      && (missing == [] ==> Outstanding(done.traffic) == multiset{})
  {
    var sent := State(start + Burst(chunk, query), Elements(chunk), before);
    var done := ReadAll(net, honest, sock, sent, 0, |chunk|);
    AccountOpened(start, chunk, before, query, honest);
    CleanReading(net, honest, sock, sent, 0, |chunk|, before, chunk, query);
    AccountClosed(done, before, chunk, query, honest);
  }

  lemma AccountOpened<A(!new), Q(!new), B(!new)>(start: seq<Action<A, Q, B>>, chunk: seq<A>, before: map<A, B>,
                                                 query: Q,
                                                 honest: (Request<A, Q>, B) -> bool)
    requires Distinct(chunk) && Elements(chunk) !! before.Keys
    requires Outstanding(start) == multiset{}
    ensures Accounted(State(start + Burst(chunk, query), Elements(chunk), before), before, chunk, query, honest)
  {
    BurstOutstanding(start, chunk, query);
  }

  lemma AccountClosed<A(!new), Q(!new), B(!new)>(done: State<A, Q, B>, before: map<A, B>, chunk: seq<A>, query: Q,
                                                 honest: (Request<A, Q>, B) -> bool)
    requires Accounted(done, before, chunk, query, honest)
    ensures var missing := Without(chunk, Elements(chunk) - done.wanted);
      && missing == Without(chunk, done.entries.Keys)
      && (missing == [] ==> Outstanding(done.traffic) == multiset{})
  {
    WithoutAgrees(chunk, Elements(chunk) - done.wanted, done.entries.Keys);
    AllAnswered(chunk, done.wanted);
    RequestsNone(done.wanted, query);
  }

  lemma AllAnswered<A(!new)>(chunk: seq<A>, wanted: set<A>)
    requires wanted <= Elements(chunk)
    ensures Without(chunk, Elements(chunk) - wanted) == [] ==> wanted == {}
  {
    WithoutMembers(chunk, Elements(chunk) - wanted);
    assert Elements<A>([]) == {};
  }

  /** The same chunk in the poison model. */
  lemma PoisonedChunk<A(!new), Q(!new), B(!new)>(net: Network<A, Q, B>, honest: (Request<A, Q>, B) -> bool, sock: nat,
                                                 start: seq<Action<A, Q, B>>, chunk: seq<A>, before: map<A, B>,
                                                 query: Q, faults: Faults<A, Q>)
    requires Admissible(net, honest) && Poisoned(net, faults, honest) && Distinct(chunk)
    requires !PoisonSent(start, faults.poison) && Deliverable(start, faults) == multiset{}
    ensures var done := ReadAll(net, honest, sock, State(start + Burst(chunk, query), Elements(chunk), before), 0,
                                |chunk|);
      var lost := Lost(chunk, faults.Poison(query), faults.Absent(query));
      && Without(chunk, Elements(chunk) - done.wanted) == lost
      && Deliverable(done.traffic, faults) == multiset{}
      && (lost == [] ==> !PoisonSent(done.traffic, faults.poison))
  {
    var sent := State(start + Burst(chunk, query), Elements(chunk), before);
    var done := ReadAll(net, honest, sock, sent, 0, |chunk|);
    var poison, absent := faults.Poison(query), faults.Absent(query);
    var live := Live(chunk, poison, absent);
    BurstDeliverable(start, chunk, query, faults);
    BurstPoison(start, chunk, query, faults);
    assert Elements(chunk) * live == live;
    PoisonedReading(net, honest, sock, sent, 0, |chunk|, query, faults, live);
    WithoutAgrees(chunk, Elements(chunk) - done.wanted, live);
    LostIsNotLive(chunk, poison, absent);
    PoisonIsLost(chunk, poison, absent);
  }

  lemma {:induction false} PoisonIsLost<A(!new)>(chunk: seq<A>, poison: iset<A>, absent: iset<A>)
    ensures Lost(chunk, poison, absent) == [] ==> Within(chunk, poison) == []
  {
    if chunk != [] && chunk[0] !in poison {
      PoisonIsLost(chunk[1..], poison, absent);
    }
  }

  /** The account of a pass grows chunk by chunk: a later chunk does not touch what was left before it. */
  lemma {:induction false} ExtendPass<A(!new), Q, B(!new)>(
      addresses: seq<A>, start: nat, end: nat, before: map<A, B>, entries: map<A, B>,
                                   entries': map<A, B>, query: Q, honest: (Request<A, Q>, B) -> bool)
    requires Distinct(addresses) && start <= end <= |addresses|
    requires Elements(addresses) !! before.Keys
    requires Answered(before, entries, Elements(addresses[..start]), query, honest)
    ensures Elements(addresses[start..end]) !! entries.Keys
    ensures Answered(entries, entries', Elements(addresses[start..end]), query, honest) ==>
      && Answered(before, entries', Elements(addresses[..end]), query, honest)
      && Without(addresses[..end], entries'.Keys) ==
           Without(addresses[..start], entries.Keys) + Without(addresses[start..end], entries'.Keys)
  {
    var done, chunk := addresses[..start], addresses[start..end];
    Slices(addresses, start, end);
    Slices(addresses, start, start);
    assert Elements(chunk) <= Elements(addresses[..end]) <= Elements(addresses);
    if Answered(entries, entries', Elements(chunk), query, honest) {
      WithoutConcat(done, chunk, entries'.Keys);
      WithoutAgrees(done, entries.Keys, entries'.Keys);
    }
  }

  lemma PassStep<A(!new)>(addresses: seq<A>, start: nat, end: nat, size: int, poison: iset<A>,
                                             absent: iset<A>)
    requires size >= 1 && start < |addresses|
    requires end == if start + size < |addresses| then start + size else |addresses|
    ensures PassLost(addresses[start..], size, poison, absent) ==
            Lost(addresses[start..end], poison, absent) + PassLost(addresses[end..], size, poison, absent)
  {
    assert addresses[start..] == addresses[start..end] + addresses[end..];
    PassSplit(addresses[start..end], addresses[end..], size, poison, absent);
  }

  /** What is still open after some answers, and that the answers so far are honest and asked for. */
  ghost predicate Open<A(!new), Q, B(!new)>(asked: seq<A>, entries: map<A, B>, pending: seq<A>, query: Q,
                                            honest: (Request<A, Q>, B) -> bool) {
    && pending == Without(asked, entries.Keys)
    && Answered(map[], entries, Elements(asked), query, honest)
  }

  /** A further pass over what was open answers only what was open. */
  lemma StillOpen<A(!new), Q, B(!new)>(asked: seq<A>, entries: map<A, B>, pending: seq<A>, entries': map<A, B>,
                                       pending': seq<A>,
                                       query: Q, honest: (Request<A, Q>, B) -> bool)
    requires Open(asked, entries, pending, query, honest)
    requires pending' == Without(pending, entries'.Keys)
    requires Answered(entries, entries', Elements(pending), query, honest)
    ensures Open(asked, entries', pending', query, honest)
  {
    WithoutMembers(asked, entries.Keys);
    WithoutTwice(asked, entries.Keys, entries'.Keys);
    assert entries.Keys + entries'.Keys == entries'.Keys;
  }

  /** What the equation for `unresolved` says in plain words: the replies and the unresolved addresses
      split the requested ones, none twice. */
  lemma Partition<A(!new), Q, B(!new)>(asked: seq<A>, result: BatchResult<A, B>, query: Q,
                                       honest: (Request<A, Q>, B) -> bool)
    requires Distinct(asked)
    requires result.unresolved == Without(asked, result.replies.Keys)
    requires Answered(map[], result.replies, Elements(asked), query, honest)
    ensures Elements(result.unresolved) !! result.replies.Keys
    ensures Elements(result.unresolved) + result.replies.Keys == Elements(asked)
    ensures Distinct(result.unresolved)
    ensures forall x :: x in result.replies ==> honest(Request(x, query), result.replies[x])
  {
    WithoutMembers(asked, result.replies.Keys);
  }

  /** What the events of a fired chunk do: they are the network's, reading stops at the first point where it is over,
      and what is still wanted is what no reply named. */
  lemma ChunkHeard<A(!new), Q(!new), B(!new)>(net: Network<A, Q, B>, honest: (Request<A, Q>, B) -> bool, sock: nat,
                                              start: seq<Action<A, Q, B>>, chunk: seq<A>, before: map<A, B>, query: Q)
    returns (run: ChunkRun<A, Q, B>)
    requires Admissible(net, honest)
    ensures run.sock == sock && run.start == start && run.chunk == chunk && ChunkRan(net, query, run)
    ensures var done := ReadAll(net, honest, sock, State(start + Burst(chunk, query), Elements(chunk), before), 0,
                                |chunk|);
      && done.traffic == TrafficAfter(query, run) && done.entries == Noted(before, run.events)
      && Without(chunk, Elements(chunk) - done.wanted) == Missed(run)
  {
    var fired := start + Burst(chunk, query);
    var sent := State(fired, Elements(chunk), before);
    assert fired + Heard<A, Q, B>([]) == fired;
    var events := Hears(net, honest, sock, sent, 0, fired, chunk, before, []);
    run := ChunkRun(sock, start, chunk, events);
    MissedAreWanted(run, ReadAll(net, honest, sock, sent, 0, |chunk|).wanted);
  }

  lemma MissedAreWanted<A(!new), Q, B>(run: ChunkRun<A, Q, B>, wanted: set<A>)
    requires forall x :: x in wanted <==> x in Elements(run.chunk) && !Replied(run.events, x)
    ensures Without(run.chunk, Elements(run.chunk) - wanted) == Missed(run)
  {
    var named := Noted<A, Q, B>(map[], run.events).Keys;
    forall x | x in Elements(run.chunk)
      ensures x in Elements(run.chunk) - wanted <==> x in named
    {
      NotedKeys<A, Q, B>(map[], run.events, x);
    }
    WithoutAgrees(run.chunk, Elements(run.chunk) - wanted, named);
  }

  /** Why reading ended, in plain words. */
  ghost predicate EndedBecause<A(!new), Q, B>(chunk: seq<A>, events: seq<Event<A, Q, B>>) {
    || (forall x :: x in Elements(chunk) ==> Replied(events, x))
    || (events != [] && (var last := events[|events| - 1];
          last.Timeout? || last.OsError? || (last.Reset? && multiset(events)[Reset] > |chunk|)))
  }

  /** And that it had no reason to end before. */
  ghost predicate WentOn<A(!new), Q, B>(chunk: seq<A>, events: seq<Event<A, Q, B>>) {
    && (forall k :: 0 <= k < |events| ==> SomeWanted(chunk, events[..k]))
    && (forall k :: 0 <= k < |events| - 1 ==> Tolerable(chunk, events, k))
  }

  ghost predicate SomeWanted<A(!new), Q, B>(chunk: seq<A>, events: seq<Event<A, Q, B>>) {
    exists x :: x in Elements(chunk) && !Replied(events, x)
  }

  ghost predicate Tolerable<A(!new), Q, B>(chunk: seq<A>, events: seq<Event<A, Q, B>>, k: nat)
    requires k < |events|
  {
    && !events[k].Timeout? && !events[k].OsError?
    && (events[k].Reset? ==> multiset(events[..k + 1])[Reset] <= |chunk|)
  }

  lemma ReadingWentOn<A(!new), Q(!new), B(!new)>(net: Network<A, Q, B>, query: Q, run: ChunkRun<A, Q, B>)
    requires ChunkRan(net, query, run)
    ensures EndedBecause(run.chunk, run.events) && WentOn(run.chunk, run.events)
  {
    forall k | 0 <= k < |run.events| - 1
      ensures Tolerable(run.chunk, run.events, k)
    {
      NotFatalYet(net, query, run, k);
    }
    forall k | 0 <= k < |run.events|
      ensures SomeWanted(run.chunk, run.events[..k])
    {
      assert OpenAt(run.chunk, run.events, k);
    }
  }

  lemma NotFatalYet<A(!new), Q(!new), B(!new)>(net: Network<A, Q, B>, query: Q, run: ChunkRun<A, Q, B>, k: nat)
    requires ChunkRan(net, query, run) && k < |run.events| - 1
    ensures Tolerable(run.chunk, run.events, k)
  {
    var shorter := run.events[..k + 1];
    assert OpenAt(run.chunk, run.events, k + 1);
    assert shorter[|shorter| - 1] == run.events[k];
  }

  /** An address that no reply named is missing, and only such an one. */
  lemma MissedAre<A(!new), Q, B>(run: ChunkRun<A, Q, B>, x: A)
    ensures x in Elements(Missed(run)) <==> x in Elements(run.chunk) && !Replied(run.events, x)
  {
    WithoutMembers(run.chunk, Noted<A, Q, B>(map[], run.events).Keys);
    NotedKeys<A, Q, B>(map[], run.events, x);
  }

  /** In the poison model the batch stands on its ladder after these passes. */
  ghost predicate OnLadder<A(!new), Q(!new)>(total: Run<A>, done: seq<Pass<A>>, pending: seq<A>, size: int, left: int,
                                             query: Q, faults: Faults<A, Q>)
    requires size >= 1
  {
    Climbing(total, done, pending, size, left, faults.Poison(query), faults.Absent(query))
  }

  /** A pass in its middle: the chunks fired cover the first `start` addresses. */
  ghost predicate PassSoFar<A(!new), Q(!new), B(!new)>(
      net: Network<A, Q, B>, query: Q, size: int, sock: nat, traffic: seq<Action<A, Q, B>>, addresses: seq<A>,
      start: nat, chunks: seq<ChunkRun<A, Q, B>>, pending: seq<A>)
    requires start <= |addresses|
  {
    && ChunksRan(net, query, size, sock, traffic, chunks) && Full(size, chunks)
    && (start < |addresses| ==> AllFull(size, chunks))
    && Joined(chunks) == addresses[..start] && AllMissed(chunks) == pending
  }

  ghost predicate AllFull<A, Q, B>(size: int, chunks: seq<ChunkRun<A, Q, B>>) {
    forall i :: 0 <= i < |chunks| ==> FullAt(size, chunks, i)
  }

  /** The socket in use after these chunks. */
  ghost predicate AtSocket<A(!new), Q(!new), B(!new)>(query: Q, chunks: seq<ChunkRun<A, Q, B>>, sock0: nat,
                                                      traffic0: seq<Action<A, Q, B>>, sock: nat,
                                                      traffic: seq<Action<A, Q, B>>) {
    if chunks == [] then sock == sock0 && traffic == traffic0
    else sock == SockAfter(chunks[|chunks| - 1]) && traffic == StartAfter(query, chunks[|chunks| - 1])
  }

  lemma OneMoreFull<A, Q, B>(size: int, chunks: seq<ChunkRun<A, Q, B>>, run: ChunkRun<A, Q, B>)
    requires AllFull(size, chunks)
    ensures Full(size, chunks + [run]) && (|run.chunk| == size ==> AllFull(size, chunks + [run]))
  {
    var all := chunks + [run];
    forall i | 0 <= i < |chunks|
      ensures FullAt(size, all, i)
    {
      assert all[i] == chunks[i] && FullAt(size, chunks, i);
    }
  }

  lemma NextChunk<A(!new), Q(!new), B(!new)>(
      net: Network<A, Q, B>, query: Q, size: int, sock: nat, traffic: seq<Action<A, Q, B>>, addresses: seq<A>,
      start: nat, end: nat, chunks: seq<ChunkRun<A, Q, B>>, pending: seq<A>, run: ChunkRun<A, Q, B>)
    requires size >= 1 && start < |addresses|
    requires end == if start + size < |addresses| then start + size else |addresses|
    requires PassSoFar(net, query, size, sock, traffic, addresses, start, chunks, pending)
    requires ChunkRan(net, query, run) && run.chunk == addresses[start..end]
    requires AtSocket(query, chunks, sock, traffic, run.sock, run.start)
    ensures PassSoFar(net, query, size, sock, traffic, addresses, end, chunks + [run], pending + Missed(run))
  {
    ChunkAdded(net, query, size, sock, traffic, chunks, run);
    Snoced(chunks, run);
    OneMoreFull(size, chunks, run);
    Slices(addresses, start, end);
  }

  /** The whole account of a pass in its middle: what was sent and read; on a socket in good order what is open; in the
      poison model what will be lost. */
  datatype Midpass<A, Q, B> = Midpass(start: nat, chunks: seq<ChunkRun<A, Q, B>>, pending: seq<A>, entries: map<A, B>)

  ghost predicate Traced<A(!new), Q(!new), B(!new)>(
      net: Network<A, Q, B>, query: Q, size: int, sock: nat, traffic: seq<Action<A, Q, B>>, addresses: seq<A>,
      before: map<A, B>, m: Midpass<A, Q, B>)
  {
    && m.start <= |addresses|
    && PassSoFar(net, query, size, sock, traffic, addresses, m.start, m.chunks, m.pending)
    && m.entries == Noted(before, AllEvents(m.chunks))
  }

  ghost predicate StillSound<A(!new), Q(!new), B(!new)>(query: Q, honest: (Request<A, Q>, B) -> bool, addresses: seq<A>,
                                                        before: map<A, B>, m: Midpass<A, Q, B>) {
    && m.start <= |addresses| && m.pending == Without(addresses[..m.start], m.entries.Keys)
    && Answered(before, m.entries, Elements(addresses[..m.start]), query, honest)
  }

  ghost predicate StillModel<A(!new), Q(!new), B(!new)>(query: Q, faults: Faults<A, Q>, size: int, addresses: seq<A>,
                                                        m: Midpass<A, Q, B>)
    requires size >= 1
  {
    && m.start <= |addresses|
    && m.pending + PassLost(addresses[m.start..], size, faults.Poison(query), faults.Absent(query)) ==
         PassLost(addresses, size, faults.Poison(query), faults.Absent(query))
  }

  /** The account after one more chunk. */
  ghost function Onward<A, Q, B>(m: Midpass<A, Q, B>, end: nat, run: ChunkRun<A, Q, B>, entries: map<A, B>)
    : Midpass<A, Q, B>
  {
    Midpass(end, m.chunks + [run], m.pending + Missed(run), entries)
  }

  lemma TracedOn<A(!new), Q(!new), B(!new)>(
      net: Network<A, Q, B>, query: Q, size: int, sock: nat, traffic: seq<Action<A, Q, B>>, addresses: seq<A>,
      before: map<A, B>, m: Midpass<A, Q, B>, end: nat, run: ChunkRun<A, Q, B>, entries: map<A, B>)
    requires size >= 1 && m.start < |addresses|
    requires end == if m.start + size < |addresses| then m.start + size else |addresses|
    requires Traced(net, query, size, sock, traffic, addresses, before, m)
    requires ChunkRan(net, query, run) && run.chunk == addresses[m.start..end]
    requires AtSocket(query, m.chunks, sock, traffic, run.sock, run.start)
    requires entries == Noted(m.entries, run.events)
    ensures Traced(net, query, size, sock, traffic, addresses, before, Onward(m, end, run, entries))
  {
    NextChunk(net, query, size, sock, traffic, addresses, m.start, end, m.chunks, m.pending, run);
    Snoced(m.chunks, run);
    NotedConcat(before, AllEvents(m.chunks), run.events);
  }

  lemma NextIsOpen<A(!new), Q(!new), B(!new)>(query: Q, honest: (Request<A, Q>, B) -> bool, addresses: seq<A>,
                                              before: map<A, B>, m: Midpass<A, Q, B>, end: nat)
    requires Distinct(addresses) && Elements(addresses) !! before.Keys
    requires m.start <= end <= |addresses| && StillSound(query, honest, addresses, before, m)
    ensures Distinct(addresses[m.start..end]) && Elements(addresses[m.start..end]) !! m.entries.Keys
  {
    Slices(addresses, m.start, end);
    ExtendPass(addresses, m.start, end, before, m.entries, m.entries, query, honest);
  }

  lemma SoundOn<A(!new), Q(!new), B(!new)>(
      query: Q, honest: (Request<A, Q>, B) -> bool, addresses: seq<A>, before: map<A, B>, m: Midpass<A, Q, B>, end: nat,
      run: ChunkRun<A, Q, B>, entries: map<A, B>)
    requires Distinct(addresses) && Elements(addresses) !! before.Keys
    requires m.start <= end <= |addresses| && StillSound(query, honest, addresses, before, m)
    requires Missed(run) == Without(addresses[m.start..end], entries.Keys)
    requires Answered(m.entries, entries, Elements(addresses[m.start..end]), query, honest)
    ensures StillSound(query, honest, addresses, before, Onward(m, end, run, entries))
  {
    ExtendPass(addresses, m.start, end, before, m.entries, entries, query, honest);
  }

  lemma ModelOn<A(!new), Q(!new), B(!new)>(query: Q, faults: Faults<A, Q>, size: int, addresses: seq<A>,
                                           m: Midpass<A, Q, B>, end: nat, run: ChunkRun<A, Q, B>, entries: map<A, B>)
    requires size >= 1 && m.start < |addresses|
    requires end == if m.start + size < |addresses| then m.start + size else |addresses|
    requires StillModel(query, faults, size, addresses, m)
    requires Missed(run) == Lost(addresses[m.start..end], faults.Poison(query), faults.Absent(query))
    ensures StillModel(query, faults, size, addresses, Onward(m, end, run, entries))
  {
    var poison, absent := faults.Poison(query), faults.Absent(query);
    PassStep(addresses, m.start, end, size, poison, absent);
    Regroup(m.pending, Missed(run), PassLost(addresses[end..], size, poison, absent));
  }

  lemma PassStarts<A(!new), Q(!new), B(!new)>(
      net: Network<A, Q, B>, query: Q, honest: (Request<A, Q>, B) -> bool, faults: Faults<A, Q>, size: int, sock: nat,
      traffic: seq<Action<A, Q, B>>, addresses: seq<A>, before: map<A, B>)
    requires size >= 1
    ensures var m: Midpass<A, Q, B> := Midpass(0, [], [], before);
      && Traced(net, query, size, sock, traffic, addresses, before, m)
      && StillSound(query, honest, addresses, before, m) && StillModel(query, faults, size, addresses, m)
  {
    assert addresses[0..] == addresses && addresses[..0] == [];
    var all := PassLost(addresses, size, faults.Poison(query), faults.Absent(query));
    assert [] + all == all;
  }

  lemma PassEnds<A(!new), Q(!new), B(!new)>(
      net: Network<A, Q, B>, query: Q, honest: (Request<A, Q>, B) -> bool, faults: Faults<A, Q>, size: int, sock: nat,
      traffic: seq<Action<A, Q, B>>, addresses: seq<A>, before: map<A, B>, m: Midpass<A, Q, B>)
    requires size >= 1 && m.start == |addresses| && Traced(net, query, size, sock, traffic, addresses, before, m)
    ensures PassRan(net, query, sock, traffic, PassRun(Pass(size, addresses, m.pending), m.chunks))
    ensures StillSound(query, honest, addresses, before, m) ==>
      && m.pending == Without(addresses, m.entries.Keys)
      && Answered(before, m.entries, Elements(addresses), query, honest)
    ensures StillModel(query, faults, size, addresses, m) ==>
      m.pending == PassLost(addresses, size, faults.Poison(query), faults.Absent(query))
  {
    assert addresses[..m.start] == addresses && addresses[m.start..] == [];
    assert m.pending + [] == m.pending;
  }

  /** The chunk size of the next round. */
  function NextSize(roundIndex: nat, chunkSize: int): int {
    if roundIndex == 0 then chunkSize else Max(1, chunkSize / 2)
  }

  /** A batch between two rounds. */
  ghost predicate BetweenRounds<A(!new), Q(!new), B(!new)>(
      net: Network<A, Q, B>, query: Q, asked: seq<A>, batchSize: int, sock0: nat, traffic0: seq<Action<A, Q, B>>,
      passes: seq<PassRun<A, Q, B>>, pending: seq<A>, chunkSize: int, sock: nat, traffic: seq<Action<A, Q, B>>,
      entries: map<A, B>)
  {
    && Rungs(net, query, asked, batchSize, sock0, traffic0, passes, pending)
    && entries == Noted(map[], EventsOf(passes))
    && if passes == [] then chunkSize == Max(1, batchSize) && sock == sock0 && traffic == traffic0
       else var p := passes[|passes| - 1];
         p.pass.size == chunkSize && p.chunks != [] && sock == SockAfter(p.chunks[|p.chunks| - 1])
  }

  lemma AnotherRound<A(!new), Q(!new), B(!new)>(
      net: Network<A, Q, B>, query: Q, asked: seq<A>, batchSize: int, sock0: nat, traffic0: seq<Action<A, Q, B>>,
      passes: seq<PassRun<A, Q, B>>, pending: seq<A>, chunkSize: int, sock: nat, traffic: seq<Action<A, Q, B>>,
      entries: map<A, B>, p: PassRun<A, Q, B>, sock': nat, traffic': seq<Action<A, Q, B>>, entries': map<A, B>)
    requires BetweenRounds(net, query, asked, batchSize, sock0, traffic0, passes, pending, chunkSize, sock, traffic,
                           entries)
    requires pending != [] && chunkSize >= 1
    requires passes != [] ==> |passes[|passes| - 1].pass.after| != |passes[|passes| - 1].pass.before|
    requires p.pass.before == pending && p.pass.size == NextSize(|passes|, chunkSize)
    requires PassRan(net, query, if passes == [] then sock else sock + 1, if passes == [] then traffic else [], p)
    requires p.chunks != [] ==> sock' == SockAfter(p.chunks[|p.chunks| - 1])
    requires entries' == Noted(entries, AllEvents(p.chunks))
    ensures BetweenRounds(net, query, asked, batchSize, sock0, traffic0, passes + [p], p.pass.after, p.pass.size,
                          sock', traffic', entries')
  {
    assert p.chunks != [];
    if passes != [] {
      assert passes[|passes| - 1].pass.after == pending;
      assert NextRung(net, query, passes[|passes| - 1], p);
    }
    PassAdded(net, query, asked, batchSize, sock0, traffic0, passes, pending, p);
    PassesSnoced(passes, p);
    NotedConcat(map[], EventsOf(passes), AllEvents(p.chunks));
  }

  /** Before the first round. */
  lemma BatchStarts<A(!new), Q(!new), B(!new)>(
      net: Network<A, Q, B>, query: Q, honest: (Request<A, Q>, B) -> bool, asked: seq<A>, batchSize: int, sock: nat,
      traffic: seq<Action<A, Q, B>>)
    ensures BetweenRounds(net, query, asked, batchSize, sock, traffic, [], asked, Max(1, batchSize), sock, traffic,
                          map[])
    ensures Open(asked, map[], asked, query, honest)
    ensures Plain<A, Q, B>([]) == []
  {
    var none: map<A, B> := map[];
    WithoutNone(asked, none.Keys);
  }

  /** After the last. */
  lemma BatchEnds<A(!new), Q(!new), B(!new)>(
      net: Network<A, Q, B>, query: Q, asked: seq<A>, batchSize: int, retryRounds: int, sock0: nat,
      traffic0: seq<Action<A, Q, B>>, passes: seq<PassRun<A, Q, B>>, pending: seq<A>, chunkSize: int, sock: nat,
      traffic: seq<Action<A, Q, B>>, entries: map<A, B>)
    requires BetweenRounds(net, query, asked, batchSize, sock0, traffic0, passes, pending, chunkSize, sock, traffic,
                           entries)
    requires Finished(retryRounds, passes, pending)
    ensures BatchRan(net, query, batchSize, retryRounds, Batch(asked, sock0, traffic0, passes, entries, pending))
  {
  }

  lemma LadderStarts<A>(asked: seq<A>, size: int, left: int, poison: iset<A>, absent: iset<A>)
    requires size >= 1
    ensures Climbing(Climb(asked, size, left, poison, absent), [], asked, size, left, poison, absent)
  {
    var passes := Climb(asked, size, left, poison, absent).passes;
    assert [] + passes == passes;
  }

  lemma PlainPremature<A, Q, B>(passes: seq<PassRun<A, Q, B>>, poison: iset<A>, absent: iset<A>)
    ensures (forall pass :: pass in Plain(passes) ==> !Premature(pass, poison, absent))
            <==> (forall i :: 0 <= i < |passes| ==> !Premature(passes[i].pass, poison, absent))
  {
    forall i | 0 <= i < |passes|
      ensures passes[i].pass in Plain(passes)
    {
      assert Plain(passes)[i] == passes[i].pass;
    }
  }

  /** A batch whose passes are those of its ladder isolates the silent addresses exactly when no pass was premature. */
  lemma LadderIsolates<A, Q, B>(asked: seq<A>, batchSize: int, retryRounds: nat, unresolved: seq<A>,
                                passes: seq<PassRun<A, Q, B>>, poison: iset<A>, absent: iset<A>)
    requires Max(1, batchSize) < Pow2(retryRounds + 1)
    requires Run(unresolved, Plain(passes)) == Climb(asked, Max(1, batchSize), retryRounds + 1, poison, absent)
    ensures Isolated(asked, unresolved, passes, poison, absent)
  {
    Isolation(asked, Max(1, batchSize), retryRounds + 1, poison, absent);
    PlainPremature(passes, poison, absent);
  }

  /** What is left are exactly the addresses that never answer on their own account, unless some pass stalled although
      an answerable one was pending. */
  ghost predicate Isolated<A, Q, B>(asked: seq<A>, unresolved: seq<A>, passes: seq<PassRun<A, Q, B>>, poison: iset<A>,
                                    absent: iset<A>) {
    unresolved == Silent(asked, poison, absent)
    <==> forall i :: 0 <= i < |passes| ==> !Premature(passes[i].pass, poison, absent)
  }

  /** One round on the ladder. */
  lemma LadderOn<A(!new), Q(!new), B>(total: Run<A>, passes: seq<PassRun<A, Q, B>>, p: PassRun<A, Q, B>, size: int,
                                      left: int, query: Q, faults: Faults<A, Q>)
    requires size >= 1 && left >= 1 && p.pass.size == size && p.pass.before != []
    requires p.pass.after == PassLost(p.pass.before, size, faults.Poison(query), faults.Absent(query))
    requires OnLadder(total, Plain(passes), p.pass.before, size, left, query, faults)
    ensures if |p.pass.after| == |p.pass.before| then total == Run(p.pass.after, Plain(passes + [p]))
            else OnLadder(total, Plain(passes + [p]), p.pass.after, Max(1, size / 2), left - 1, query, faults)
  {
    PassesSnoced(passes, p);
    ClimbOn(total, Plain(passes), p.pass.before, size, left, p.pass.after, faults.Poison(query), faults.Absent(query));
  }

  class WingClient<A(==,!new), Q(==,!new), B(!new)> {
    const net: Network<A, Q, B>
    ghost const honest: (Request<A, Q>, B) -> bool
    var sock: nat
    var traffic: seq<Action<A, Q, B>>

    ghost predicate Trustworthy() {
      Admissible(net, honest)
    }

    /** No datagram is still due on the current socket. */
    ghost predicate Clean()
      reads this
    {
      Outstanding(traffic) == multiset{}
    }

    /** In the poison model: nothing due, and no poison sent on this socket yet. */
    ghost predicate Healthy(faults: Faults<A, Q>)
      reads this
    {
      Deliverable(traffic, faults) == multiset{} && !PoisonSent(traffic, faults.poison)
    }

    constructor (net: Network<A, Q, B>, ghost honest: (Request<A, Q>, B) -> bool)
      ensures this.net == net && this.honest == honest
      ensures sock == 0 && traffic == []
      ensures Clean() && forall faults :: Healthy(faults)
    {
      this.net := net;
      this.honest := honest;
      sock := 0;
      traffic := [];
    }

    method SendTo(request: Request<A, Q>)
      modifies this`traffic
      ensures traffic == old(traffic) + [Sent(request)]
    {
      traffic := traffic + [Sent(request)];
    }

    method ReceiveFrom() returns (event: Event<A, Q, B>)
      modifies this`traffic
      ensures event == net(sock, old(traffic))
      ensures traffic == old(traffic) + [Received(event)]
    {
      event := net(sock, traffic);
      traffic := traffic + [Received(event)];
    }

    /** A new socket: nothing was sent on it, so nothing can arrive on it. */
    method Rotate()
      modifies this
      ensures sock == old(sock) + 1 && traffic == []
      ensures Clean() && forall faults :: Healthy(faults)
    {
      sock := sock + 1;
      traffic := [];
    }

    /** One request and one read: the answer is whatever arrives, and anything else is a miss. On a clean socket an
        answer is the answer to the request, and the socket is clean again exactly when a datagram came back, be it
        malformed: a request that timed out leaves the socket owing. */
    method Ask(address: A, query: Q) returns (reply: Option<(A, B)>, ghost event: Event<A, Q, B>)
      requires Trustworthy()
      modifies this`traffic
      ensures event == net(sock, old(traffic) + [Sent(Request(address, query))])
      ensures traffic == old(traffic) + [Sent(Request(address, query))] + [Received(event)]
      ensures reply == if event.Reply? then Some((event.re.address, event.body)) else None
      ensures old(Clean()) && reply.Some? ==> reply.value.0 == address && honest(Request(address, query), reply.value.1)
      ensures old(Clean()) ==> (Clean() <==> event.Reply? || event.Malformed?)
    {
      ghost var before := traffic;
      SendTo(Request(address, query));
      assert traffic[..|before|] == before;
      ghost var asked := traffic;
      assert Lawful(net(sock, asked), Outstanding(asked), honest);
      var outcome := ReceiveFrom();
      event := outcome;
      assert traffic[..|asked|] == asked;
      match outcome
      case Reply(re, body) => reply := Some((re.address, body));
      case _ => reply := None;
    }

    /** The reading half of `SendAndCollect`; one reset a send is tolerated, a malformed datagram is skipped. */
    method ReadReplies(chunk: seq<A>, replies: SharedMap<A, B>) returns (wanted: set<A>)
      requires Trustworthy()
      modifies this`traffic, replies
      ensures State(traffic, wanted, replies.entries) ==
              ReadAll(net, honest, sock, State(old(traffic), Elements(chunk), old(replies.entries)), 0, |chunk|)
    {
      ghost var done := ReadAll(net, honest, sock, State(traffic, Elements(chunk), replies.entries), 0, |chunk|);
      wanted := Elements(chunk);
      var resets := 0;
      while wanted != {}
        invariant resets <= |chunk|
        invariant ReadAll(net, honest, sock, State(traffic, wanted, replies.entries), resets, |chunk|) == done
        decreases |Outstanding(traffic)|, |chunk| - resets
      {
        ghost var earlier := traffic;
        assert Lawful(net(sock, earlier), Outstanding(earlier), honest);
        var event := ReceiveFrom();
        AfterRead(earlier, event, NoFaults());
        match event
        case Timeout => break;
        case OsError => break;
        case Reset =>
          resets := resets + 1;
          if resets > |chunk| { break; }
        case Malformed(_) =>
        case Reply(re, body) =>
          wanted := wanted - {re.address};
          replies.entries := replies.entries[re.address := body];
      }
    }

    /** The chunk fired and read, without what that means for a socket in good order. */
    method FireAndRead(chunk: seq<A>, replies: SharedMap<A, B>, query: Q)
      returns (missing: seq<A>, ghost run: ChunkRun<A, Q, B>)
      requires Trustworthy()
      modifies this`traffic, replies
      ensures run.sock == sock && run.start == old(traffic) && run.chunk == chunk && ChunkRan(net, query, run)
      ensures traffic == TrafficAfter(query, run)
      ensures replies.entries == Noted(old(replies.entries), run.events) && missing == Missed(run)
      ensures var done := ReadAll(net, honest, sock, State(old(traffic) + Burst(chunk, query), Elements(chunk),
                                  old(replies.entries)), 0, |chunk|);
        && traffic == done.traffic && replies.entries == done.entries
        && missing == Without(chunk, Elements(chunk) - done.wanted)
    {
      ghost var before, start := replies.entries, traffic;
      for i := 0 to |chunk|
        invariant replies.entries == before && traffic == start + Burst(chunk[..i], query)
      {
        SendTo(Request(chunk[i], query));
        assert Burst<A, Q, B>(chunk[..i + 1], query) == Burst(chunk[..i], query) + [Sent(Request(chunk[i], query))];
      }
      assert chunk[..|chunk|] == chunk;
      var wanted := ReadReplies(chunk, replies);
      missing := Without(chunk, Elements(chunk) - wanted);
      run := ChunkHeard(net, honest, sock, start, chunk, before, query);
    }

    /** The same with what it means for a socket in good order, and for one in the poison model. */
    method SendChunk(chunk: seq<A>, replies: SharedMap<A, B>, query: Q, ghost faults: Faults<A, Q>, ghost sound: bool,
                     ghost model: bool)
      returns (missing: seq<A>, ghost run: ChunkRun<A, Q, B>)
      requires Trustworthy()
      requires sound ==> Clean() && Distinct(chunk) && Elements(chunk) !! replies.entries.Keys
      requires model ==> Healthy(faults) && Poisoned(net, faults, honest) && Distinct(chunk)
      modifies this`traffic, replies
      ensures run.sock == sock && run.start == old(traffic) && run.chunk == chunk && ChunkRan(net, query, run)
      ensures traffic == TrafficAfter(query, run)
      ensures replies.entries == Noted(old(replies.entries), run.events) && missing == Missed(run)
      ensures sound ==>
        && missing == Without(chunk, replies.entries.Keys)
        && Answered(old(replies.entries), replies.entries, Elements(chunk), query, honest)
        && (missing == [] ==> Clean())
      ensures model ==>
        && missing == Lost(chunk, faults.Poison(query), faults.Absent(query))
        && (missing == [] ==> Healthy(faults))
    {
      ghost var before, start := replies.entries, traffic;
      missing, run := FireAndRead(chunk, replies, query);
      if sound { CleanChunk(net, honest, sock, start, chunk, before, query); }
      if model { PoisonedChunk(net, honest, sock, start, chunk, before, query, faults); }
    }

    /** Fires the whole chunk, then reads: until each of its addresses is answered, the idle gap or an unusable socket
        closes it, or more resets came than there were sends, and not before. A malformed datagram and a reset within
        that limit are passed over. What is read is kept, on whatever socket; on one that owed nothing the missing
        addresses are exactly those without an entry, and a chunk answered in full leaves it owing nothing. */
    method SendAndCollect(chunk: seq<A>, replies: SharedMap<A, B>, query: Q, ghost faults: Faults<A, Q>)
      returns (missing: seq<A>, ghost run: ChunkRun<A, Q, B>)
      requires Trustworthy()
      modifies this`traffic, replies
      ensures run.sock == sock && run.start == old(traffic) && run.chunk == chunk && ChunkRan(net, query, run)
      ensures traffic == old(traffic) + Burst(chunk, query) + Heard(run.events)
      ensures EndedBecause(chunk, run.events) && WentOn(chunk, run.events)
      ensures Kept(old(replies.entries), run.events, replies.entries)
      ensures forall x :: x in Elements(missing) <==> x in Elements(chunk) && !Replied(run.events, x)
      ensures replies.entries == Noted(old(replies.entries), run.events) && missing == Missed(run)
      ensures old(Clean()) && Distinct(chunk) && Elements(chunk) !! old(replies.entries).Keys ==>
        && missing == Without(chunk, replies.entries.Keys)
        && Answered(old(replies.entries), replies.entries, Elements(chunk), query, honest)
        && (missing == [] ==> Clean())
      ensures old(Healthy(faults)) && Poisoned(net, faults, honest) && Distinct(chunk) ==>
        && missing == Lost(chunk, faults.Poison(query), faults.Absent(query))
        && (missing == [] ==> Healthy(faults))
    {
      ghost var sound := Clean() && Distinct(chunk) && Elements(chunk) !! replies.entries.Keys;
      ghost var model := Healthy(faults) && Poisoned(net, faults, honest) && Distinct(chunk);
      missing, run := SendChunk(chunk, replies, query, faults, sound, model);
      ReadingWentOn(net, query, run);
      NotedIs(old(replies.entries), run.events);
      forall x { MissedAre(run, x); }
    }

    /** One chunk of a pass. When it goes short the socket is replaced at once, not at the next round. */
    method RunChunk(addresses: seq<A>, end: nat, batchSize: int, replies: SharedMap<A, B>, query: Q,
                    ghost faults: Faults<A, Q>, ghost m: Midpass<A, Q, B>, start: nat, ghost before: map<A, B>,
                    ghost sock0: nat, ghost traffic0: seq<Action<A, Q, B>>, ghost sound: bool, ghost model: bool)
      returns (missing: seq<A>, ghost run: ChunkRun<A, Q, B>)
      requires Trustworthy() && batchSize >= 1 && m.start == start < |addresses| && m.entries == replies.entries
      requires end == if start + batchSize < |addresses| then start + batchSize else |addresses|
      requires Traced(net, query, batchSize, sock0, traffic0, addresses, before, m)
      requires AtSocket(query, m.chunks, sock0, traffic0, sock, traffic)
      requires sound ==> Clean() && Distinct(addresses) && Elements(addresses) !! before.Keys
                         && StillSound(query, honest, addresses, before, m)
      requires model ==> Healthy(faults) && Poisoned(net, faults, honest) && Distinct(addresses)
                         && StillModel(query, faults, batchSize, addresses, m)
      modifies this, replies
      ensures missing == Missed(run)
      ensures Traced(net, query, batchSize, sock0, traffic0, addresses, before, Onward(m, end, run, replies.entries))
      ensures AtSocket(query, m.chunks + [run], sock0, traffic0, sock, traffic)
      ensures sound ==> Clean() && StillSound(query, honest, addresses, before, Onward(m, end, run, replies.entries))
      ensures model ==>
        Healthy(faults) && StillModel(query, faults, batchSize, addresses, Onward(m, end, run, replies.entries))
    {
      hide Answered, Elements, Without, Distinct, ChunkRan, StillSound, StillModel, Traced, Poisoned, Admissible, Lost;
      hide Outstanding, Deliverable, Noted, Burst, Heard;
      Slices(addresses, start, end);
      if sound { NextIsOpen(query, honest, addresses, before, m, end); }
      missing, run := SendChunk(addresses[start..end], replies, query, faults, sound, model);
      TracedOn(net, query, batchSize, sock0, traffic0, addresses, before, m, end, run, replies.entries);
      if sound { SoundOn(query, honest, addresses, before, m, end, run, replies.entries); }
      if model { ModelOn(query, faults, batchSize, addresses, m, end, run, replies.entries); }
      if missing != [] {
        Rotate();
      }
    }

    /** Sends `addresses` chunk by chunk, each but the last of the full size, and every one after a short chunk on a
        socket that owes nothing and carries no poison. */
    method RunOnePass(addresses: seq<A>, batchSize: int, replies: SharedMap<A, B>, query: Q,
                      ghost faults: Faults<A, Q>)
      returns (stillPending: seq<A>, ghost chunks: seq<ChunkRun<A, Q, B>>)
      requires Trustworthy() && batchSize >= 1
      modifies this, replies
      ensures PassRan(net, query, old(sock), old(traffic), PassRun(Pass(batchSize, addresses, stillPending), chunks))
      ensures replies.entries == Noted(old(replies.entries), AllEvents(chunks))
      ensures chunks != [] ==> sock == SockAfter(chunks[|chunks| - 1])
      ensures old(Clean()) && Distinct(addresses) && Elements(addresses) !! old(replies.entries).Keys ==>
        && stillPending == Without(addresses, replies.entries.Keys)
        && Answered(old(replies.entries), replies.entries, Elements(addresses), query, honest)
        && Clean()
      ensures old(Healthy(faults)) && Poisoned(net, faults, honest) && Distinct(addresses) ==>
        && stillPending == PassLost(addresses, batchSize, faults.Poison(query), faults.Absent(query))
        && Healthy(faults)
    {
      ghost var before, sock0, traffic0 := replies.entries, sock, traffic;
      ghost var sound := Clean() && Distinct(addresses) && Elements(addresses) !! before.Keys;
      ghost var model := Healthy(faults) && Poisoned(net, faults, honest) && Distinct(addresses);
      stillPending := [];
      var start := 0;
      ghost var m: Midpass<A, Q, B> := Midpass(0, [], [], before);
      PassStarts(net, query, honest, faults, batchSize, sock0, traffic0, addresses, before);
      while start < |addresses|
        invariant 0 <= start <= |addresses|
        invariant m.start == start && m.pending == stillPending && m.entries == replies.entries
        invariant Traced(net, query, batchSize, sock0, traffic0, addresses, before, m)
        invariant AtSocket(query, m.chunks, sock0, traffic0, sock, traffic)
        invariant sound ==> Clean() && StillSound(query, honest, addresses, before, m)
        invariant model ==> Healthy(faults) && StillModel(query, faults, batchSize, addresses, m)
      {
        var end := if start + batchSize < |addresses| then start + batchSize else |addresses|;
        var missing;
        ghost var run;
        missing, run := RunChunk(addresses, end, batchSize, replies, query, faults, m, start, before, sock0, traffic0,
                                 sound, model);
        m := Onward(m, end, run, replies.entries);
        stillPending := stillPending + missing;
        start := end;
      }
      PassEnds(net, query, honest, faults, batchSize, sock0, traffic0, addresses, before, m);
      chunks := m.chunks;
    }

    /** One round of the ladder: a pass over what is open, after the first round on a new socket and in chunks half
        the size. */
    method RunRound(ghost asked: seq<A>, pending: seq<A>, roundIndex: nat, chunkSize: int, replies: SharedMap<A, B>,
                    query: Q, ghost faults: Faults<A, Q>)
      returns (stillPending: seq<A>, size: int, ghost chunks: seq<ChunkRun<A, Q, B>>)
      requires Trustworthy() && chunkSize >= 1
      modifies this, replies
      ensures size == if roundIndex == 0 then chunkSize else Max(1, chunkSize / 2)
      ensures PassRan(net, query, if roundIndex == 0 then old(sock) else old(sock) + 1,
                      if roundIndex == 0 then old(traffic) else [],
                      PassRun(Pass(size, pending, stillPending), chunks))
      ensures replies.entries == Noted(old(replies.entries), AllEvents(chunks))
      ensures chunks != [] ==> sock == SockAfter(chunks[|chunks| - 1])
      ensures old(Clean()) && Distinct(asked) && Open(asked, old(replies.entries), pending, query, honest) ==>
        Clean() && Open(asked, replies.entries, stillPending, query, honest)
      ensures old(Healthy(faults)) && Poisoned(net, faults, honest) && Distinct(pending) ==>
        && stillPending == PassLost(pending, size, faults.Poison(query), faults.Absent(query))
        && Healthy(faults)
    {
      ghost var entries := replies.entries;
      ghost var sound := Clean() && Distinct(asked) && Open(asked, entries, pending, query, honest);
      size := chunkSize;
      if roundIndex > 0 {
        Rotate();
        size := Max(1, size / 2);
      }
      WithoutMembers(asked, entries.Keys);
      stillPending, chunks := RunOnePass(pending, size, replies, query, faults);
      if sound { StillOpen(asked, entries, pending, replies.entries, stillPending, query, honest); }
    }

    /** A round and what it adds to the account of the batch. */
    method RunRung(ghost asked: seq<A>, pending: seq<A>, roundIndex: nat, chunkSize: int, replies: SharedMap<A, B>,
                   query: Q, ghost faults: Faults<A, Q>, ghost batchSize: int, ghost retryRounds: int,
                   ghost sock0: nat, ghost traffic0: seq<Action<A, Q, B>>, ghost passes: seq<PassRun<A, Q, B>>,
                   ghost total: Run<A>, ghost sound: bool, ghost model: bool)
      returns (stillPending: seq<A>, size: int, ghost more: seq<PassRun<A, Q, B>>)
      requires Trustworthy() && Distinct(asked) && chunkSize >= 1 && pending != []
      requires roundIndex == |passes| && roundIndex < retryRounds + 1
      requires BetweenRounds(net, query, asked, batchSize, sock0, traffic0, passes, pending, chunkSize, sock, traffic,
                             replies.entries)
      requires passes != [] ==> |passes[|passes| - 1].pass.after| != |passes[|passes| - 1].pass.before|
      requires sound ==> Clean() && Open(asked, replies.entries, pending, query, honest)
      requires model ==> sound && Healthy(faults) && Poisoned(net, faults, honest)
                         && OnLadder(total, Plain(passes), pending, NextSize(roundIndex, chunkSize),
                                     retryRounds + 1 - roundIndex, query, faults)
      modifies this, replies
      ensures size >= 1 && |more| == roundIndex + 1 && more[roundIndex].pass == Pass(size, pending, stillPending)
      ensures BetweenRounds(net, query, asked, batchSize, sock0, traffic0, more, stillPending, size, sock, traffic,
                            replies.entries)
      ensures sound ==> Clean() && Open(asked, replies.entries, stillPending, query, honest)
      ensures model ==>
        && Healthy(faults)
        && if |stillPending| == |pending| then total == Run(stillPending, Plain(more))
           else OnLadder(total, Plain(more), stillPending, NextSize(roundIndex + 1, size), retryRounds - roundIndex,
                         query, faults)
    {
      hide BetweenRounds, OnLadder, Answered, PassRan, Elements, Without, Distinct, Poisoned, Admissible, PassLost;
      hide Plain, Outstanding, Deliverable, Noted, AllEvents;
      ghost var entries, sock1, traffic1 := replies.entries, sock, traffic;
      ghost var chunks;
      WithoutMembers(asked, entries.Keys);
      stillPending, size, chunks := RunRound(asked, pending, roundIndex, chunkSize, replies, query, faults);
      ghost var p := PassRun(Pass(size, pending, stillPending), chunks);
      AnotherRound(net, query, asked, batchSize, sock0, traffic0, passes, pending, chunkSize, sock1, traffic1, entries,
                   p, sock, traffic, replies.entries);
      more := passes + [p];
      if model { LadderOn(total, passes, p, size, retryRounds + 1 - roundIndex, query, faults); }
    }

    /** The ladder of `GetMany` over addresses already without repetitions. */
    method GetDistinct(asked: seq<A>, batchSize: int, retryRounds: int, query: Q, ghost faults: Faults<A, Q>)
      returns (result: BatchResult<A, B>, ghost passes: seq<PassRun<A, Q, B>>)
      requires Trustworthy() && Distinct(asked)
      modifies this
      ensures BatchRan(net, query, batchSize, retryRounds,
                       Batch(asked, old(sock), old(traffic), passes, result.replies, result.unresolved))
      ensures old(Clean()) ==> Clean() && Open(asked, result.replies, result.unresolved, query, honest)
      ensures old(Clean()) && old(Healthy(faults)) && Poisoned(net, faults, honest) ==>
        && Healthy(faults)
        && Run(result.unresolved, Plain(passes)) ==
           Climb(asked, Max(1, batchSize), retryRounds + 1, faults.Poison(query), faults.Absent(query))
    {
      hide Climbing, Climb, BetweenRounds, BatchRan, Open, Poisoned, Admissible, Outstanding, Deliverable, PoisonSent,
           Elements, Distinct, Plain;
      var pending := asked;
      var replies := new SharedMap<A, B>();
      var chunkSize := Max(1, batchSize);
      ghost var sock0, traffic0, sound := sock, traffic, Clean();
      ghost var model := sound && Healthy(faults) && Poisoned(net, faults, honest);
      ghost var total := Climb(asked, chunkSize, retryRounds + 1, faults.Poison(query), faults.Absent(query));
      passes := [];
      BatchStarts(net, query, honest, asked, batchSize, sock, traffic);
      LadderStarts(asked, chunkSize, retryRounds + 1, faults.Poison(query), faults.Absent(query));
      var roundIndex := 0;
      while roundIndex < retryRounds + 1
        invariant fresh(replies) && chunkSize >= 1 && roundIndex == |passes| && roundIndex <= Max(0, retryRounds + 1)
        invariant BetweenRounds(net, query, asked, batchSize, sock0, traffic0, passes, pending, chunkSize, sock,
                                traffic, replies.entries)
        invariant passes != [] ==> |passes[|passes| - 1].pass.after| != |passes[|passes| - 1].pass.before|
        invariant sound ==> Clean() && Open(asked, replies.entries, pending, query, honest)
        invariant model ==> Healthy(faults) && OnLadder(total, Plain(passes), pending, NextSize(roundIndex, chunkSize),
                                                        retryRounds + 1 - roundIndex, query, faults)
      {
        if pending == [] { break; }
        var before := |pending|;
        pending, chunkSize, passes := RunRung(asked, pending, roundIndex, chunkSize, replies, query, faults, batchSize,
                                              retryRounds, sock0, traffic0, passes, total, sound, model);
        roundIndex := roundIndex + 1;
        if |pending| == before {
          BatchEnds(net, query, asked, batchSize, retryRounds, sock0, traffic0, passes, pending, chunkSize, sock,
                    traffic, replies.entries);
          return BatchResult(replies.entries, pending), passes;
        }
      }
      if model {
        ClimbEnds(total, Plain(passes), pending, NextSize(roundIndex, chunkSize), retryRounds + 1 - roundIndex,
                  faults.Poison(query), faults.Absent(query));
      }
      BatchEnds(net, query, asked, batchSize, retryRounds, sock0, traffic0, passes, pending, chunkSize, sock, traffic,
                replies.entries);
      result := BatchResult(replies.entries, pending);
    }

    /** The pipelined batch, on every network and every socket. It makes passes until nothing is open, a pass recovered
        nothing, or the first pass and `retryRounds` more were made: the first in chunks of `batchSize`, at least 1,
        each later one on a new socket in chunks half as long over what the one before left. `batch` is all that was
        sent and read for the input without repetitions. On a socket that owes nothing, every requested address ends
        up with its own honest answer or in `unresolved`, never in both and nowhere else; and the socket owes nothing
        again. In the poison model, when halving comes down to chunks of one, exactly the silent addresses are left
        unless some pass stalled with an answerable one pending. */
    method GetMany(addresses: seq<A>, batchSize: int, retryRounds: int, query: Q, ghost faults: Faults<A, Q>)
      returns (result: BatchResult<A, B>, ghost batch: Batch<A, Q, B>)
      requires Trustworthy()
      modifies this
      ensures BatchRan(net, query, batchSize, retryRounds, batch)
      ensures batch == Batch(FirstSeen(addresses), old(sock), old(traffic), batch.passes, result.replies,
                             result.unresolved)
      ensures old(Clean()) ==>
        && Clean() && result.unresolved == Without(batch.asked, result.replies.Keys)
        && Answered(map[], result.replies, Elements(batch.asked), query, honest)
      ensures old(Clean()) && old(Healthy(faults)) && Poisoned(net, faults, honest) ==>
        && Healthy(faults)
        && Run(result.unresolved, Plain(batch.passes)) ==
           Climb(batch.asked, Max(1, batchSize), retryRounds + 1, faults.Poison(query), faults.Absent(query))
      ensures old(Clean()) && old(Healthy(faults)) && Poisoned(net, faults, honest)
              && 0 <= retryRounds && Max(1, batchSize) < Pow2(retryRounds + 1) ==>
        Isolated(batch.asked, result.unresolved, batch.passes, faults.Poison(query), faults.Absent(query))
    {
      var pending := FirstSeen(addresses);
      FirstSeenMembers(addresses);
      ghost var sock0, traffic0, passes := sock, traffic, [];
      result, passes := GetDistinct(pending, batchSize, retryRounds, query, faults);
      batch := Batch(pending, sock0, traffic0, passes, result.replies, result.unresolved);
      if old(Clean()) && old(Healthy(faults)) && Poisoned(net, faults, honest)
         && 0 <= retryRounds && Max(1, batchSize) < Pow2(retryRounds + 1) {
        LadderIsolates(pending, batchSize, retryRounds, result.unresolved, passes, faults.Poison(query),
                       faults.Absent(query));
      }
    }
  }
}
