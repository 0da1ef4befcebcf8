/** Reading every leaf that the walk found and assembling the scene (wing_parser/net/snapshot.py). */
module Snapshot {
  import opened Results
  import opened Sequences
  import opened Wire
  import opened Reading
  import opened Traces
  import Client
  import opened Trees
  import opened Dicts
  import opened Assembly
  import opened Schema

  datatype SnapshotResult<V> = SnapshotResult(ae: DictNode<V>, ce: DictNode<V>, unresolvedNodes: seq<Path>,
                                              unresolvedLeaves: seq<Path>)

  /** The value of a per-leaf reply, or nothing when it is not a leaf triplet. */
  function LeafValue<V>(body: Body<V>): Option<V> {
    if body.Triplet? then Some(body.value) else None
  }

  // ----- what the scene then holds

  ghost function ItemsFrom<V>(replies: map<Path, Body<V>>, order: seq<Path>): seq<(Path, V)>
    requires Elements(order) <= replies.Keys && forall a :: a in replies ==> replies[a].Triplet?
  {
    if order == [] then []
    else
      Snoc(order);
      ItemsFrom(replies, order[..|order| - 1]) + [(order[|order| - 1], replies[order[|order| - 1]].value)]
  }

  lemma {:induction false} ItemsTable<V>(replies: map<Path, Body<V>>, order: seq<Path>)
    requires Elements(order) <= replies.Keys && forall a :: a in replies ==> replies[a].Triplet?
    requires AddressesProper(order)
    ensures AllProper(ItemsFrom(replies, order))
            && Filing(replies, order, LeafValue) == FiledAll(ItemsFrom(replies, order))
    ensures Table(ItemsFrom(replies, order)).Keys == Elements(order)
    ensures forall a :: a in Elements(order) ==> Table(ItemsFrom(replies, order))[a] == replies[a].value
  {
    if order != [] {
      Snoc(order);
      var n := |order| - 1;
      ItemsTable(replies, order[..n]);
      var before := ItemsFrom(replies, order[..n]);
      assert ItemsFrom(replies, order)[..|before|] == before;
    }
  }

  /** A scene is filed only if every reply was a triplet. */
  lemma {:induction false} FiledAreTriplets<V>(replies: map<Path, Body<V>>, order: seq<Path>)
    requires AddressesProper(order) && Filing(replies, order, LeafValue).Some?
    ensures forall a :: a in Elements(order) ==> a in replies && replies[a].Triplet?
  {
    if order != [] {
      FiledAreTriplets(replies, order[..|order| - 1]);
      Snoc(order);
    }
  }

  /** The three places where a wanted leaf can be. */
  ghost predicate Placed<V>(console: Tree<V>, scene: Scene<V>, p: Path) {
    LeafAt(console, p).Some? && RawLeafAt(scene, p) == LeafAt(console, p)
  }

  /** Each wanted leaf is in the scene with its own value, or reported unread, or beneath an open node, in exactly
      one of the three; and the scene and the report hold nothing else. */
  ghost predicate Exact<V(!new)>(console: Tree<V>, scene: Scene<V>, unread: seq<Path>, open: set<Path>) {
    && (forall p :: Wanted(console, p) ==>
         || (Placed(console, scene, p) && p !in Elements(unread) && !Beneath(open, p))
         || (RawLeafAt(scene, p).None? && p in Elements(unread) && !Beneath(open, p))
         || (RawLeafAt(scene, p).None? && p !in Elements(unread) && Beneath(open, p)))
    && (forall p :: RawLeafAt(scene, p).Some? ==> Wanted(console, p) && Placed(console, scene, p))
    && (forall p :: p in Elements(unread) ==> Wanted(console, p))
  }

  /** Of the leaves of a schema, the scene holds exactly those that were read, each with the console's value. */
  ghost predicate Recorded<V(!new)>(console: Tree<V>, scene: Scene<V>, leaves: set<Path>, unread: seq<Path>) {
    && (forall p :: p in leaves ==>
          if p in Elements(unread) then RawLeafAt(scene, p).None? else Placed(console, scene, p))
    && (forall p :: RawLeafAt(scene, p).Some? ==> p in leaves)
    && Elements(unread) <= leaves
  }

  /** When the schema accounts for the console, so does the scene. */
  lemma RecordedIsExact<V(!new)>(console: Tree<V>, found: set<Path>, open: set<Path>, scene: Scene<V>,
                                   unread: seq<Path>)
    requires Split(console, found, open) && Recorded(console, scene, found, unread)
    ensures Exact(console, scene, unread, open)
  {
  }

  lemma LeavesOfConsole<V>(console: Tree<V>, paths: set<Path>)
    requires forall p :: p in paths ==> LeafAt(console, p).Some?
    ensures PrefixFree(paths)
  {
    forall p, q | p in paths && q in paths && p <= q
      ensures p == q
    {
      assert q == p + q[|p|..];
      AtConcat(console, p, q[|p|..]);
    }
  }

  /** Every address names a leaf below a root, as those of every walk do. */
  ghost predicate BelowRoots(leaves: set<Path>) {
    forall p :: p in leaves ==> Proper(p)
  }

  lemma {:induction false} LeavesAreProper(leaves: set<Path>, order: seq<Path>)
    requires BelowRoots(leaves) && Elements(order) <= leaves
    ensures AddressesProper(order)
  {
    if order != [] {
      Snoc(order);
      LeavesAreProper(leaves, order[..|order| - 1]);
    }
  }

  lemma RepliesAreTrue<V(!new)>(console: Tree<V>, replies: map<Path, Body<V>>, asked: set<Path>,
                                honest: Answers<V>)
    requires Honest(console, honest) && Answered(map[], replies, asked, Get, honest)
    ensures forall a :: a in replies ==>
      LeafAt(console, a).Some? && (replies[a].Triplet? ==> replies[a].value == LeafAt(console, a).value)
  {
    forall a | a in replies
      ensures LeafAt(console, a).Some? && (replies[a].Triplet? ==> replies[a].value == LeafAt(console, a).value)
    {
      assert honest(Request(a, Get), replies[a]);
    }
  }

  /** Triplets alone are always filed, and the scene holds exactly the values read. */
  lemma FiledExactly<V(!new)>(console: Tree<V>, replies: map<Path, Body<V>>, order: seq<Path>)
    requires AddressesProper(order) && Elements(order) == replies.Keys
    requires forall a :: a in replies ==> LeafAt(console, a).Some? && replies[a] == Triplet(LeafAt(console, a).value)
    ensures Filing(replies, order, LeafValue).Some?
    ensures forall p ::
              RawLeafAt(Filing(replies, order, LeafValue).value, p) == if p in replies then LeafAt(console, p) else None
  {
    ItemsTable(replies, order);
    LeavesOfConsole(console, replies.Keys);
    FilingIsExact(ItemsFrom(replies, order));
  }

  /** What the reads of a schema's leaves give, once filed: whatever the schema, even one that the console has
      outgrown, the leaves read are exactly in the scene and the others exactly unread. */
  lemma ReadAndFiled<V(!new)>(console: Tree<V>, leaves: set<Path>, asked: seq<Path>, replies: map<Path, Body<V>>,
                              unread: seq<Path>, order: seq<Path>, honest: Answers<V>)
    requires BelowRoots(leaves) && Honest(console, honest)
    requires Elements(asked) == leaves && unread == Without(asked, replies.Keys)
    requires Answered(map[], replies, Elements(asked), Get, honest)
    requires Elements(order) == replies.Keys
    ensures AddressesProper(order)
    ensures Filing(replies, order, LeafValue).Some? <==> forall a :: a in replies ==> replies[a].Triplet?
    ensures Filing(replies, order, LeafValue).Some? ==>
              Recorded(console, Filing(replies, order, LeafValue).value, leaves, unread)
  {
    LeavesAreProper(leaves, order);
    RepliesAreTrue(console, replies, Elements(asked), honest);
    WithoutMembers(asked, replies.Keys);
    if Filing(replies, order, LeafValue).Some? {
      FiledAreTriplets(replies, order);
    }
    if forall a :: a in replies ==> replies[a].Triplet? {
      FiledExactly(console, replies, order);
    }
  }

  // ----- the whole pull

  /** Each value reply is a leaf triplet. */
  ghost predicate AllTriplets<V(!new)>(honest: Answers<V>) {
    forall r, b {:trigger honest(r, b)} :: honest(r, b) && r.query == Get ==> b.Triplet?
  }

  /** A schema that accounts for the console, as the walk returns it. */
  ghost predicate Accounts<V>(console: Tree<V>, schema: SchemaResult, silent: set<Path>) {
    Split(console, schema.leaves.Keys, Elements(schema.unresolvedNodes) + silent)
  }

  /** The scene and the report of the reads of these leaves. */
  ghost predicate Held<V(!new)>(console: Tree<V>, result: SnapshotResult<V>, aes: seq<DictNode<V>>,
                                ces: seq<DictNode<V>>, leaves: set<Path>)
    reads aes, ces
  {
    Ready(result.ae, result.ce, aes, ces) && Recorded(console, Built(aes, ces), leaves, result.unresolvedLeaves)
  }

  /** The reads lose nothing but by the faults, and no read is poison. */
  ghost predicate ReadsSpared<V(!new)>(net: Network<Path, Query, Body<V>>, honest: Answers<V>, retryRounds: int,
                                       faults: ReadFaults) {
    retryRounds >= 0 && Poisoned(net, faults, honest) && faults.Poison(Get) == iset{}
  }

  /** One batch over all the leaves found, on a socket of its own. */
  method ReadAddresses<V(!new)>(net: Network<Path, Query, Body<V>>, addresses: seq<Path>, batchSize: int,
                                retryRounds: int, ghost honest: Answers<V>, ghost faults: ReadFaults)
    returns (result: Client.BatchResult<Path, Body<V>>, ghost batch: Batch<Path, Query, Body<V>>)
    requires Admissible(net, honest) && Distinct(addresses)
    ensures BatchRan(net, Get, batchSize, retryRounds, batch)
    ensures batch == Batch(addresses, 0, [], batch.passes, result.replies, result.unresolved)
    ensures result.unresolved == Without(addresses, result.replies.Keys)
    ensures Answered(map[], result.replies, Elements(addresses), Get, honest)
    ensures ReadsSpared(net, honest, retryRounds, faults) ==> Excused(Elements(result.unresolved), Get, faults)
  {
    var client := new Client.WingClient<Path, Query, Body<V>>(net, honest);
    result, batch := client.GetMany(addresses, batchSize, retryRounds, Get, faults);
    AlreadyDistinct(addresses);
    if ReadsSpared(net, honest, retryRounds, faults) {
      OnlyAbsentMissed(addresses, batchSize, retryRounds, Get, faults);
    }
  }

  /** One batch over all the leaves of the schema, on a new socket. */
  ghost predicate ReadsRan<V(!new)>(net: Network<Path, Query, Body<V>>, schema: SchemaResult, batchSize: int,
                                    retryRounds: int, reading: Batch<Path, Query, Body<V>>) {
    && BatchRan(net, Get, batchSize, retryRounds, reading) && reading.sock == 0 && reading.start == []
    && Distinct(reading.asked) && Elements(reading.asked) == schema.leaves.Keys
  }

  method ReadLeaves<V(!new)>(net: Network<Path, Query, Body<V>>, schema: SchemaResult, batchSize: int,
                             retryRounds: int, ghost console: Tree<V>, ghost honest: Answers<V>,
                             ghost faults: ReadFaults)
    returns (result: Option<SnapshotResult<V>>, ghost aes: seq<DictNode<V>>, ghost ces: seq<DictNode<V>>,
             ghost reading: Batch<Path, Query, Body<V>>)
    requires Admissible(net, honest) && Honest(console, honest) && BelowRoots(schema.leaves.Keys)
    ensures ReadsRan(net, schema, batchSize, retryRounds, reading)
    ensures result.Some? <==> forall p :: p in reading.replies ==> reading.replies[p].Triplet?
    ensures AllTriplets(honest) ==> result.Some?
    ensures result.Some? ==>
      && result.value.unresolvedLeaves == reading.unresolved
      && result.value.unresolvedNodes == schema.unresolvedNodes
      && Held(console, result.value, aes, ces, schema.leaves.Keys)
    ensures result.Some? && ReadsSpared(net, honest, retryRounds, faults) ==>
      Excused(Elements(result.value.unresolvedLeaves), Get, faults)
  {
    var addresses := KeysInOrder(schema.leaves.Keys);
    var batch;
    batch, reading := ReadAddresses(net, addresses, batchSize, retryRounds, honest, faults);
    var order := KeysInOrder(batch.replies.Keys);
    ReadAndFiled(console, schema.leaves.Keys, addresses, batch.replies, batch.unresolved, order, honest);
    AllRead(batch.replies, addresses, honest);
    var ok, ae, ce;
    ok, ae, ce, aes, ces := FileReplies(batch.replies, order, LeafValue);
    result := if ok then Some(SnapshotResult(ae, ce, schema.unresolvedNodes, batch.unresolved)) else None;
  }

  lemma AllRead<V(!new)>(replies: map<Path, Body<V>>, asked: seq<Path>, honest: Answers<V>)
    requires Answered(map[], replies, Elements(asked), Get, honest)
    ensures AllTriplets(honest) ==> forall a :: a in replies ==> replies[a].Triplet?
  {
  }

  /** The schema handed in, or one walked now. */
  method SchemaOf<V(!new)>(net: Network<Path, Query, Body<V>>, given: Option<SchemaResult>, batchSize: int,
                           retryRounds: int, ghost console: Tree<V>, ghost honest: Answers<V>, ghost faults: ReadFaults)
    returns (schema: SchemaResult, ghost silent: set<Path>, ghost walk: WalkRun<V>)
    requires Admissible(net, honest) && Honest(console, honest)
    requires given.Some? ==> BelowRoots(given.value.leaves.Keys)
    ensures BelowRoots(schema.leaves.Keys)
    ensures given.Some? ==> schema == given.value
    ensures given.None? ==> WalkRan(net, batchSize, retryRounds, walk, schema)
    ensures given.None? ==> Walked(console, honest, net, schema, silent, faults)
  {
    if given.Some? {
      return given.value, {}, WalkRun([], [], []);
    }
    var connection := new Client.WingClient<Path, Query, Body<V>>(net, honest);
    schema, silent, walk := WalkSchema(connection, batchSize, retryRounds, console, faults);
  }

  /** What a walk of one's own gives: it accounts for the console, the silent nodes told nothing, and on a network that
      loses nothing but by the faults a node is unresolved only for want of a dump. */
  ghost predicate Walked<V(!new)>(console: Tree<V>, honest: Answers<V>, net: Network<Path, Query, Body<V>>,
                                  schema: SchemaResult, silent: set<Path>, faults: ReadFaults) {
    && Accounts(console, schema, silent) && ToldNothing(honest, silent) && (WellFormed(honest) ==> silent == {})
    && (Poisoned(net, faults, honest) ==>
          forall u :: u in Elements(schema.unresolvedNodes) ==> NoDump(honest, faults, u))
  }

  /** `take_snapshot`: with a schema handed in, or after a walk of its own. Whatever the schema, the scene holds exactly
      those of its leaves that were read; when it accounts for the console, as a walk's does, so does the pull. */
  method TakeSnapshot<V(!new)>(walkNet: Network<Path, Query, Body<V>>, readNet: Network<Path, Query, Body<V>>,
                               given: Option<SchemaResult>, batchSize: int, retryRounds: int,
                               ghost console: Tree<V>, ghost honest: Answers<V>, ghost faults: ReadFaults)
    returns (result: Option<SnapshotResult<V>>, ghost aes: seq<DictNode<V>>, ghost ces: seq<DictNode<V>>,
             ghost schema: SchemaResult, ghost silent: set<Path>, ghost walk: WalkRun<V>,
             ghost reading: Batch<Path, Query, Body<V>>)
    requires Admissible(walkNet, honest) && Admissible(readNet, honest) && Honest(console, honest)
    requires given.Some? ==> BelowRoots(given.value.leaves.Keys)
    ensures given.Some? ==> schema == given.value
    ensures given.None? ==> WalkRan(walkNet, batchSize, retryRounds, walk, schema)
    ensures given.None? ==> Walked(console, honest, walkNet, schema, silent, faults)
    ensures ReadsRan(readNet, schema, batchSize, retryRounds, reading)
    ensures result.Some? <==> forall p :: p in reading.replies ==> reading.replies[p].Triplet?
    ensures AllTriplets(honest) ==> result.Some?
    ensures result.Some? ==>
      && result.value.unresolvedLeaves == reading.unresolved
      && result.value.unresolvedNodes == schema.unresolvedNodes
      && Held(console, result.value, aes, ces, schema.leaves.Keys)
    ensures result.Some? ==> forall quiet {:trigger Accounts(console, schema, quiet)} ::
      Accounts(console, schema, quiet) ==>
        Exact(console, Built(aes, ces), result.value.unresolvedLeaves, Elements(schema.unresolvedNodes) + quiet)
    ensures result.Some? && ReadsSpared(readNet, honest, retryRounds, faults) ==>
      Excused(Elements(result.value.unresolvedLeaves), Get, faults)
    ensures given.None? && IdealPull(console, honest, walkNet, readNet, retryRounds, faults) ==>
      result.Some? && Complete(console, Built(aes, ces), result.value)
  {
    var inventory;
    inventory, silent, walk := SchemaOf(walkNet, given, batchSize, retryRounds, console, honest, faults);
    schema := inventory;
    result, aes, ces, reading := ReadLeaves(readNet, inventory, batchSize, retryRounds, console, honest, faults);
    if result.Some? {
      HeldIsExact(console, Built(aes, ces), schema, result.value.unresolvedLeaves);
    }
    if given.None? && IdealPull(console, honest, walkNet, readNet, retryRounds, faults) {
      NoPoisonRead(faults);
      CompleteWithoutLoss(console, Built(aes, ces), result.value, honest, silent, faults);
    }
  }

  lemma HeldIsExact<V(!new)>(console: Tree<V>, scene: Scene<V>, schema: SchemaResult, unread: seq<Path>)
    requires Recorded(console, scene, schema.leaves.Keys, unread)
    ensures forall quiet {:trigger Accounts(console, schema, quiet)} :: Accounts(console, schema, quiet) ==>
      Exact(console, scene, unread, Elements(schema.unresolvedNodes) + quiet)
  {
    forall quiet {:trigger Accounts(console, schema, quiet)} | Accounts(console, schema, quiet)
      ensures Exact(console, scene, unread, Elements(schema.unresolvedNodes) + quiet)
    {
      RecordedIsExact(console, schema.leaves.Keys, Elements(schema.unresolvedNodes) + quiet, scene, unread);
    }
  }

  // ----- nothing missing

  /** The requests that this console has no answer to: it has no such node, or no such leaf. */
  ghost predicate Unanswerable<V>(console: Tree<V>, r: Request<Path, Query>) {
    if r.query == Get then LeafAt(console, r.address).None? else !HasDir(console, r.address)
  }

  /** The console answers whatever it can, save that schema requests may be poison: its schemas are single texts, its
      dumps parse, its values are triplets. */
  ghost predicate Ideal<V(!new)>(console: Tree<V>, honest: Answers<V>, faults: ReadFaults) {
    && WellFormed(honest) && DumpsParse(honest) && AllTriplets(honest)
    && (forall r :: r in faults.poison ==> r.query == Children)
    && (forall r :: r in faults.absent ==> Unanswerable(console, r))
  }

  /** Such a console, on networks that lose nothing but by these faults. */
  ghost predicate IdealPull<V(!new)>(console: Tree<V>, honest: Answers<V>, walkNet: Network<Path, Query, Body<V>>,
                                     readNet: Network<Path, Query, Body<V>>, retryRounds: int, faults: ReadFaults) {
    && Ideal(console, honest, faults) && retryRounds >= 0
    && Poisoned(walkNet, faults, honest) && Poisoned(readNet, faults, honest)
  }

  lemma NoPoisonRead(faults: ReadFaults)
    requires forall r :: r in faults.poison ==> r.query == Children
    ensures faults.Poison(Get) == iset{}
  {
  }

  /** Every leaf below a seeded root is in the scene with its own value; no read is reported missing, and no node but
      roots that the console does not have. */
  ghost predicate Complete<V(!new)>(console: Tree<V>, scene: Scene<V>, result: SnapshotResult<V>) {
    && (forall p :: Wanted(console, p) && |p| > 1 ==> Placed(console, scene, p))
    && result.unresolvedLeaves == []
    && (forall u :: u in Elements(result.unresolvedNodes) ==> |u| == 1 && !HasDir(console, u))
  }

  lemma AboveLeaf<V>(console: Tree<V>, u: Path, p: Path)
    requires u <= p && |u| < |p| && LeafAt(console, p).Some?
    ensures HasDir(console, u)
  {
    assert p == u + p[|u|..];
    AtConcat(console, u, p[|u|..]);
  }

  lemma NoneUnread<V(!new)>(console: Tree<V>, unread: seq<Path>, faults: ReadFaults)
    requires forall p :: p in Elements(unread) ==> Wanted(console, p)
    requires forall r :: r in faults.absent ==> Unanswerable(console, r)
    requires Excused(Elements(unread), Get, faults)
    ensures unread == []
  {
    forall p
      ensures p !in Elements(unread)
    {
      assert p in Elements(unread) ==> Wanted(console, p) && Request(p, Get) in faults.absent;
    }
    NoElements(unread);
  }

  /** However many schema requests are poison, the dumps make up for them and for what the batches gave up: the pull
      of an otherwise ideal console is complete. */
  lemma CompleteWithoutLoss<V(!new)>(console: Tree<V>, scene: Scene<V>, result: SnapshotResult<V>, honest: Answers<V>,
                                     silent: set<Path>, faults: ReadFaults)
    requires Ideal(console, honest, faults) && silent == {}
    requires Exact(console, scene, result.unresolvedLeaves, Elements(result.unresolvedNodes) + silent)
    requires AllNodes(console, Elements(result.unresolvedNodes) + silent)
    requires Excused(Elements(result.unresolvedLeaves), Get, faults)
    requires forall u :: u in Elements(result.unresolvedNodes) ==> NoDump(honest, faults, u)
    ensures Complete(console, scene, result)
  {
    var open := Elements(result.unresolvedNodes);
    assert open + silent == open;
    forall u | u in open
      ensures |u| == 1 && !HasDir(console, u)
    {
      assert NoDump(honest, faults, u);
      assert Request(u, Dump) in faults.absent;
    }
    NoneUnread(console, result.unresolvedLeaves, faults);
    forall p | Wanted(console, p) && |p| > 1
      ensures Placed(console, scene, p)
    {
      forall u | u in open && u <= p
        ensures false
      {
        AboveLeaf(console, u, p);
      }
    }
  }
}
