/** Writing many leaves and reading them back (`push` in wing_parser/net/write.py). */
module Push {
  import opened Results
  import opened Sequences
  import opened Wire
  import opened Reading
  import opened Traces
  import Client
  import Ladder

  datatype PushResult<A(==), V, W> = PushResult(landed: seq<A>, mismatched: map<A, (V, W)>, absent: seq<A>,
                                                dryRun: bool)

  /** A push is refused, or raises on a reply that carries no leaf value, or reports. */
  datatype Outcome<A(==), V, W> = Refused | Raised | Done(result: PushResult<A, V, W>)

  /** The socket that only sends. */
  class Outbox<A, V> {
    var sent: seq<(A, V)>
  }

  /** Without a pin any console may be written; with one, only the console of that serial. */
  predicate Authorized(pin: Option<string>, serial: string) {
    pin.None? || pin.value == "" || pin.value == serial
  }

  /** One datagram for each of these addresses, in their order, carrying its own value; and nothing else. */
  ghost predicate SentEach<A, V>(before: seq<(A, V)>, after: seq<(A, V)>, leaves: map<A, V>, order: seq<A>) {
    && |after| == |before| + |order| && before == after[..|before|]
    && forall i :: 0 <= i < |order| ==> order[i] in leaves && after[|before| + i] == (order[i], leaves[order[i]])
  }

  /** The reply to `a` carries the value expected of it. */
  ghost predicate Agrees<A, V, B, W>(leaves: map<A, V>, replies: map<A, B>, leafValue: B -> Option<W>,
                                     matches: (V, W) -> bool, a: A) {
    a in leaves && a in replies && leafValue(replies[a]).Some? && matches(leaves[a], leafValue(replies[a]).value)
  }

  /** Each pushed leaf is reported once: landed, in the order of the push, when its reply carries a matching value,
      mismatched with what was expected and what was read when it carries another, absent when it has no reply. */
  ghost predicate Reported<A(!new), V, B, W>(leaves: map<A, V>, order: seq<A>, replies: map<A, B>,
                                             leafValue: B -> Option<W>,
                                             matches: (V, W) -> bool, r: PushResult<A, V, W>) {
    && r.landed == Without(order, Elements(order) - Elements(r.landed))
    && Distinct(r.landed) && (forall a :: a in Elements(r.landed) <==> Agrees(leaves, replies, leafValue, matches, a))
    && r.absent == Without(order, replies.Keys)
    && (forall a :: a in r.mismatched <==>
        a in leaves && a in replies && !Agrees(leaves, replies, leafValue, matches, a))
    && (forall a :: a in r.mismatched ==>
        leafValue(replies[a]).Some? && r.mismatched[a] == (leaves[a], leafValue(replies[a]).value))
  }

  /** So the three lists split the pushed leaves. */
  lemma ThreeWaySplit<A(!new), V, B, W>(leaves: map<A, V>, order: seq<A>, replies: map<A, B>, leafValue: B -> Option<W>,
                                        matches: (V, W) -> bool, r: PushResult<A, V, W>)
    requires Distinct(order) && Elements(order) == leaves.Keys && replies.Keys <= leaves.Keys
    requires Reported(leaves, order, replies, leafValue, matches, r)
    ensures Elements(r.landed) + r.mismatched.Keys + Elements(r.absent) == leaves.Keys
    ensures Elements(r.landed) !! r.mismatched.Keys !! Elements(r.absent)
    ensures Distinct(r.landed) && Distinct(r.absent)
  {
    WithoutMembers(order, replies.Keys);
    forall a
      ensures a in Elements(r.landed) + r.mismatched.Keys <==> a in replies
    {
      assert a in Elements(r.landed) <==> Agrees(leaves, replies, leafValue, matches, a);
    }
    assert Elements(r.landed) + r.mismatched.Keys == replies.Keys;
  }

  method SendAll<A, V>(leaves: map<A, V>, order: seq<A>, outbox: Outbox<A, V>)
    requires forall i :: 0 <= i < |order| ==> order[i] in leaves
    modifies outbox
    ensures SentEach(old(outbox.sent), outbox.sent, leaves, order)
  {
    ghost var before := outbox.sent;
    for i := 0 to |order|
      invariant SentEach(before, outbox.sent, leaves, order[..i])
    {
      outbox.sent := outbox.sent + [(order[i], leaves[order[i]])];
    }
    assert order[..|order|] == order;
  }

  /** The comparing loop; nothing when a reply carries no leaf value. */
  method Compare<A(==,!new), V, B, W>(leaves: map<A, V>, order: seq<A>, replies: map<A, B>, absent: seq<A>,
                                      leafValue: B -> Option<W>,
                                      matches: (V, W) -> bool)
    returns (result: Option<PushResult<A, V, W>>)
    requires Distinct(order) && Elements(order) == leaves.Keys && replies.Keys <= leaves.Keys
    requires absent == Without(order, replies.Keys)
    ensures result.None? <==> exists a :: a in replies && leafValue(replies[a]).None?
    ensures result.Some? ==> Reported(leaves, order, replies, leafValue, matches, result.value) && !result.value.dryRun
  {
    var landed, mismatched := [], map[];
    for i := 0 to |order|
      invariant Distinct(landed)
      invariant landed == Without(order[..i], Elements(order[..i]) - Elements(landed))
      invariant forall a :: a in Elements(landed) <==>
                  a in Elements(order[..i]) && Agrees(leaves, replies, leafValue, matches, a)
      invariant forall a :: a in mismatched <==>
        a in Elements(order[..i]) && a in replies && !Agrees(leaves, replies, leafValue, matches, a)
      invariant forall a :: a in Elements(order[..i]) && a in replies ==> leafValue(replies[a]).Some?
      invariant forall a :: a in mismatched ==> mismatched[a] == (leaves[a], leafValue(replies[a]).value)
    {
      var address := order[i];
      NextLeaf(order, i);
      KeptInOrder(order[..i], address, landed);
      assert order[..i + 1] == order[..i] + [address];
      if address in replies {
        var native := leafValue(replies[address]);
        if native.None? {
          return None;
        }
        if matches(leaves[address], native.value) {
          Append(landed, address);
          landed := landed + [address];
        } else {
          mismatched := mismatched[address := (leaves[address], native.value)];
        }
      }
    }
    assert order[..|order|] == order;
    return Some(PushResult(landed, mismatched, absent, false));
  }

  lemma KeptInOrder<A>(front: seq<A>, last: A, kept: seq<A>)
    requires last !in Elements(front) && Elements(kept) <= Elements(front)
    requires kept == Without(front, Elements(front) - Elements(kept))
    ensures kept == Without(front + [last], Elements(front + [last]) - Elements(kept))
    ensures kept + [last] == Without(front + [last], Elements(front + [last]) - Elements(kept + [last]))
  {
    Append(front, last);
    Append(kept, last);
    var gone, same := Elements(front + [last]) - Elements(kept), Elements(front + [last]) - Elements(kept + [last]);
    WithoutEach(front, last, gone);
    WithoutEach(front, last, same);
    WithoutAgrees(front, gone, Elements(front) - Elements(kept));
    WithoutAgrees(front, same, Elements(front) - Elements(kept));
  }

  lemma NextLeaf<A>(order: seq<A>, i: nat)
    requires Distinct(order) && i < |order|
    ensures order[i] in Elements(order) && order[i] !in Elements(order[..i])
    ensures Elements(order[..i + 1]) == Elements(order[..i]) + {order[i]}
  {
    Slices(order, i, i + 1);
    assert order[i..i + 1] == [order[i]];
    One(order[i]);
  }

  /** A dry run and a refusal send nothing; otherwise every leaf is sent once, in order, and the report splits
      exactly the pushed leaves on honest replies. On a network that loses nothing but by faults of which no read
      is poison, exactly the addresses whose reads get no answer are absent. `order` is the mapping's iteration
      order. */
  method PushLeaves<A(==,!new), Q(==,!new), V, B(!new), W>(
      net: Network<A, Q, B>, query: Q, leaves: map<A, V>, order: seq<A>, outbox: Outbox<A, V>,
      pin: Option<string>, serial: string, confirm: bool, leafValue: B -> Option<W>, matches: (V, W) -> bool,
      ghost honest: (Request<A, Q>, B) -> bool, ghost faults: Faults<A, Q>)
    returns (outcome: Outcome<A, V, W>, ghost batch: Batch<A, Q, B>)
    requires Distinct(order) && Elements(order) == leaves.Keys
    requires Admissible(net, honest)
    modifies outbox
    ensures !confirm ==> outcome == Done(PushResult([], map[], [], true)) && outbox.sent == old(outbox.sent)
    ensures confirm && pin.Some? && pin.value != "" && pin.value != serial ==>
      outcome == Refused && outbox.sent == old(outbox.sent)
    ensures confirm && (pin.None? || pin.value == "" || pin.value == serial) ==>
      && SentEach(old(outbox.sent), outbox.sent, leaves, order)
      && BatchRan(net, query, 200, 8, batch) && batch.asked == order && batch.sock == 0 && batch.start == []
      && Answered(map[], batch.replies, leaves.Keys, query, honest)
      && (outcome == Raised <==> exists a :: a in batch.replies && leafValue(batch.replies[a]).None?)
      && (outcome != Raised ==>
            outcome.Done? && Reported(leaves, order, batch.replies, leafValue, matches, outcome.result))
      && (Poisoned(net, faults, honest) && faults.Poison(query) == iset{} && outcome.Done? ==>
            outcome.result.absent == Within(order, faults.Absent(query)))
  {
    batch := Batch([], 0, [], [], map[], []);
    if !confirm {
      return Done(PushResult([], map[], [], true)), batch;
    }
    if !Authorized(pin, serial) {
      return Refused, batch;
    }
    forall i | 0 <= i < |order|
      ensures order[i] in leaves
    {
      InElements(order, order[i]);
    }
    SendAll(leaves, order, outbox);
    var client := new Client.WingClient<A, Q, B>(net, honest);
    var result;
    result, batch := client.GetMany(order, Ladder.DEFAULT_BATCH_SIZE, Ladder.DEFAULT_RETRY_ROUNDS, query, faults);
    Ladder.TwoPassesWithoutPoison(order, Ladder.DEFAULT_BATCH_SIZE, Ladder.DEFAULT_RETRY_ROUNDS + 1,
                                  faults.Absent(query));
    AlreadyDistinct(order);
    var report := Compare(leaves, order, result.replies, result.unresolved, leafValue, matches);
    outcome := if report.None? then Raised else Done(report.value);
  }
}
