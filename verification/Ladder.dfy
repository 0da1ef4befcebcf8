/** The retry ladder of wing_parser/net/client.py in the poison model: what each pass still misses when
    a poison request silences its successors on the socket and nothing else is lost. */
module Ladder {
  import opened Sequences

  const DEFAULT_BATCH_SIZE := 200
  const DEFAULT_RETRY_ROUNDS := 8

  function Max(a: int, b: int): int {
    if a < b then b else a
  }

  /** What one pipelined chunk leaves unanswered: absent addresses, and everything from the first
      poison address on. */
  ghost function Lost<A>(chunk: seq<A>, poison: iset<A>, absent: iset<A>): (r: seq<A>)
    ensures |r| <= |chunk|
  {
    if chunk == [] then []
    else if chunk[0] in poison then chunk
    else if chunk[0] in absent then [chunk[0]] + Lost(chunk[1..], poison, absent)
    else Lost(chunk[1..], poison, absent)
  }

  /** What one pass over chunks of `size` leaves unanswered; each short chunk gets a fresh socket after it. */
  ghost function PassLost<A>(pending: seq<A>, size: int, poison: iset<A>, absent: iset<A>): (r: seq<A>)
    requires size >= 1
    ensures |r| <= |pending|
  {
    if |pending| <= size then Lost(pending, poison, absent)
    else Lost(pending[..size], poison, absent) + PassLost(pending[size..], size, poison, absent)
  }

  datatype Pass<A> = Pass(size: int, before: seq<A>, after: seq<A>)

  datatype Run<A> = Run(unresolved: seq<A>, passes: seq<Pass<A>>)

  /** The ladder itself: at most `left` passes, halving the chunk, ended early by success or by a stall. */
  ghost function Climb<A>(pending: seq<A>, size: int, left: int, poison: iset<A>, absent: iset<A>): Run<A>
    requires size >= 1
    decreases left
  {
    if left <= 0 || pending == [] then Run(pending, [])
    else
      var next := PassLost(pending, size, poison, absent);
      var pass := Pass(size, pending, next);
      if |next| == |pending| then Run(next, [pass])
      else
        var rest := Climb(next, Max(1, size / 2), left - 1, poison, absent);
        Run(rest.unresolved, [pass] + rest.passes)
  }

  /** The addresses that never answer on their own account, in order. */
  ghost function Silent<A>(pending: seq<A>, poison: iset<A>, absent: iset<A>): seq<A> {
    Within(pending, poison + absent)
  }

  function Pow2(n: nat): nat {
    if n == 0 then 1 else 2 * Pow2(n - 1)
  }

  /** No address of the chunk that could answer stands ahead of the chunk's first poison. */
  ghost predicate Blocked<A>(chunk: seq<A>, poison: iset<A>, absent: iset<A>) {
    forall i :: 0 <= i < |chunk| && chunk[i] !in poison + absent ==> exists j :: 0 <= j < i && chunk[j] in poison
  }

  /** So it is in every chunk of this size. */
  ghost predicate AllBlocked<A>(pending: seq<A>, size: int, poison: iset<A>, absent: iset<A>)
    requires size >= 1
    decreases |pending|
  {
    if |pending| <= size then Blocked(pending, poison, absent)
    else Blocked(pending[..size], poison, absent) && AllBlocked(pending[size..], size, poison, absent)
  }

  /** A pass that is bound to recover nothing although some pending address would have answered on its own. */
  ghost predicate Premature<A>(pass: Pass<A>, poison: iset<A>, absent: iset<A>) {
    && pass.size >= 1 && AllBlocked(pass.before, pass.size, poison, absent)
    && exists x :: x in Elements(pass.before) && x !in poison + absent
  }

  // ----- one pass

  /** A chunk never loses a silent address, and invents none. */
  lemma {:induction false} LostKeepsSilent<A>(chunk: seq<A>, poison: iset<A>, absent: iset<A>)
    ensures Silent(Lost(chunk, poison, absent), poison, absent) == Silent(chunk, poison, absent)
  {
    if chunk != [] && chunk[0] !in poison {
      LostKeepsSilent(chunk[1..], poison, absent);
      var rest := Lost(chunk[1..], poison, absent);
      WithinConcat([chunk[0]], chunk[1..], poison + absent);
      WithinConcat([chunk[0]], rest, poison + absent);
      assert [chunk[0]] + chunk[1..] == chunk;
    }
  }

  lemma {:induction false} PassKeepsSilent<A>(pending: seq<A>, size: int, poison: iset<A>, absent: iset<A>)
    requires size >= 1
    ensures Silent(PassLost(pending, size, poison, absent), poison, absent) == Silent(pending, poison, absent)
    decreases |pending|
  {
    if |pending| <= size {
      LostKeepsSilent(pending, poison, absent);
    } else {
      var c, rest := pending[..size], pending[size..];
      assert c + rest == pending;
      LostKeepsSilent(c, poison, absent);
      PassKeepsSilent(rest, size, poison, absent);
      WithinConcat(c, rest, poison + absent);
      WithinConcat(Lost(c, poison, absent), PassLost(rest, size, poison, absent), poison + absent);
    }
  }

  /** One address to a chunk: a pass then misses exactly the silent ones, for none has a neighbour to lose. */
  lemma {:induction false} PassAtOne<A>(pending: seq<A>, poison: iset<A>, absent: iset<A>)
    ensures PassLost(pending, 1, poison, absent) == Silent(pending, poison, absent)
    decreases |pending|
  {
    if |pending| == 1 {
      assert pending == [pending[0]];
      assert Lost(pending[1..], poison, absent) == [];
    } else if |pending| > 1 {
      var c, rest := pending[..1], pending[1..];
      assert c + rest == pending && c == [pending[0]];
      assert Lost(c[1..], poison, absent) == [];
      PassAtOne(rest, poison, absent);
      WithinConcat(c, rest, poison + absent);
    }
  }

  /** Without poison a pass misses the absent addresses alone, whatever the chunk size. */
  lemma {:induction false} PassWithoutPoison<A>(pending: seq<A>, size: int, absent: iset<A>)
    requires size >= 1
    ensures PassLost(pending, size, iset{}, absent) == Silent(pending, iset{}, absent)
    decreases |pending|
  {
    if |pending| <= size {
      LostWithoutPoison(pending, absent);
    } else {
      var c, rest := pending[..size], pending[size..];
      assert c + rest == pending;
      LostWithoutPoison(c, absent);
      PassWithoutPoison(rest, size, absent);
      WithinConcat(c, rest, iset{} + absent);
    }
  }

  lemma {:induction false} LostWithoutPoison<A>(chunk: seq<A>, absent: iset<A>)
    ensures Lost(chunk, iset{}, absent) == Silent(chunk, iset{}, absent)
  {
    if chunk != [] {
      LostWithoutPoison(chunk[1..], absent);
      WithinConcat([chunk[0]], chunk[1..], iset{} + absent);
      assert [chunk[0]] + chunk[1..] == chunk;
    }
  }

  /** A pass is the loss of its first chunk and then the pass over the rest. */
  lemma PassSplit<A>(chunk: seq<A>, rest: seq<A>, size: int, poison: iset<A>, absent: iset<A>)
    requires 1 <= size && 1 <= |chunk| <= size && (rest != [] ==> |chunk| == size)
    ensures PassLost(chunk + rest, size, poison, absent) ==
            Lost(chunk, poison, absent) + PassLost(rest, size, poison, absent)
  {
    if rest == [] {
      assert chunk + rest == chunk;
      assert PassLost(rest, size, poison, absent) == [];
    } else {
      assert (chunk + rest)[..size] == chunk && (chunk + rest)[size..] == rest;
    }
  }

  // ----- the whole ladder

  lemma {:induction false} LostAll<A>(chunk: seq<A>, poison: iset<A>, absent: iset<A>)
    ensures |Lost(chunk, poison, absent)| == |chunk| ==> Lost(chunk, poison, absent) == chunk
  {
    if chunk != [] {
      LostAll(chunk[1..], poison, absent);
    }
  }

  lemma {:induction false} StalledPassLosesAll<A>(pending: seq<A>, size: int, poison: iset<A>, absent: iset<A>)
    requires size >= 1
    ensures |PassLost(pending, size, poison, absent)| == |pending| ==>
              PassLost(pending, size, poison, absent) == pending
    decreases |pending|
  {
    if |pending| <= size {
      LostAll(pending, poison, absent);
    } else {
      LostAll(pending[..size], poison, absent);
      StalledPassLosesAll(pending[size..], size, poison, absent);
    }
  }

  /** One pass of the ladder. */
  lemma ClimbStep<A>(pending: seq<A>, size: int, left: int, poison: iset<A>, absent: iset<A>)
    requires size >= 1
    ensures var run, next := Climb(pending, size, left, poison, absent), PassLost(pending, size, poison, absent);
      if left <= 0 || pending == [] then run.unresolved == pending && run.passes == []
      else if |next| == |pending| then run.unresolved == next && run.passes == [Pass(size, pending, next)]
      else var rest := Climb(next, Max(1, size / 2), left - 1, poison, absent);
        run.unresolved == rest.unresolved && run.passes == [Pass(size, pending, next)] + rest.passes
  {
  }

  /** The ladder that ends as `total` has made these passes and stands where the other arguments say. */
  ghost predicate Climbing<A>(total: Run<A>, done: seq<Pass<A>>, pending: seq<A>, size: int, left: int,
                              poison: iset<A>, absent: iset<A>)
    requires size >= 1
  {
    var run := Climb(pending, size, left, poison, absent);
    total.unresolved == run.unresolved && total.passes == done + run.passes
  }

  lemma ClimbEnds<A>(total: Run<A>, done: seq<Pass<A>>, pending: seq<A>, size: int, left: int, poison: iset<A>,
                     absent: iset<A>)
    requires size >= 1 && (left <= 0 || pending == [])
    ensures Climbing(total, done, pending, size, left, poison, absent) ==> total == Run(pending, done)
  {
    ClimbStep(pending, size, left, poison, absent);
    assert done + [] == done;
  }

  lemma ClimbOn<A>(total: Run<A>, done: seq<Pass<A>>, pending: seq<A>, size: int, left: int, next: seq<A>,
                   poison: iset<A>, absent: iset<A>)
    requires size >= 1 && left >= 1 && pending != [] && next == PassLost(pending, size, poison, absent)
    ensures Climbing(total, done, pending, size, left, poison, absent) ==>
      var more := done + [Pass(size, pending, next)];
      if |next| == |pending| then total == Run(next, more)
      else Climbing(total, more, next, Max(1, size / 2), left - 1, poison, absent)
  {
    ClimbStep(pending, size, left, poison, absent);
    var pass := Pass(size, pending, next);
    if |next| != |pending| {
      var rest := Climb(next, Max(1, size / 2), left - 1, poison, absent).passes;
      assert done + ([pass] + rest) == done + [pass] + rest;
    }
  }

  /** A chunk behind poison from the start loses everything, and only such a chunk. */
  lemma {:induction false} LostAllIffBlocked<A>(chunk: seq<A>, poison: iset<A>, absent: iset<A>)
    ensures |Lost(chunk, poison, absent)| == |chunk| <==> Blocked(chunk, poison, absent)
  {
    if chunk != [] && chunk[0] !in poison {
      LostAllIffBlocked(chunk[1..], poison, absent);
      BlockedCons(chunk, poison, absent);
    }
  }

  lemma BlockedCons<A>(chunk: seq<A>, poison: iset<A>, absent: iset<A>)
    requires chunk != [] && chunk[0] !in poison
    ensures Blocked(chunk, poison, absent) <==> chunk[0] in absent && Blocked(chunk[1..], poison, absent)
  {
    var rest := chunk[1..];
    if chunk[0] in absent && Blocked(rest, poison, absent) {
      forall i | 0 <= i < |chunk| && chunk[i] !in poison + absent
        ensures exists j :: 0 <= j < i && chunk[j] in poison
      {
        assert rest[i - 1] == chunk[i];
        var j :| 0 <= j < i - 1 && rest[j] in poison;
        assert chunk[j + 1] in poison;
      }
    }
    if Blocked(chunk, poison, absent) {
      forall i | 0 <= i < |rest| && rest[i] !in poison + absent
        ensures exists j :: 0 <= j < i && rest[j] in poison
      {
        assert chunk[i + 1] == rest[i];
        var j :| 0 <= j < i + 1 && chunk[j] in poison;
        assert rest[j - 1] in poison;
      }
    }
  }

  /** A pass recovers nothing exactly when all its chunks are blocked. */
  lemma {:induction false} StallsIffBlocked<A>(pending: seq<A>, size: int, poison: iset<A>, absent: iset<A>)
    requires size >= 1
    ensures |PassLost(pending, size, poison, absent)| == |pending| <==> AllBlocked(pending, size, poison, absent)
    decreases |pending|
  {
    if |pending| <= size {
      LostAllIffBlocked(pending, poison, absent);
    } else {
      LostAllIffBlocked(pending[..size], poison, absent);
      StallsIffBlocked(pending[size..], size, poison, absent);
    }
  }

  /** When only silent addresses are pending, the next pass recovers nothing and the ladder ends. */
  lemma SilentIsFinal<A>(pending: seq<A>, size: int, left: int, poison: iset<A>, absent: iset<A>)
    requires size >= 1
    requires Silent(pending, poison, absent) == pending
    ensures var run := Climb(pending, size, left, poison, absent);
      && run.unresolved == pending
      && |run.passes| <= 1
      && forall pass :: pass in run.passes ==> !Premature(pass, poison, absent)
  {
    var next := PassLost(pending, size, poison, absent);
    PassKeepsSilent(pending, size, poison, absent);
    WithinAll(pending, poison + absent);
    WithinAll(next, poison + absent);
  }

  /** A ladder that starts at chunk size 1 isolates every silent address. */
  lemma ClimbAtOne<A>(pending: seq<A>, left: int, poison: iset<A>, absent: iset<A>)
    requires left >= 1
    ensures var run := Climb(pending, 1, left, poison, absent);
      && run.unresolved == Silent(pending, poison, absent)
      && forall pass :: pass in run.passes ==> !Premature(pass, poison, absent)
  {
    PassAtOne(pending, poison, absent);
    StallsIffBlocked(pending, 1, poison, absent);
    var next := PassLost(pending, 1, poison, absent);
    PassKeepsSilent(pending, 1, poison, absent);
    SilentIsFinal(next, 1, left - 1, poison, absent);
    WithinAll(pending, poison + absent);
  }

  /** Isolation: with enough rounds to halve the chunk down to 1, `unresolved` is exactly the poison and
      absent addresses, unless some pass began with an answerable address pending but every such address behind
      poison in its chunk; and that takes a chunk size above 1. */
  lemma {:induction false} Isolation<A>(pending: seq<A>, size: int, left: nat, poison: iset<A>, absent: iset<A>)
    requires size >= 1 && left >= 1 && size < Pow2(left)
    ensures var run := Climb(pending, size, left, poison, absent);
      && (run.unresolved == Silent(pending, poison, absent)
          <==> forall pass :: pass in run.passes ==> !Premature(pass, poison, absent))
      && (forall pass :: pass in run.passes && Premature(pass, poison, absent) ==> pass.size > 1)
    decreases left
  {
    var next := PassLost(pending, size, poison, absent);
    PassKeepsSilent(pending, size, poison, absent);
    StallsIffBlocked(pending, size, poison, absent);
    if pending == [] {
    } else if |next| == |pending| {
      StalledPassLosesAll(pending, size, poison, absent);
      WithinAll(pending, poison + absent);
      var pass := Pass(size, pending, next);
      assert Climb(pending, size, left, poison, absent).passes == [pass];
      assert pass in [pass];
      if size == 1 {
        PassAtOne(pending, poison, absent);
      }
    } else if size == 1 {
      ClimbAtOne(pending, left, poison, absent);
    } else {
      Isolation(next, size / 2, left - 1, poison, absent);
    }
  }

  /** The defaults are ample: nine passes halve chunks of two hundred down to one. */
  lemma DefaultsReachOne()
    ensures DEFAULT_BATCH_SIZE == 200 && DEFAULT_RETRY_ROUNDS == 8
    ensures Max(1, DEFAULT_BATCH_SIZE) < Pow2(DEFAULT_RETRY_ROUNDS + 1)
  {
    assert Pow2(4) == 16;
    assert Pow2(7) == 8 * Pow2(4);
    assert Pow2(9) == 4 * Pow2(7);
  }

  /** Without poison the first pass leaves the absent addresses alone. */
  lemma FirstPassWithoutPoison<A>(pending: seq<A>, size: int, absent: iset<A>)
    requires size >= 1
    ensures var next := PassLost(pending, size, iset{}, absent);
      next == Within(pending, absent) && Silent(next, iset{}, absent) == next
  {
    assert iset{} + absent == absent;
    PassWithoutPoison(pending, size, absent);
    PassKeepsSilent(pending, size, iset{}, absent);
  }

  /** Without poison at most two passes run: the second only confirms what is absent. */
  lemma {:induction false} TwoPassesWithoutPoison<A>(pending: seq<A>, size: int, left: nat, absent: iset<A>)
    requires size >= 1 && left >= 1
    ensures var run := Climb(pending, size, left, iset{}, absent);
      && run.unresolved == Within(pending, absent)
      && |run.passes| <= 2
  {
    var next := PassLost(pending, size, iset{}, absent);
    FirstPassWithoutPoison(pending, size, absent);
    SilentIsFinal(next, Max(1, size / 2), left - 1, iset{}, absent);
    ClimbStep(pending, size, left, iset{}, absent);
  }

  /** One poison address ahead of an answerable one in the same chunk: the first pass recovers nothing,
      so the guard takes the innocent address for an unanswerable one. */
  lemma GuardStrandsAnInnocent(size: int, left: nat)
    requires size >= 2 && left >= 1
    ensures Climb(["/poison", "/innocent"], size, left, iset{"/poison"}, iset{}).unresolved == ["/poison", "/innocent"]
    ensures Silent(["/poison", "/innocent"], iset{"/poison"}, iset{}) == ["/poison"]
  {
    var pending := ["/poison", "/innocent"];
    assert Lost(pending, iset{"/poison"}, iset{}) == pending;
    assert pending[1..] == ["/innocent"];
    assert Within(["/innocent"], iset{"/poison"} + iset{}) == [];
  }

  /** Isolation for every console and every input holds exactly when the first pass already runs at chunk size 1. */
  lemma IsolationIffOneByOne(size: int, left: nat)
    requires size >= 1 && left >= 1
    ensures (forall pending: seq<string>, poison: iset<string>, absent: iset<string> ::
               Climb(pending, size, left, poison, absent).unresolved == Silent(pending, poison, absent))
            <==> size == 1
  {
    if size == 1 {
      forall pending: seq<string>, poison: iset<string>, absent: iset<string>
        ensures Climb(pending, size, left, poison, absent).unresolved == Silent(pending, poison, absent)
      {
        ClimbAtOne(pending, left, poison, absent);
      }
    } else {
      GuardStrandsAnInnocent(size, left);
    }
  }
}
