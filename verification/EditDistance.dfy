/** The edit distance of wing_parser/showcontext/vocabulary.py: the least number of insertions, deletions,
    substitutions and swaps of adjacent letters, no letter edited twice (optimal string alignment). */
module EditDistance {

  // ----- alignments

  datatype Op = Keep(c: char) | Insert(c: char) | Delete(c: char) | Substitute(c: char, d: char)
      | Swap(c: char, d: char) {
    function From(): string {
      match this
      case Insert(_) => []
      case Swap(c, d) => [c, d]
      case _ => [c]
    }

    function To(): string {
      match this
      case Delete(_) => []
      case Swap(c, d) => [d, c]
      case Substitute(_, d) => [d]
      case _ => [c]
    }

    function Price(): nat {
      if Keep? then 0 else 1
    }

    function Flipped(): Op {
      match this
      case Keep(c) => Keep(c)
      case Insert(c) => Delete(c)
      case Delete(c) => Insert(c)
      case Substitute(c, d) => Substitute(d, c)
      case Swap(c, d) => Swap(d, c)
    }
  }

  function Source(ops: seq<Op>): string {
    if ops == [] then [] else Source(ops[..|ops| - 1]) + ops[|ops| - 1].From()
  }

  function Target(ops: seq<Op>): string {
    if ops == [] then [] else Target(ops[..|ops| - 1]) + ops[|ops| - 1].To()
  }

  function Cost(ops: seq<Op>): nat {
    if ops == [] then 0 else Cost(ops[..|ops| - 1]) + ops[|ops| - 1].Price()
  }

  ghost predicate Aligns(ops: seq<Op>, a: string, b: string) {
    Source(ops) == a && Target(ops) == b
  }

  ghost predicate Attained(a: string, b: string, d: nat) {
    exists ops {:trigger Aligns(ops, a, b)} :: Aligns(ops, a, b) && Cost(ops) == d
  }

  ghost predicate Unbeaten(a: string, b: string, d: nat) {
    forall ops {:trigger Aligns(ops, a, b)} :: Aligns(ops, a, b) ==> d <= Cost(ops)
  }

  /** `d` is the least cost of an alignment of `a` with `b`: some alignment attains it and none beats it. */
  ghost predicate IsDistance(a: string, b: string, d: nat) {
    Attained(a, b, d) && Unbeaten(a, b, d)
  }

  lemma Append(ops: seq<Op>, op: Op, a: string, b: string)
    requires Aligns(ops, a, b)
    ensures Aligns(ops + [op], a + op.From(), b + op.To())
    ensures Cost(ops + [op]) == Cost(ops) + op.Price()
  {
    assert (ops + [op])[..|ops|] == ops;
  }

  /** A non-empty alignment is a shorter alignment and a last operation. */
  lemma Last(ops: seq<Op>, a: string, b: string) returns (rest: seq<Op>, op: Op, a': string, b': string)
    requires Aligns(ops, a, b) && ops != []
    ensures ops == rest + [op] && |rest| == |ops| - 1
    ensures Aligns(rest, a', b') && a == a' + op.From() && b == b' + op.To()
    ensures Cost(ops) == Cost(rest) + op.Price()
  {
    rest, op := ops[..|ops| - 1], ops[|ops| - 1];
    a', b' := Source(rest), Target(rest);
  }

  // ----- one cell of the table

  function Min(a: nat, b: nat): nat {
    if b < a then b else a
  }

  /** The value the table gets from its neighbours; `swap` is absent when the last letters are not swapped. */
  function Cell(up: nat, left: nat, diagonal: nat, same: bool, swapped: bool, beforeSwap: nat): nat {
    var best := Min(Min(up + 1, left + 1), diagonal + if same then 0 else 1);
    if swapped then Min(best, beforeSwap + 1) else best
  }

  /** Whether the last two letters of the prefixes are each other's swap. */
  predicate SwappedAt(a: string, b: string, i: nat, j: nat)
    requires 1 <= i <= |a| && 1 <= j <= |b|
  {
    i > 1 && j > 1 && a[i - 1] == b[j - 2] && a[i - 2] == b[j - 1]
  }

  /** No neighbour leads to the cell more cheaply than the cell says. */
  lemma CellAtMost(up: nat, left: nat, diagonal: nat, same: bool, swapped: bool, beforeSwap: nat)
    ensures var cell := Cell(up, left, diagonal, same, swapped, beforeSwap);
      && cell <= up + 1 && cell <= left + 1 && cell <= diagonal + 1
      && (same ==> cell <= diagonal) && (swapped ==> cell <= beforeSwap + 1)
  {
  }

  lemma CellNotBeaten(a: string, b: string, i: nat, j: nat, up: nat, left: nat, diagonal: nat,
                                         beforeSwap: nat,
                      ops: seq<Op>)
    requires 1 <= i <= |a| && 1 <= j <= |b|
    requires Unbeaten(a[..i - 1], b[..j], up) && Unbeaten(a[..i], b[..j - 1], left)
    requires Unbeaten(a[..i - 1], b[..j - 1], diagonal)
    requires SwappedAt(a, b, i, j) ==> Unbeaten(a[..i - 2], b[..j - 2], beforeSwap)
    requires Aligns(ops, a[..i], b[..j])
    ensures Cell(up, left, diagonal, a[i - 1] == b[j - 1], SwappedAt(a, b, i, j), beforeSwap) <= Cost(ops)
  {
    var rest, op := LastStep(a, b, i, j, ops);
    CellAtMost(up, left, diagonal, a[i - 1] == b[j - 1], SwappedAt(a, b, i, j), beforeSwap);
    var m, n := |op.From()|, |op.To()|;
    if op.Insert? {
      assert m == 0 && n == 1;
      NotBeaten(a[..i], b[..j - 1], left, rest);
    } else if op.Delete? {
      assert m == 1 && n == 0;
      NotBeaten(a[..i - 1], b[..j], up, rest);
    } else if op.Swap? {
      assert m == 2 && n == 2;
      NotBeaten(a[..i - 2], b[..j - 2], beforeSwap, rest);
    } else {
      assert m == 1 && n == 1;
      NotBeaten(a[..i - 1], b[..j - 1], diagonal, rest);
    }
  }

  lemma LastStep(a: string, b: string, i: nat, j: nat, ops: seq<Op>) returns (rest: seq<Op>, op: Op)
    requires 1 <= i <= |a| && 1 <= j <= |b| && Aligns(ops, a[..i], b[..j])
    ensures |op.From()| <= i && |op.To()| <= j
    ensures Aligns(rest, a[..i - |op.From()|], b[..j - |op.To()|]) && Cost(ops) == Cost(rest) + op.Price()
    ensures op.Keep? ==> a[i - 1] == b[j - 1]
    ensures op.Swap? ==> SwappedAt(a, b, i, j)
  {
    var a', b';
    rest, op, a', b' := Last(ops, a[..i], b[..j]);
    LastLetters(a, i, a', op.From());
    LastLetters(b, j, b', op.To());
  }

  lemma NotBeaten(a: string, b: string, d: nat, ops: seq<Op>)
    requires Unbeaten(a, b, d) && Aligns(ops, a, b)
    ensures d <= Cost(ops)
  {
  }

  /** The prefix before the last letters, and the letters. */
  lemma LastLetters(a: string, i: nat, a': string, end: string)
    requires i <= |a| && a[..i] == a' + end
    ensures |end| <= i && a' == a[..i - |end|]
    ensures |end| == 1 ==> end[0] == a[i - 1]
    ensures |end| == 2 ==> end[0] == a[i - 2] && end[1] == a[i - 1]
  {
    assert |a'| == i - |end|;
    if |end| == 1 {
      assert (a' + end)[|a'|] == a[..i][i - 1];
    } else if |end| == 2 {
      assert (a' + end)[|a'|] == a[..i][i - 2];
      assert (a' + end)[|a'| + 1] == a[..i][i - 1];
    }
  }

  lemma OneMore(a: string, b: string, d: nat, op: Op, a': string, b': string) returns (ops: seq<Op>)
    requires Attained(a, b, d)
    requires a' == a + op.From() && b' == b + op.To()
    ensures Aligns(ops, a', b') && Cost(ops) == d + op.Price()
  {
    var rest :| Aligns(rest, a, b) && Cost(rest) == d;
    Append(rest, op, a, b);
    ops := rest + [op];
  }

  lemma CellAttained(a: string, b: string, i: nat, j: nat, up: nat, left: nat, diagonal: nat, beforeSwap: nat)
    returns (ops: seq<Op>)
    requires 1 <= i <= |a| && 1 <= j <= |b|
    requires Attained(a[..i - 1], b[..j], up) && Attained(a[..i], b[..j - 1], left)
    requires Attained(a[..i - 1], b[..j - 1], diagonal)
    requires SwappedAt(a, b, i, j) ==> Attained(a[..i - 2], b[..j - 2], beforeSwap)
    ensures Aligns(ops, a[..i], b[..j])
    ensures Cost(ops) == Cell(up, left, diagonal, a[i - 1] == b[j - 1], SwappedAt(a, b, i, j), beforeSwap)
  {
    var cost := Cell(up, left, diagonal, a[i - 1] == b[j - 1], SwappedAt(a, b, i, j), beforeSwap);
    if cost == up + 1 {
      assert a[..i] == a[..i - 1] + [a[i - 1]] && b[..j] == b[..j] + [];
      ops := OneMore(a[..i - 1], b[..j], up, Delete(a[i - 1]), a[..i], b[..j]);
    } else if cost == left + 1 {
      assert a[..i] == a[..i] + [] && b[..j] == b[..j - 1] + [b[j - 1]];
      ops := OneMore(a[..i], b[..j - 1], left, Insert(b[j - 1]), a[..i], b[..j]);
    } else if SwappedAt(a, b, i, j) && cost == beforeSwap + 1 {
      ops := OneSwap(a, b, i, j, beforeSwap);
    } else {
      assert a[..i] == a[..i - 1] + [a[i - 1]] && b[..j] == b[..j - 1] + [b[j - 1]];
      ops := OneMore(a[..i - 1], b[..j - 1], diagonal,
                     if a[i - 1] == b[j - 1] then Keep(a[i - 1]) else Substitute(a[i - 1], b[j - 1]), a[..i], b[..j]);
    }
  }

  lemma OneSwap(a: string, b: string, i: nat, j: nat, d: nat) returns (ops: seq<Op>)
    requires 1 <= i <= |a| && 1 <= j <= |b| && SwappedAt(a, b, i, j)
    requires Attained(a[..i - 2], b[..j - 2], d)
    ensures Aligns(ops, a[..i], b[..j]) && Cost(ops) == d + 1
  {
    assert a[..i] == a[..i - 2] + [a[i - 2], a[i - 1]] && b[..j] == b[..j - 2] + [a[i - 1], a[i - 2]];
    ops := OneMore(a[..i - 2], b[..j - 2], d, Swap(a[i - 2], a[i - 1]), a[..i], b[..j]);
  }

  lemma CellIsDistance(a: string, b: string, i: nat, j: nat, up: nat, left: nat, diagonal: nat, beforeSwap: nat)
    requires 1 <= i <= |a| && 1 <= j <= |b|
    requires IsDistance(a[..i - 1], b[..j], up) && IsDistance(a[..i], b[..j - 1], left)
    requires IsDistance(a[..i - 1], b[..j - 1], diagonal)
    requires SwappedAt(a, b, i, j) ==> IsDistance(a[..i - 2], b[..j - 2], beforeSwap)
    ensures IsDistance(a[..i], b[..j],
                       Cell(up, left, diagonal, a[i - 1] == b[j - 1], SwappedAt(a, b, i, j), beforeSwap))
  {
    var best := CellAttained(a, b, i, j, up, left, diagonal, beforeSwap);
    forall ops | Aligns(ops, a[..i], b[..j])
      ensures Cost(best) <= Cost(ops)
    {
      CellNotBeaten(a, b, i, j, up, left, diagonal, beforeSwap, ops);
    }
  }

  lemma DistanceIsUnique(a: string, b: string, d: nat, e: nat)
    requires IsDistance(a, b, d) && IsDistance(a, b, e)
    ensures d == e
  {
  }

  function Front(a: string): string
    requires a != []
  {
    a[..|a| - 1]
  }

  function Final(a: string): char
    requires a != []
  {
    a[|a| - 1]
  }

  // ----- bounds on every alignment

  lemma {:induction false} CostBounds(ops: seq<Op>, a: string, b: string)
    requires Aligns(ops, a, b)
    ensures |a| - |b| <= Cost(ops) && |b| - |a| <= Cost(ops)
    ensures Cost(ops) == 0 ==> a == b
    decreases |ops|
  {
    if ops != [] {
      var rest, op, a', b' := Last(ops, a, b);
      CostBounds(rest, a', b');
    }
  }

  /** Substituting, deleting and inserting position by position. */
  lemma {:induction false} Rewrite(a: string, b: string) returns (ops: seq<Op>)
    ensures Aligns(ops, a, b)
    ensures Cost(ops) <= if |a| < |b| then |b| else |a|
    ensures a == b ==> Cost(ops) == 0
    decreases |a| + |b|
  {
    if a == [] && b == [] {
      ops := [];
    } else if |a| > |b| {
      var rest := Rewrite(Front(a), b);
      Append(rest, Delete(Final(a)), Front(a), b);
      ops := rest + [Delete(Final(a))];
      assert a == Front(a) + [Final(a)] && b == b + [];
    } else if |a| < |b| {
      var rest := Rewrite(a, Front(b));
      Append(rest, Insert(Final(b)), a, Front(b));
      ops := rest + [Insert(Final(b))];
      assert a == a + [] && b == Front(b) + [Final(b)];
    } else {
      ops := RewriteLast(a, b);
    }
  }

  lemma RewriteLast(a: string, b: string) returns (ops: seq<Op>)
    requires |a| == |b| > 0
    ensures Aligns(ops, a, b) && Cost(ops) <= |a|
    ensures a == b ==> Cost(ops) == 0
    decreases |a| + |b|, 0
  {
    var op := if Final(a) == Final(b) then Keep(Final(a)) else Substitute(Final(a), Final(b));
    var rest := Rewrite(Front(a), Front(b));
    Append(rest, op, Front(a), Front(b));
    ops := rest + [op];
    assert a == Front(a) + [Final(a)] && b == Front(b) + [Final(b)];
  }

  /** The distance to the empty string is the length: the first row and column of the table. */
  lemma EdgeIsDistance(a: string)
    ensures IsDistance(a, [], |a|) && IsDistance([], a, |a|)
  {
    var down := Rewrite(a, []);
    var across := Rewrite([], a);
    forall ops | Aligns(ops, a, [])
      ensures |a| <= Cost(ops)
    {
      CostBounds(ops, a, []);
    }
    forall ops | Aligns(ops, [], a)
      ensures |a| <= Cost(ops)
    {
      CostBounds(ops, [], a);
    }
  }

  lemma {:induction false} Flip(ops: seq<Op>, a: string, b: string) returns (flipped: seq<Op>)
    requires Aligns(ops, a, b)
    ensures Aligns(flipped, b, a) && Cost(flipped) == Cost(ops)
    decreases |ops|
  {
    if ops == [] {
      flipped := [];
    } else {
      var rest, op, a', b' := Last(ops, a, b);
      var flippedRest := Flip(rest, a', b');
      Append(flippedRest, op.Flipped(), b', a');
      flipped := flippedRest + [op.Flipped()];
    }
  }

  /** Symmetric, zero exactly on equal strings, between the difference of the lengths and the longer length. */
  lemma DistanceLaws(a: string, b: string, d: nat)
    requires IsDistance(a, b, d)
    ensures IsDistance(b, a, d)
    ensures d == 0 <==> a == b
    ensures |a| - |b| <= d && |b| - |a| <= d <= if |a| < |b| then |b| else |a|
  {
    var best :| Aligns(best, a, b) && Cost(best) == d;
    CostBounds(best, a, b);
    var rewrite := Rewrite(a, b);
    var flipped := Flip(best, a, b);
    forall ops | Aligns(ops, b, a)
      ensures d <= Cost(ops)
    {
      var back := Flip(ops, b, a);
    }
  }

  // ----- the table

  ghost predicate IsTable(table: (nat, nat) -> nat, a: string, b: string) {
    forall i: nat, j: nat {:trigger IsDistance(a[..i], b[..j], table(i, j))} ::
      i <= |a| && j <= |b| ==> IsDistance(a[..i], b[..j], table(i, j))
  }

  lemma {:induction false} DistanceExists(a: string, b: string, i: nat, j: nat) returns (d: nat)
    requires i <= |a| && j <= |b|
    ensures IsDistance(a[..i], b[..j], d)
  {
    if i == 0 || j == 0 {
      EdgeIsDistance(a[..i]);
      EdgeIsDistance(b[..j]);
      d := i + j;
    } else {
      var up := DistanceExists(a, b, i - 1, j);
      var left := DistanceExists(a, b, i, j - 1);
      var diagonal := DistanceExists(a, b, i - 1, j - 1);
      var beforeSwap := 0;
      if SwappedAt(a, b, i, j) {
        beforeSwap := DistanceExists(a, b, i - 2, j - 2);
      }
      CellIsDistance(a, b, i, j, up, left, diagonal, beforeSwap);
      d := Cell(up, left, diagonal, a[i - 1] == b[j - 1], SwappedAt(a, b, i, j), beforeSwap);
    }
  }

  ghost function Distance(a: string, b: string): (d: nat)
    ensures IsDistance(a, b, d)
  {
    assert exists d: nat :: IsDistance(a, b, d) by {
      var d := DistanceExists(a, b, |a|, |b|);
      assert a[..|a|] == a && b[..|b|] == b;
    }
    var d: nat :| IsDistance(a, b, d);
    d
  }

  lemma TableExists(a: string, b: string) returns (table: (nat, nat) -> nat)
    ensures IsTable(table, a, b)
  {
    table := (i: nat, j: nat) => if i <= |a| && j <= |b| then Distance(a[..i], b[..j]) else 0;
  }

  lemma Edges(table: (nat, nat) -> nat, a: string, b: string)
    requires IsTable(table, a, b)
    ensures forall k :: 0 <= k <= |a| ==> table(k, 0) == k
    ensures forall l :: 0 <= l <= |b| ==> table(0, l) == l
  {
    forall k | 0 <= k <= |a| ensures table(k, 0) == k {
      EdgeIsDistance(a[..k]);
      DistanceIsUnique(a[..k], b[..0], table(k, 0), k);
    }
    forall l | 0 <= l <= |b| ensures table(0, l) == l {
      EdgeIsDistance(b[..l]);
      DistanceIsUnique(a[..0], b[..l], table(0, l), l);
    }
  }

  /** The recurrence the program computes is the one the least costs obey. */
  lemma Recurrence(table: (nat, nat) -> nat, a: string, b: string, i: nat, j: nat)
    requires IsTable(table, a, b)
    requires 1 <= i <= |a| && 1 <= j <= |b|
    ensures table(i, j) == Cell(table(i - 1, j), table(i, j - 1), table(i - 1, j - 1), a[i - 1] == b[j - 1],
                                SwappedAt(a, b, i, j), if SwappedAt(a, b, i, j) then table(i - 2, j - 2) else 0)
  {
    var beforeSwap := if SwappedAt(a, b, i, j) then table(i - 2, j - 2) else 0;
    TableAt(table, a, b, i, j);
    TableAt(table, a, b, i - 1, j);
    TableAt(table, a, b, i, j - 1);
    TableAt(table, a, b, i - 1, j - 1);
    if SwappedAt(a, b, i, j) {
      TableAt(table, a, b, i - 2, j - 2);
    }
    CellIsDistance(a, b, i, j, table(i - 1, j), table(i, j - 1), table(i - 1, j - 1), beforeSwap);
    DistanceIsUnique(a[..i], b[..j], table(i, j),
                     Cell(table(i - 1, j), table(i, j - 1), table(i - 1, j - 1), a[i - 1] == b[j - 1],
                          SwappedAt(a, b, i, j), beforeSwap));
  }

  lemma TableAt(table: (nat, nat) -> nat, a: string, b: string, i: nat, j: nat)
    requires IsTable(table, a, b) && i <= |a| && j <= |b|
    ensures IsDistance(a[..i], b[..j], table(i, j))
  {
  }

  /** The table, filled in place row by row. */
  method Levenshtein(a: string, b: string) returns (d: nat)
    ensures IsDistance(a, b, d)
  {
    var la, lb := |a|, |b|;
    ghost var table := TableExists(a, b);
    Edges(table, a, b);
    var distances := new nat[la + 1, lb + 1]((i, j) => 0);
    for i := 0 to la + 1
      invariant forall k :: 0 <= k < i ==> distances[k, 0] == k
    {
      distances[i, 0] := i;
    }
    for j := 0 to lb + 1
      invariant forall k :: 0 < k <= la ==> distances[k, 0] == k
      invariant forall l :: 0 <= l < j ==> distances[0, l] == l
    {
      distances[0, j] := j;
    }
    for i := 1 to la + 1
      invariant forall k :: 0 <= k <= la ==> distances[k, 0] == table(k, 0)
      invariant RowsDone(distances, table, i, lb)
    {
      FillRow(distances, a, b, i, table);
    }
    assert a[..la] == a && b[..lb] == b;
    TableAt(table, a, b, la, lb);
    d := distances[la, lb];
  }

  ghost predicate RowsDone(distances: array2<nat>, table: (nat, nat) -> nat, i: nat, lb: nat)
    requires i <= distances.Length0 && lb < distances.Length1
    reads distances
  {
    forall k, l :: 0 <= k < i && 0 <= l <= lb ==> distances[k, l] == table(k, l)
  }

  /** The inner loop: one row from those above it. */
  method FillRow(distances: array2<nat>, a: string, b: string, i: nat, ghost table: (nat, nat) -> nat)
    requires distances.Length0 == |a| + 1 && distances.Length1 == |b| + 1 && 1 <= i <= |a|
    requires IsTable(table, a, b) && RowsDone(distances, table, i, |b|)
    requires forall k :: 0 <= k <= |a| ==> distances[k, 0] == table(k, 0)
    modifies distances
    ensures RowsDone(distances, table, i + 1, |b|)
    ensures forall k :: 0 <= k <= |a| ==> distances[k, 0] == table(k, 0)
  {
    for j := 1 to |b| + 1
      invariant forall k :: 0 <= k <= |a| ==> distances[k, 0] == table(k, 0)
      invariant RowsDone(distances, table, i, |b|)
      invariant forall l :: 0 <= l < j ==> distances[i, l] == table(i, l)
    {
      Recurrence(table, a, b, i, j);
      var cost := if a[i - 1] == b[j - 1] then 0 else 1;
      distances[i, j] := Min(Min(distances[i - 1, j] + 1, distances[i, j - 1] + 1), distances[i - 1, j - 1] + cost);
      if i > 1 && j > 1 && a[i - 1] == b[j - 2] && a[i - 2] == b[j - 1] {
        distances[i, j] := Min(distances[i, j], distances[i - 2, j - 2] + 1);
      }
    }
  }

  // ----- one edit

  datatype Edit = InsertAt(k: nat, c: char) | DeleteAt(k: nat) | SubstituteAt(k: nat, c: char) | SwapAt(k: nat) {
    predicate Fits(a: string) {
      match this
      case InsertAt(k, _) => k <= |a|
      case DeleteAt(k) => k < |a|
      case SubstituteAt(k, _) => k < |a|
      case SwapAt(k) => k + 1 < |a|
    }

    function Apply(a: string): string
      requires Fits(a)
    {
      match this
      case InsertAt(k, c) => a[..k] + [c] + a[k..]
      case DeleteAt(k) => a[..k] + a[k + 1..]
      case SubstituteAt(k, c) => a[..k] + [c] + a[k + 1..]
      case SwapAt(k) => a[..k] + [a[k + 1], a[k]] + a[k + 2..]
    }
  }

  /** `b` is `a` with one insertion, deletion, substitution or adjacent swap, and differs from `a`. */
  ghost predicate OneEdit(a: string, b: string) {
    a != b && exists e: Edit :: e.Fits(a) && e.Apply(a) == b
  }

  /** An alignment of cost 1 is one edit. */
  lemma {:induction false} FindEdit(ops: seq<Op>, a: string, b: string) returns (e: Edit)
    requires Aligns(ops, a, b) && Cost(ops) == 1
    ensures e.Fits(a) && e.Apply(a) == b
    decreases |ops|
  {
    var rest, op, a', b' := Last(ops, a, b);
    if op.Keep? {
      e := FindEdit(rest, a', b');
      Extend(e, a', op.c);
    } else {
      CostBounds(rest, a', b');
      e := if op.Insert? then InsertAt(|a'|, op.c)
        else if op.Delete? then DeleteAt(|a'|)
        else if op.Substitute? then SubstituteAt(|a'|, op.d)
        else SwapAt(|a'|);
    }
  }

  /** An edit is not disturbed by a letter at the end. */
  lemma Extend(e: Edit, a: string, c: char)
    requires e.Fits(a)
    ensures e.Fits(a + [c]) && e.Apply(a + [c]) == e.Apply(a) + [c]
  {
    var k := e.k;
    match e
    case InsertAt(_, d) =>
      Longer(a, c, k);
      EndsLater(a[..k], [d], a[k..], c);
    case DeleteAt(_) =>
      Longer(a, c, k);
      Longer(a, c, k + 1);
      EndsLater(a[..k], [], a[k + 1..], c);
      assert a[..k] + [] == a[..k];
    case SubstituteAt(_, d) =>
      Longer(a, c, k);
      Longer(a, c, k + 1);
      EndsLater(a[..k], [d], a[k + 1..], c);
    case SwapAt(_) =>
      Longer(a, c, k);
      Longer(a, c, k + 2);
      EndsLater(a[..k], [a[k + 1], a[k]], a[k + 2..], c);
  }

  lemma Longer(a: string, c: char, k: nat)
    requires k <= |a|
    ensures (a + [c])[..k] == a[..k] && (a + [c])[k..] == a[k..] + [c]
  {
  }

  lemma EndsLater(front: string, middle: string, tail: string, c: char)
    ensures front + middle + (tail + [c]) == front + middle + tail + [c]
  {
  }

  /** One edit is an alignment of cost 1. */
  lemma EditAligns(a: string, e: Edit) returns (ops: seq<Op>)
    requires e.Fits(a)
    ensures Aligns(ops, a, e.Apply(a)) && Cost(ops) == 1
  {
    var k := e.k;
    var op := match e
      case InsertAt(_, c) => Insert(c)
      case DeleteAt(_) => Delete(a[k])
      case SubstituteAt(_, c) => Substitute(a[k], c)
      case SwapAt(_) => Swap(a[k], a[k + 1]);
    var rest := a[k + |op.From()|..];
    var prefix := Rewrite(a[..k], a[..k]);
    Append(prefix, op, a[..k], a[..k]);
    ops := KeepAll(prefix + [op], a[..k] + op.From(), a[..k] + op.To(), rest);
    Around(a, e, op);
  }

  lemma Around(a: string, e: Edit, op: Op)
    requires e.Fits(a)
    requires match e
      case InsertAt(_, c) => op == Insert(c)
      case DeleteAt(k) => op == Delete(a[k])
      case SubstituteAt(k, c) => op == Substitute(a[k], c)
      case SwapAt(k) => op == Swap(a[k], a[k + 1])
    ensures a[..e.k] + op.From() + a[e.k + |op.From()|..] == a
    ensures a[..e.k] + op.To() + a[e.k + |op.From()|..] == e.Apply(a)
  {
  }

  lemma {:induction false} KeepAll(ops: seq<Op>, a: string, b: string, rest: string) returns (longer: seq<Op>)
    requires Aligns(ops, a, b)
    ensures Aligns(longer, a + rest, b + rest) && Cost(longer) == Cost(ops)
    decreases |rest|
  {
    if rest == [] {
      longer := ops;
      assert a + rest == a && b + rest == b;
    } else {
      var c := rest[0];
      Append(ops, Keep(c), a, b);
      longer := KeepAll(ops + [Keep(c)], a + [c], b + [c], rest[1..]);
      assert a + [c] + rest[1..] == a + rest && b + [c] + rest[1..] == b + rest;
    }
  }

  /** Distance 1 is exactly one edit. */
  lemma DistanceOneIffOneEdit(a: string, b: string)
    ensures IsDistance(a, b, 1) <==> OneEdit(a, b)
  {
    if IsDistance(a, b, 1) {
      DistanceLaws(a, b, 1);
      var best :| Aligns(best, a, b) && Cost(best) == 1;
      var e := FindEdit(best, a, b);
    }
    if OneEdit(a, b) {
      var e: Edit :| e.Fits(a) && e.Apply(a) == b;
      var one := EditAligns(a, e);
      forall ops | Aligns(ops, a, b)
        ensures 1 <= Cost(ops)
      {
        CostBounds(ops, a, b);
      }
    }
  }
}
