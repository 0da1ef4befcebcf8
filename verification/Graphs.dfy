/** Directed graphs by successor lists, as the nested sets of a vocabulary form them: a node with a list is
    live, a name without one may still be named. */
module Graphs {
  import opened Sequences

  type Graph<N> = map<N, seq<N>>

  predicate Edge<N(==)>(g: Graph<N>, x: N, y: N) {
    x in g && y in Elements(g[x])
  }

  /** Each node but the last is live and names the next. */
  predicate Walk<N(==)>(g: Graph<N>, p: seq<N>) {
    p != [] && (|p| > 1 ==> Edge(g, p[0], p[1]) && Walk(g, p[1..]))
  }

  function Last<T>(p: seq<T>): T
    requires p != []
  {
    p[|p| - 1]
  }

  ghost predicate WalkTo<N>(g: Graph<N>, p: seq<N>, x: N, y: N) {
    Walk(g, p) && p[0] == x && Last(p) == y
  }

  ghost predicate Reaches<N(!new)>(g: Graph<N>, x: N, y: N) {
    exists p :: WalkTo(g, p, x, y)
  }

  /** No walk of one step or more comes back to its start. */
  ghost predicate Acyclic<N(!new)>(g: Graph<N>) {
    forall p :: Walk(g, p) && |p| > 1 ==> p[0] != Last(p)
  }

  lemma {:induction false} WalkConcat<N>(g: Graph<N>, p: seq<N>, q: seq<N>)
    requires Walk(g, p) && Walk(g, q) && Last(p) == q[0]
    ensures Walk(g, p + q[1..]) && Last(p + q[1..]) == Last(q)
  {
    if |p| == 1 {
      assert p + q[1..] == q;
    } else {
      WalkConcat(g, p[1..], q);
      assert (p + q[1..])[1..] == p[1..] + q[1..];
    }
  }

  lemma {:induction false} WalkSuffix<N>(g: Graph<N>, p: seq<N>, i: nat)
    requires Walk(g, p) && i < |p|
    ensures Walk(g, p[i..]) && Last(p[i..]) == Last(p)
  {
    if i == 0 {
      assert p[0..] == p;
    } else {
      WalkSuffix(g, p[1..], i - 1);
      assert p[1..][i - 1..] == p[i..];
    }
  }

  lemma {:induction false} WalkPrefix<N>(g: Graph<N>, p: seq<N>, i: nat)
    requires Walk(g, p) && 0 < i <= |p|
    ensures Walk(g, p[..i]) && Last(p[..i]) == p[i - 1]
  {
    if i > 1 {
      WalkPrefix(g, p[1..], i - 1);
      assert p[..i][1..] == p[1..][..i - 1];
    }
  }

  lemma WalkSnoc<N>(g: Graph<N>, p: seq<N>, y: N)
    requires Walk(g, p) && Edge(g, Last(p), y)
    ensures Walk(g, p + [y])
  {
    WalkConcat(g, p, [Last(p), y]);
    assert [Last(p), y][1..] == [y];
  }

  lemma {:induction false} EdgeAt<N>(g: Graph<N>, p: seq<N>, i: nat)
    requires Walk(g, p) && i + 1 < |p|
    ensures Edge(g, p[i], p[i + 1])
  {
    if i > 0 {
      EdgeAt(g, p[1..], i - 1);
    }
  }

  /** Loops can be cut out of a walk. */
  lemma {:induction false} Shorten<N>(g: Graph<N>, p: seq<N>) returns (q: seq<N>)
    requires Walk(g, p)
    ensures WalkTo(g, q, p[0], Last(p)) && Distinct(q) && Elements(q) <= Elements(p)
  {
    if |p| == 1 {
      q := p;
      One(p[0]);
    } else {
      var rest := Shorten(g, p[1..]);
      if p[0] in Elements(rest) {
        var i := IndexOf(rest, p[0]);
        WalkSuffix(g, rest, i);
        SuffixOf(rest, i);
        q := rest[i..];
      } else {
        q := [p[0]] + rest;
      }
    }
  }

  lemma {:induction false} IndexOf<T>(xs: seq<T>, x: T) returns (i: nat)
    requires x in Elements(xs)
    ensures i < |xs| && xs[i] == x && x !in Elements(xs[..i])
  {
    if xs[0] == x {
      i := 0;
    } else {
      var j := IndexOf(xs[1..], x);
      i := j + 1;
      assert xs[..i][1..] == xs[1..][..j];
    }
  }

  lemma SuffixOf<T>(xs: seq<T>, i: nat)
    requires i <= |xs|
    ensures Elements(xs[i..]) <= Elements(xs)
    ensures Distinct(xs) ==> Distinct(xs[i..])
  {
    assert xs == xs[..i] + xs[i..];
    ElementsConcat(xs[..i], xs[i..]);
    DistinctConcat(xs[..i], xs[i..]);
  }

  /** A walk that does not leave from `k` is the same in graphs that differ at `k` alone. */
  lemma {:induction false} WalkElsewhere<N>(g: Graph<N>, h: Graph<N>, k: N, p: seq<N>)
    requires Walk(g, p) && k !in Elements(p[..|p| - 1])
    requires g - {k} == h - {k}
    ensures Walk(h, p)
  {
    if |p| > 1 {
      assert p[..|p| - 1][1..] == p[1..][..|p| - 2];
      assert p[0] in (g - {k}) && g[p[0]] == (g - {k})[p[0]] == (h - {k})[p[0]] == h[p[0]];
      WalkElsewhere(g, h, k, p[1..]);
    }
  }

  /** The part of a walk up to its first visit of `k`. */
  lemma FirstVisit<N>(g: Graph<N>, p: seq<N>, k: N) returns (q: seq<N>)
    requires Walk(g, p) && k in Elements(p)
    ensures WalkTo(g, q, p[0], k) && k !in Elements(q[..|q| - 1]) && |q| <= |p|
  {
    var i := IndexOf(p, k);
    WalkPrefix(g, p, i + 1);
    q := p[..i + 1];
    assert q[..|q| - 1] == p[..i];
  }

  lemma LastIn<T>(p: seq<T>)
    requires p != []
    ensures Last(p) in Elements(p)
  {
    InElements(p, Last(p));
  }

  /** Giving `k` the successors `next` closes a cycle in an acyclic graph exactly when one of them
      already reaches `k`. */
  lemma UpdateAcyclicIff<N(!new)>(g: Graph<N>, k: N, next: seq<N>)
    requires Acyclic(g)
    ensures Acyclic(g[k := next]) <==> forall y :: y in Elements(next) ==> !Reaches(g, y, k)
  {
    var h := g[k := next];
    assert g - {k} == h - {k};
    if y :| y in Elements(next) && Reaches(g, y, k) {
      var p :| WalkTo(g, p, y, k);
      LastIn(p);
      var q := FirstVisit(g, p, k);
      WalkElsewhere(g, h, k, q);
      var c := [k] + q;
      assert Walk(h, c) && c[0] == Last(c) && |c| > 1;
    }
    if c :| Walk(h, c) && |c| > 1 && c[0] == Last(c) {
      var y := CycleThrough(g, h, k, c);
    }
  }

  /** A cycle that the new successors of `k` closed goes through `k`, so one of them reaches `k`. */
  lemma CycleThrough<N(!new)>(g: Graph<N>, h: Graph<N>, k: N, c: seq<N>) returns (y: N)
    requires Acyclic(g) && g - {k} == h - {k} && k in h
    requires Walk(h, c) && |c| > 1 && c[0] == Last(c)
    ensures y in Elements(h[k]) && Reaches(g, y, k)
  {
    if k !in Elements(c[..|c| - 1]) {
      WalkElsewhere(h, g, k, c);
      assert false;
    }
    var i := IndexOf(c[..|c| - 1], k);
    WalkSuffix(h, c, i + 1);
    WalkPrefix(h, c, i + 1);
    EdgeAt(h, c, i);
    y := c[i + 1];
    WalkConcat(h, c[i + 1..], c[..i + 1]);
    var back := c[i + 1..] + c[..i + 1][1..];
    LastIn(back);
    var q := FirstVisit(h, back, k);
    WalkElsewhere(h, g, k, q);
    assert WalkTo(g, q, y, k);
  }

  /** Taking nodes away closes no cycle. */
  lemma RemoveKeepsAcyclic<N(!new)>(g: Graph<N>, k: N)
    requires Acyclic(g)
    ensures Acyclic(g - {k})
  {
    forall p | Walk(g - {k}, p) && |p| > 1
      ensures p[0] != Last(p)
    {
      WalkInLarger(g - {k}, g, p);
    }
  }

  lemma {:induction false} WalkInLarger<N>(g: Graph<N>, h: Graph<N>, p: seq<N>)
    requires Walk(g, p) && g.Keys <= h.Keys && forall x :: x in g ==> g[x] == h[x]
    ensures Walk(h, p)
  {
    if |p| > 1 {
      WalkInLarger(g, h, p[1..]);
    }
  }
}
