/** Nested dictionaries as values: what a `.snap` document, an assembled scene and a parsed dump all are. */
module Trees {
  import opened Results

  type Path = seq<string>

  datatype Tree<V> = Leaf(value: V) | Dir(kids: map<string, Tree<V>>)

  function Empty<V>(): Tree<V> {
    Dir(map[])
  }

  /** The subtree at the end of a path. */
  function At<V>(t: Tree<V>, p: Path): Option<Tree<V>>
    decreases |p|
  {
    if p == [] then Some(t)
    else if t.Dir? && p[0] in t.kids then At(t.kids[p[0]], p[1..])
    else None
  }

  ghost predicate HasDir<V>(t: Tree<V>, p: Path) {
    At(t, p).Some? && At(t, p).value.Dir?
  }

  function LeafAt<V>(t: Tree<V>, p: Path): Option<V> {
    var found := At(t, p);
    if found.Some? && found.value.Leaf? then Some(found.value.value) else None
  }

  /** The subtree at `p`, which is there, replaced. */
  function Graft<V>(t: Tree<V>, p: Path, sub: Tree<V>): Tree<V>
    requires At(t, p).Some?
    decreases |p|
  {
    if p == [] then sub
    else Dir(t.kids[p[0] := Graft(t.kids[p[0]], p[1..], sub)])
  }

  /** The tree with only the given children. */
  ghost function Only<V>(tree: Tree<V>, keys: set<string>): Tree<V> {
    if tree.Leaf? then tree else Dir(map k | k in tree.kids && k in keys :: tree.kids[k])
  }

  /** `setdefault` down the path and an assignment at its end, or nothing when a leaf stands in the way. */
  function Put<V>(t: Tree<V>, p: Path, v: V): Option<Tree<V>>
    requires p != []
    decreases |p|
  {
    if t.Leaf? then None
    else if |p| == 1 then Some(Dir(t.kids[p[0] := Leaf(v)]))
    else
      var below := Put(if p[0] in t.kids then t.kids[p[0]] else Empty(), p[1..], v);
      if below.None? then None else Some(Dir(t.kids[p[0] := below.value]))
  }

  lemma {:induction false} AtConcat<V>(t: Tree<V>, p: Path, q: Path)
    ensures At(t, p + q) == if At(t, p).Some? then At(At(t, p).value, q) else None
    decreases |p|
  {
    if p == [] {
      assert p + q == q;
    } else {
      assert (p + q)[1..] == p[1..] + q;
      if t.Dir? && p[0] in t.kids {
        AtConcat(t.kids[p[0]], p[1..], q);
      }
    }
  }

  lemma {:induction false} GraftAt<V>(t: Tree<V>, p: Path, sub: Tree<V>)
    requires At(t, p).Some?
    ensures At(Graft(t, p, sub), p) == Some(sub)
    decreases |p|
  {
    if p != [] {
      GraftAt(t.kids[p[0]], p[1..], sub);
    }
  }

  lemma {:induction false} GraftTwice<V>(t: Tree<V>, p: Path, sub: Tree<V>, sub': Tree<V>)
    requires At(t, p).Some?
    ensures At(Graft(t, p, sub), p).Some?
    ensures Graft(Graft(t, p, sub), p, sub') == Graft(t, p, sub')
    decreases |p|
  {
    if p != [] {
      GraftTwice(t.kids[p[0]], p[1..], sub, sub');
      var kids, below := t.kids, t.kids[p[0]];
      var first, second := Graft(below, p[1..], sub), Graft(below, p[1..], sub');
      assert kids[p[0] := first][p[0] := second] == kids[p[0] := second];
    }
  }

  lemma {:induction false} GraftDeeper<V>(t: Tree<V>, p: Path, k: string, sub: Tree<V>)
    requires HasDir(t, p) && k in At(t, p).value.kids
    ensures At(t, p + [k]).Some? && Graft(t, p + [k], sub) == Graft(t, p, Dir(At(t, p).value.kids[k := sub]))
    decreases |p|
  {
    AtConcat(t, p, [k]);
    if p == [] {
      assert [k][1..] == [];
    } else {
      assert (p + [k])[1..] == p[1..] + [k];
      GraftDeeper(t.kids[p[0]], p[1..], k, sub);
    }
  }

  lemma {:induction false} GraftSame<V>(t: Tree<V>, p: Path)
    requires At(t, p).Some?
    ensures Graft(t, p, At(t, p).value) == t
    decreases |p|
  {
    if p != [] {
      GraftSame(t.kids[p[0]], p[1..]);
      assert t.kids[p[0] := t.kids[p[0]]] == t.kids;
    }
  }

  /** Putting below a directory changes that directory alone. */
  lemma {:induction false} PutBelow<V>(t: Tree<V>, p: Path, q: Path, v: V)
    requires HasDir(t, p) && q != []
    ensures var below := Put(At(t, p).value, q, v);
      Put(t, p + q, v) == if below.None? then None else Some(Graft(t, p, below.value))
    decreases |p|
  {
    if p == [] {
      assert p + q == q;
    } else {
      assert (p + q)[1..] == p[1..] + q;
      PutBelow(t.kids[p[0]], p[1..], q, v);
    }
  }

  /** An empty directory made on the way is made by the assignment anyway. */
  lemma PutAfterMake<V>(t: Tree<V>, p: Path, k: string, q: Path, v: V)
    requires HasDir(t, p) && k !in At(t, p).value.kids && q != []
    ensures var made := Graft(t, p, Dir(At(t, p).value.kids[k := Empty()]));
      HasDir(made, p + [k]) && Put(made, p + ([k] + q), v) == Put(t, p + ([k] + q), v)
  {
    var here := At(t, p).value;
    var there := Dir(here.kids[k := Empty()]);
    var made := Graft(t, p, there);
    GraftAt(t, p, there);
    AtConcat(made, p, [k]);
    PutBelow(t, p, [k] + q, v);
    PutBelow(made, p, [k] + q, v);
    assert ([k] + q)[1..] == q;
    var below := Put(Empty(), q, v);
    if below.Some? {
      assert there.kids[k := below.value] == here.kids[k := below.value];
      GraftTwice(t, p, there, Dir(here.kids[k := below.value]));
    }
  }

  lemma PutBlocked<V>(t: Tree<V>, p: Path, k: string, q: Path, v: V)
    requires HasDir(t, p) && k in At(t, p).value.kids && At(t, p).value.kids[k].Leaf? && q != []
    ensures Put(t, p + ([k] + q), v).None?
  {
    PutBelow(t, p, [k] + q, v);
    assert ([k] + q)[1..] == q;
  }

  lemma PutHere<V>(t: Tree<V>, p: Path, k: string, v: V)
    requires HasDir(t, p)
    ensures Put(t, p + [k], v) == Some(Graft(t, p, Dir(At(t, p).value.kids[k := Leaf(v)])))
    ensures HasDir(Put(t, p + [k], v).value, p)
  {
    PutBelow(t, p, [k], v);
    GraftAt(t, p, Dir(At(t, p).value.kids[k := Leaf(v)]));
  }

  /** A leaf stands strictly above the end of the path. */
  ghost predicate Blocked<V>(t: Tree<V>, p: Path) {
    exists n :: 0 <= n < |p| && LeafAt(t, p[..n]).Some?
  }

  lemma {:induction false} PutFailsIffBlocked<V>(t: Tree<V>, p: Path, v: V)
    requires p != []
    ensures Put(t, p, v).None? <==> Blocked(t, p)
    decreases |p|
  {
    if t.Leaf? {
      assert LeafAt(t, p[..0]).Some?;
    } else if |p| == 1 {
      assert forall n :: 0 <= n < 1 ==> p[..n] == [];
    } else {
      var k, rest := p[0], p[1..];
      var child := if k in t.kids then t.kids[k] else Empty();
      PutFailsIffBlocked(child, rest, v);
      if Blocked(child, rest) {
        var n :| 0 <= n < |rest| && LeafAt(child, rest[..n]).Some?;
        NoLeafInEmpty<V>(rest[..n]);
        assert p[..n + 1][1..] == rest[..n];
        assert LeafAt(t, p[..n + 1]).Some?;
      }
      if Blocked(t, p) {
        var n :| 0 <= n < |p| && LeafAt(t, p[..n]).Some?;
        assert n > 0 && p[..n][1..] == rest[..n - 1];
        assert LeafAt(child, rest[..n - 1]).Some?;
      }
    }
  }

  lemma NoLeafInEmpty<V>(p: Path)
    ensures LeafAt(Empty<V>(), p).None?
  {
  }

  /** Putting sets the leaf at `p` and keeps every leaf that is not below `p`. */
  lemma {:induction false} PutLeaves<V>(t: Tree<V>, p: Path, v: V, q: Path)
    requires p != [] && Put(t, p, v).Some?
    ensures LeafAt(Put(t, p, v).value, q) ==
            if q == p then Some(v) else if p <= q then None else LeafAt(t, q)
    decreases |p|
  {
    if q != [] && q[0] == p[0] {
      var child := if p[0] in t.kids then t.kids[p[0]] else Empty();
      if |p| == 1 {
        assert p == q[..1];
        assert At(Leaf(v), q[1..]) == if q[1..] == [] then Some(Leaf(v)) else None;
        assert |q| == 1 ==> q == p;
      } else {
        PutLeaves(child, p[1..], v, q[1..]);
        assert p == [p[0]] + p[1..] && q == [q[0]] + q[1..];
        assert p <= q <==> p[1..] <= q[1..];
        NoLeafInEmpty<V>(q[1..]);
      }
    }
  }

  // ----- trees without empty inner directories

  /** Every directory below the root has an entry. */
  ghost predicate Compact<V>(t: Tree<V>) {
    t.Leaf? || forall k :: k in t.kids ==> t.kids[k] != Empty<V>() && Compact(t.kids[k])
  }

  lemma {:induction false} PutKeepsCompact<V>(t: Tree<V>, p: Path, v: V)
    requires p != [] && Put(t, p, v).Some? && Compact(t)
    ensures Compact(Put(t, p, v).value) && Put(t, p, v).value != Empty<V>()
    decreases |p|
  {
    if |p| > 1 {
      PutKeepsCompact(if p[0] in t.kids then t.kids[p[0]] else Empty(), p[1..], v);
    }
    assert p[0] in Put(t, p, v).value.kids;
  }

  /** Such a tree has a leaf unless it is empty. */
  lemma {:induction false} SomeLeaf<V>(t: Tree<V>) returns (p: Path)
    requires Compact(t) && t != Empty<V>()
    ensures LeafAt(t, p).Some?
    decreases t
  {
    if t.Leaf? {
      p := [];
    } else {
      var k :| k in t.kids;
      var q := SomeLeaf(t.kids[k]);
      p := [k] + q;
      assert p[1..] == q;
    }
  }

  ghost predicate SameLeaves<V(!new)>(t: Tree<V>, u: Tree<V>) {
    forall p :: LeafAt(t, p) == LeafAt(u, p)
  }

  /** Compact directories are determined by their leaves. */
  lemma {:induction false} CompactIsDetermined<V(!new)>(t: Tree<V>, u: Tree<V>)
    requires Compact(t) && Compact(u) && SameLeaves(t, u)
    requires t.Dir? <==> u.Dir?
    ensures t == u
    decreases t
  {
    if t.Leaf? {
      assert LeafAt(t, []) == LeafAt(u, []);
    } else {
      KidsIncluded(t, u);
      KidsIncluded(u, t);
      forall k | k in t.kids
        ensures t.kids[k] == u.kids[k]
      {
        KidsShareLeaves(t, u, k);
        CompactIsDetermined(t.kids[k], u.kids[k]);
      }
      assert t.kids == u.kids;
    }
  }

  lemma KidsIncluded<V(!new)>(t: Tree<V>, u: Tree<V>)
    requires t.Dir? && u.Dir? && Compact(t) && SameLeaves(t, u)
    ensures t.kids.Keys <= u.kids.Keys
  {
    forall k | k in t.kids
      ensures k in u.kids
    {
      var q := SomeLeaf(t.kids[k]);
      assert ([k] + q)[1..] == q;
      assert LeafAt(t, [k] + q) == LeafAt(u, [k] + q);
    }
  }

  lemma KidsShareLeaves<V(!new)>(t: Tree<V>, u: Tree<V>, k: string)
    requires t.Dir? && u.Dir? && Compact(t) && Compact(u) && SameLeaves(t, u) && k in t.kids && k in u.kids
    ensures SameLeaves(t.kids[k], u.kids[k])
    ensures t.kids[k].Dir? <==> u.kids[k].Dir?
  {
    forall q
      ensures LeafAt(t.kids[k], q) == LeafAt(u.kids[k], q)
    {
      assert ([k] + q)[1..] == q;
      assert LeafAt(t, [k] + q) == LeafAt(u, [k] + q);
    }
    assert LeafAt(t.kids[k], []) == LeafAt(u.kids[k], []);
  }

  // ----- filling a tree from a flat table

  /** No path is a proper prefix of another. */
  ghost predicate PrefixFree(paths: set<Path>) {
    forall p, q :: p in paths && q in paths && p <= q ==> p == q
  }

  /** The leaves of `t` are exactly the entries of the table. */
  ghost predicate Lists<V(!new)>(t: Tree<V>, table: map<Path, V>) {
    forall p :: LeafAt(t, p) == if p in table then Some(table[p]) else None
  }

  /** The leaves of any tree are prefix-free. */
  lemma LeavesArePrefixFree<V(!new)>(t: Tree<V>, table: map<Path, V>)
    requires Lists(t, table)
    ensures PrefixFree(table.Keys)
  {
    forall p, q | p in table && q in table && p <= q
      ensures p == q
    {
      assert LeafAt(t, p).Some? && LeafAt(t, q).Some?;
      var rest := q[|p|..];
      assert q == p + rest;
      AtConcat(t, p, rest);
    }
  }

  lemma PutLists<V(!new)>(t: Tree<V>, table: map<Path, V>, p: Path, v: V)
    requires t.Dir? && Lists(t, table) && PrefixFree(table.Keys + {p}) && p != []
    ensures Put(t, p, v).Some? && Lists(Put(t, p, v).value, table[p := v])
  {
    PutFailsIffBlocked(t, p, v);
    forall n | 0 <= n < |p|
      ensures LeafAt(t, p[..n]).None?
    {
      assert p[..n] <= p && p[..n] != p;
    }
    forall q
      ensures LeafAt(Put(t, p, v).value, q) == if q in table[p := v] then Some(table[p := v][q]) else None
    {
      PutLeaves(t, p, v, q);
      if p <= q && q in table {
        assert p == q;
      }
    }
  }

  /** The assignments in order, from the given tree. */
  function PutAll<V>(t: Tree<V>, items: seq<(Path, V)>): Option<Tree<V>>
    requires forall i :: 0 <= i < |items| ==> items[i].0 != []
  {
    if items == [] then Some(t)
    else
      var before := PutAll(t, items[..|items| - 1]);
      if before.None? then None else Put(before.value, items[|items| - 1].0, items[|items| - 1].1)
  }

  function Table<V>(items: seq<(Path, V)>): map<Path, V> {
    if items == [] then map[] else Table(items[..|items| - 1])[items[|items| - 1].0 := items[|items| - 1].1]
  }

  /** Prefix-free assignments always succeed, and the tree they build lists exactly them. */
  lemma {:induction false} PutAllLists<V(!new)>(items: seq<(Path, V)>)
    requires forall i :: 0 <= i < |items| ==> items[i].0 != []
    requires PrefixFree(Table(items).Keys)
    ensures PutAll(Empty<V>(), items).Some?
    ensures var t := PutAll(Empty<V>(), items).value; t.Dir? && Compact(t) && Lists(t, Table(items))
  {
    if items == [] {
      forall p
        ensures LeafAt(Empty<V>(), p).None?
      {
        NoLeafInEmpty<V>(p);
      }
    } else {
      var earlier, last := items[..|items| - 1], items[|items| - 1];
      assert Table(earlier).Keys <= Table(items).Keys;
      PutAllLists(earlier);
      var before := PutAll(Empty<V>(), earlier).value;
      assert Table(earlier).Keys + {last.0} == Table(items).Keys;
      PutLists(before, Table(earlier), last.0, last.1);
      PutKeepsCompact(before, last.0, last.1);
    }
  }

  /** The tree depends only on what is filed, not on the order of filing. */
  lemma OrderIsImmaterial<V(!new)>(items: seq<(Path, V)>, items': seq<(Path, V)>)
    requires forall i :: 0 <= i < |items| ==> items[i].0 != []
    requires forall i :: 0 <= i < |items'| ==> items'[i].0 != []
    requires Table(items) == Table(items') && PrefixFree(Table(items).Keys)
    ensures PutAll(Empty<V>(), items) == PutAll(Empty<V>(), items')
  {
    PutAllLists(items);
    PutAllLists(items');
    CompactIsDetermined(PutAll(Empty<V>(), items).value, PutAll(Empty<V>(), items').value);
  }

  /** Any compact tree is rebuilt from its leaves. */
  lemma Rebuild<V(!new)>(t: Tree<V>, items: seq<(Path, V)>)
    requires t.Dir? && Compact(t) && Lists(t, Table(items))
    requires forall i :: 0 <= i < |items| ==> items[i].0 != []
    ensures PutAll(Empty<V>(), items) == Some(t)
  {
    LeavesArePrefixFree(t, Table(items));
    PutAllLists(items);
    CompactIsDetermined(t, PutAll(Empty<V>(), items).value);
  }

  // ----- the finitely many paths of a tree

  ghost function Paths<V>(t: Tree<V>): set<Path> {
    if t.Leaf? then {[]} else {[]} + set k, q | k in t.kids && q in Paths(t.kids[k]) :: [k] + q
  }

  lemma {:induction false} PathsAre<V>(t: Tree<V>, p: Path)
    ensures p in Paths(t) <==> At(t, p).Some?
    decreases |p|
  {
    if p != [] {
      assert p == [p[0]] + p[1..];
      if t.Dir? && p[0] in t.kids {
        PathsAre(t.kids[p[0]], p[1..]);
      }
      forall k, q | t.Dir? && k in t.kids && [k] + q == p
        ensures k == p[0] && q == p[1..]
      {
        assert ([k] + q)[1..] == q;
      }
    }
  }

  lemma {:induction false} SomeLength(paths: set<Path>) returns (n: nat)
    ensures forall p :: p in paths ==> |p| <= n
    decreases |paths|
  {
    if paths == {} {
      n := 0;
    } else {
      var p :| p in paths;
      var m := SomeLength(paths - {p});
      n := m + |p|;
      assert forall q :: q in paths && q != p ==> q in paths - {p};
    }
  }

  /** A tree is only so deep. */
  lemma DepthBound<V>(t: Tree<V>) returns (n: nat)
    ensures forall p :: At(t, p).Some? ==> |p| <= n
  {
    n := SomeLength(Paths(t));
    forall p | At(t, p).Some?
      ensures |p| <= n
    {
      PathsAre(t, p);
    }
  }

  lemma {:induction false} ItemsOf<V>(t: Tree<V>, paths: set<Path>) returns (items: seq<(Path, V)>)
    requires forall p :: p in paths ==> LeafAt(t, p).Some?
    ensures Table(items).Keys == paths && forall p :: p in paths ==> Table(items)[p] == LeafAt(t, p).value
    ensures forall i :: 0 <= i < |items| ==> LeafAt(t, items[i].0) == Some(items[i].1)
    decreases |paths|
  {
    if paths == {} {
      items := [];
    } else {
      var p :| p in paths;
      var rest := ItemsOf(t, paths - {p});
      items := rest + [(p, LeafAt(t, p).value)];
      assert items[..|rest|] == rest;
    }
  }

  /** Every tree's leaves can be listed. */
  lemma Listing<V(!new)>(t: Tree<V>) returns (items: seq<(Path, V)>)
    ensures Lists(t, Table(items))
    ensures forall i :: 0 <= i < |items| ==> LeafAt(t, items[i].0) == Some(items[i].1)
  {
    var paths := set p | p in Paths(t) && LeafAt(t, p).Some?;
    items := ItemsOf(t, paths);
    forall p
      ensures LeafAt(t, p) == if p in Table(items) then Some(Table(items)[p]) else None
    {
      PathsAre(t, p);
    }
  }
}
