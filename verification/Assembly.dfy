/** Filing leaf values into the two trees of a scene (wing_parser/net/snapshot.py) and flattening them again
    (wing_parser/cli/net_commands.py). An address is the sequence of its segments. */
module Assembly {
  import opened Results
  import opened SharedMaps
  import opened Trees
  import opened Dicts
  import opened Strings
  import opened Sequences

  const CE_ROOT := "$ctl"

  // ----- addresses as text

  /** `"/" + "/".join(path)`. */
  function AddressOf(path: Path): string {
    ['/'] + Join(path, '/')
  }

  /** `address.lstrip("/").split("/")`. */
  function Segments(address: string): Path {
    Split(address[Leading(address, '/')..], '/')
  }

  ghost predicate Named(path: Path) {
    path != [] && path[0] != "" && forall k :: 0 <= k < |path| ==> FreeOf(path[k], '/')
  }

  /** Splitting an address gives back the segments it was joined from, however many slashes it starts with. */
  lemma SegmentsOfAddress(path: Path, slashes: nat)
    requires Named(path)
    ensures Segments(Repeat('/', slashes) + Join(path, '/')) == path && Segments(AddressOf(path)) == path
  {
    var text := Join(path, '/');
    assert text != "" && text[0] == path[0][0];
    assert Repeat('/', 1) == ['/'] + Repeat('/', 0) == ['/'];
    LeadingIs('/', 1, text);
    LeadingIs('/', slashes, text);
    SplitJoin(path, '/');
  }

  /** The walk's way of naming a child is the join of the longer path. */
  lemma ChildAddress(path: Path, name: string)
    requires path != []
    ensures AddressOf([name]) == ['/'] + name
    ensures AddressOf(path + [name]) == AddressOf(path) + ['/'] + name
  {
    ChildJoin(path, name);
    assert ['/'] + (Join(path, '/') + ['/'] + name) == ['/'] + Join(path, '/') + ['/'] + name;
  }

  lemma {:induction false} ChildJoin(path: Path, name: string)
    requires path != []
    ensures Join(path + [name], '/') == Join(path, '/') + ['/'] + name
  {
    if |path| == 1 {
      assert (path + [name])[1..] == [name];
    } else {
      assert (path + [name])[1..] == path[1..] + [name];
      ChildJoin(path[1..], name);
      var below := Join(path[1..], '/');
      assert path[0] + ['/'] + (below + ['/'] + name) == path[0] + ['/'] + below + ['/'] + name;
    }
  }

  // ----- filing

  datatype Scene<V> = Scene(ae: Tree<V>, ce: Tree<V>)

  /** One leaf, filed in ce below `$ctl` or in ae; nothing when a leaf is in the way or no segment is left. */
  function Filed<V>(scene: Scene<V>, address: Path, v: V): Option<Scene<V>>
    requires address != []
  {
    if address[0] == CE_ROOT then
      if |address| == 1 then None
      else
        var ce := Put(scene.ce, address[1..], v);
        if ce.None? then None else Some(scene.(ce := ce.value))
    else
      var ae := Put(scene.ae, address, v);
      if ae.None? then None else Some(scene.(ae := ae.value))
  }

  /** The chain has followed the first `i` segments. */
  ghost predicate OnPath<V>(world: seq<DictNode<V>>, stack: seq<DictNode<V>>, tree: DictNode<V>, segments: Path, i: nat)
    requires i <= |segments|
    reads world
  {
    Stacked(world, stack) && tree == stack[|stack| - 1] && Cursor(world, stack) == segments[..i]
  }

  /** The `setdefault` loop: down all segments but the last. */
  method Reach<V>(root: DictNode<V>, segments: Path, ghost v: V, ghost world: seq<DictNode<V>>)
    returns (ok: bool, tree: DictNode<V>, ghost stack: seq<DictNode<V>>, ghost world': seq<DictNode<V>>)
    requires Valid(world) && world != [] && root == world[0] && segments != []
    modifies Members(world)
    ensures Grown(world, world') && forall d :: d in Members(world') ==> d in Members(world) || fresh(d)
    ensures ok <==> Put(old(Value(world)), segments, v).Some?
    ensures ok ==> OnPath(world', stack, tree, segments, |segments| - 1)
    ensures ok ==> Put(Value(world'), segments, v) == Put(old(Value(world)), segments, v)
  {
    var n := |segments| - 1;
    ghost var goal := Put(Value(world), segments, v);
    RootStack(world);
    tree, stack, world' := root, [root], world;
    for i := 0 to n
      invariant Grown(world, world') && forall d :: d in Members(world') ==> d in Members(world) || fresh(d)
      invariant OnPath(world', stack, tree, segments, i)
      invariant Put(Value(world'), segments, v) == goal
    {
      Segment(segments, i);
      MemberAt(world', tree.id);
      ok, tree, world' := Into(tree, segments[i], stack, world', segments[i + 1..], segments, v);
      if !ok {
        return;
      }
      stack := stack + [tree];
    }
    ok := true;
    AtTheEnd(segments, v, stack, world');
  }

  lemma AtTheEnd<V>(segments: Path, v: V, stack: seq<DictNode<V>>, world: seq<DictNode<V>>)
    requires segments != [] && Stacked(world, stack) && Cursor(world, stack) == segments[..|segments| - 1]
    ensures Put(Value(world), segments, v).Some?
  {
    var n := |segments| - 1;
    LastSegment(segments);
    CursorLength(world, stack);
    PutHere(Value(world), segments[..n], segments[n], v);
  }

  lemma Segment(segments: Path, i: nat)
    requires i < |segments|
    ensures segments[..i] + ([segments[i]] + segments[i + 1..]) == segments
    ensures segments[..i] + [segments[i]] == segments[..i + 1]
  {
  }

  lemma LastSegment(segments: Path)
    requires segments != []
    ensures segments[..|segments| - 1] + [segments[|segments| - 1]] == segments
  {
  }

  method PlaceIn<V>(root: DictNode<V>, segments: Path, v: V, ghost world: seq<DictNode<V>>)
    returns (ok: bool, ghost world': seq<DictNode<V>>)
    requires Valid(world) && world != [] && root == world[0] && segments != []
    modifies Members(world)
    ensures Grown(world, world') && forall d :: d in Members(world') ==> d in Members(world) || fresh(d)
    ensures ok <==> Put(old(Value(world)), segments, v).Some?
    ensures ok ==> Valid(world') && Some(Value(world')) == Put(old(Value(world)), segments, v)
  {
    var tree;
    ghost var stack;
    ok, tree, stack, world' := Reach(root, segments, v, world);
    if ok {
      AssignLast(tree, segments, v, stack, world');
    }
  }

  /** The assignment at the end of the path. */
  method AssignLast<V>(tree: DictNode<V>, segments: Path, v: V, ghost stack: seq<DictNode<V>>,
                       ghost world: seq<DictNode<V>>)
    requires segments != [] && OnPath(world, stack, tree, segments, |segments| - 1)
    modifies Members(world)
    ensures Valid(world) && Some(Value(world)) == Put(old(Value(world)), segments, v)
  {
    LastSegment(segments);
    MemberAt(world, tree.id);
    Assign(tree, segments[|segments| - 1], v, stack, world);
  }

  /** The same, with the other tree left alone. */
  method PlaceBeside<V>(root: DictNode<V>, segments: Path, v: V, ghost world: seq<DictNode<V>>,
                        ghost other: seq<DictNode<V>>)
    returns (ok: bool, ghost world': seq<DictNode<V>>)
    requires Valid(world) && world != [] && root == world[0] && segments != []
    requires Valid(other) && Members(world) !! Members(other)
    modifies Members(world)
    ensures Grown(world, world') && forall d :: d in Members(world') ==> d in Members(world) || fresh(d)
    ensures ok <==> Put(old(Value(world)), segments, v).Some?
    ensures ok ==> Valid(world') && Some(Value(world')) == Put(old(Value(world)), segments, v)
    ensures Valid(other) && Value(other) == old(Value(other)) && Members(world') !! Members(other)
  {
    assert allocated(Members(other));
    MembersAre(other);
    WiredIs(other, |other|);
    ok, world' := PlaceIn(root, segments, v, world);
    Untouched(other);
  }

  // ----- filing a whole snapshot

  /** An address that names a leaf: not the root of ce itself. */
  predicate Proper(address: Path) {
    address != [] && address != [CE_ROOT]
  }

  ghost predicate AllProper<V>(items: seq<(Path, V)>) {
    forall i :: 0 <= i < |items| ==> Proper(items[i].0)
  }

  /** The leaves one after the other, into empty trees. */
  ghost function FiledAll<V>(items: seq<(Path, V)>): Option<Scene<V>>
    requires AllProper(items)
  {
    if items == [] then Some(Scene(Empty(), Empty()))
    else
      var before := FiledAll(items[..|items| - 1]);
      if before.None? then None else Filed(before.value, items[|items| - 1].0, items[|items| - 1].1)
  }

  /** The leaf of a scene under an address, ce first. */
  function RawLeafAt<V>(scene: Scene<V>, address: Path): Option<V> {
    if address != [] && address[0] == CE_ROOT && LeafAt(scene.ce, address[1..]).Some? then
      LeafAt(scene.ce, address[1..])
    else LeafAt(scene.ae, address)
  }

  /** The items of one of the two trees, keyed as that tree keys them. */
  ghost function Side<V>(items: seq<(Path, V)>, ce: bool): (r: seq<(Path, V)>)
    requires AllProper(items)
    ensures forall i :: 0 <= i < |r| ==> r[i].0 != []
  {
    if items == [] then []
    else
      var before, last := Side(items[..|items| - 1], ce), items[|items| - 1];
      if (last.0[0] == CE_ROOT) != ce then before
      else before + [(if ce then last.0[1..] else last.0, last.1)]
  }

  lemma {:induction false} FiledAllSplits<V>(items: seq<(Path, V)>)
    requires AllProper(items)
    ensures var ae, ce := PutAll(Empty<V>(), Side(items, false)), PutAll(Empty<V>(), Side(items, true));
      FiledAll(items) == if ae.None? || ce.None? then None else Some(Scene(ae.value, ce.value))
  {
    if items != [] {
      var earlier, last := items[..|items| - 1], items[|items| - 1];
      FiledAllSplits(earlier);
      var ce := last.0[0] == CE_ROOT;
      var before := Side(earlier, ce);
      assert Side(items, ce)[..|before|] == before;
    }
  }

  ghost predicate Keyed(p: Path, ce: bool) {
    p != [] && (!ce ==> p[0] != CE_ROOT)
  }

  function Whole(p: Path, ce: bool): Path {
    if ce then [CE_ROOT] + p else p
  }

  lemma {:induction false} SideTable<V>(items: seq<(Path, V)>, ce: bool)
    requires AllProper(items)
    ensures forall p :: p in Table(Side(items, ce)) <==> Keyed(p, ce) && Whole(p, ce) in Table(items)
    ensures forall p :: p in Table(Side(items, ce)) ==> Table(Side(items, ce))[p] == Table(items)[Whole(p, ce)]
  {
    if items != [] {
      var earlier, last := items[..|items| - 1], items[|items| - 1];
      SideTable(earlier, ce);
      var before, all := Side(earlier, ce), Side(items, ce);
      forall p
        ensures p in Table(all) <==> Keyed(p, ce) && Whole(p, ce) in Table(items)
        ensures p in Table(all) ==> Table(all)[p] == Table(items)[Whole(p, ce)]
      {
        OneSide(before, last, ce, p);
      }
    }
  }

  lemma OneSide<V>(before: seq<(Path, V)>, last: (Path, V), ce: bool, p: Path)
    requires Proper(last.0)
    ensures
      var one := [(if ce then last.0[1..] else last.0, last.1)];
      var all := if (last.0[0] == CE_ROOT) != ce then before else before + one;
      var here := Keyed(p, ce) && Whole(p, ce) == last.0;
      && (p in Table(all) <==> p in Table(before) || here)
      && (here ==> Table(all)[p] == last.1) && (p in Table(before) && !here ==> Table(all)[p] == Table(before)[p])
  {
    if (last.0[0] == CE_ROOT) == ce {
      var all := before + [(if ce then last.0[1..] else last.0, last.1)];
      assert all[..|before|] == before;
      assert ce ==> last.0 == [CE_ROOT] + last.0[1..];
      assert ([CE_ROOT] + p)[1..] == p;
    }
  }

  lemma SidesAgree<V>(items: seq<(Path, V)>, items': seq<(Path, V)>, ce: bool)
    requires AllProper(items) && AllProper(items') && Table(items) == Table(items')
    ensures Table(Side(items, ce)) == Table(Side(items', ce))
  {
    SideTable(items, ce);
    SideTable(items', ce);
  }

  lemma SidePrefixFree<V>(items: seq<(Path, V)>, ce: bool)
    requires AllProper(items) && PrefixFree(Table(items).Keys)
    ensures PrefixFree(Table(Side(items, ce)).Keys)
  {
    SideTable(items, ce);
    forall p, q | p in Table(Side(items, ce)) && q in Table(Side(items, ce)) && p <= q
      ensures p == q
    {
      assert Whole(p, ce) <= Whole(q, ce);
      assert ([CE_ROOT] + p)[1..] == p && ([CE_ROOT] + q)[1..] == q;
    }
  }

  /** Prefix-free leaves are all filed, whatever their order, and the scene holds exactly them: in one tree those below
      `$ctl`, without that segment, and in the other the rest. */
  lemma {:induction false} FilingIsExact<V(!new)>(items: seq<(Path, V)>)
    requires AllProper(items) && PrefixFree(Table(items).Keys)
    ensures FiledAll(items).Some?
    ensures var scene := FiledAll(items).value;
      && scene.ae.Dir? && scene.ce.Dir? && Compact(scene.ae) && Compact(scene.ce)
      && (forall p :: RawLeafAt(scene, p) == if p in Table(items) then Some(Table(items)[p]) else None)
      && (forall p :: LeafAt(scene.ce, p) ==
            if p != [] && ["$ctl"] + p in Table(items) then Some(Table(items)[["$ctl"] + p]) else None)
      && (forall p :: LeafAt(scene.ae, p) ==
            if p != [] && p[0] != "$ctl" && p in Table(items) then Some(Table(items)[p]) else None)
  {
    FiledAllSplits(items);
    forall ce
      ensures var t := PutAll(Empty<V>(), Side(items, ce));
        t.Some? && t.value.Dir? && Compact(t.value) && Lists(t.value, Table(Side(items, ce)))
    {
      SidePrefixFree(items, ce);
      PutAllLists(Side(items, ce));
    }
    SideTable(items, false);
    SideTable(items, true);
    TableIsProper(items);
    forall p
      ensures RawLeafAt(FiledAll(items).value, p) == if p in Table(items) then Some(Table(items)[p]) else None
    {
      if p != [] && p[0] == CE_ROOT {
        assert p == Whole(p[1..], true);
      } else {
        assert p == Whole(p, false);
      }
    }
  }

  lemma {:induction false} TableIsProper<V>(items: seq<(Path, V)>)
    requires AllProper(items)
    ensures forall p :: p in Table(items) ==> Proper(p)
  {
    if items != [] {
      TableIsProper(items[..|items| - 1]);
    }
  }

  /** The order in which replies arrive does not show in the scene. */
  lemma FilingOrderIsImmaterial<V(!new)>(items: seq<(Path, V)>, items': seq<(Path, V)>)
    requires AllProper(items) && AllProper(items')
    requires Table(items) == Table(items') && PrefixFree(Table(items).Keys)
    ensures FiledAll(items) == FiledAll(items')
  {
    FiledAllSplits(items);
    FiledAllSplits(items');
    forall ce
      ensures PutAll(Empty<V>(), Side(items, ce)) == PutAll(Empty<V>(), Side(items', ce))
    {
      SidesAgree(items, items', ce);
      SidePrefixFree(items, ce);
      OrderIsImmaterial(Side(items, ce), Side(items', ce));
    }
  }

  // ----- filing the replies of a batch

  /** Two separate dictionaries, ready to be filled. */
  ghost predicate Ready<V>(ae: DictNode<V>, ce: DictNode<V>, aes: seq<DictNode<V>>, ces: seq<DictNode<V>>)
    reads aes, ces
  {
    && Valid(aes) && aes != [] && ae == aes[0] && Valid(ces) && ces != [] && ce == ces[0]
    && Members(aes) !! Members(ces)
  }

  ghost function Built<V>(aes: seq<DictNode<V>>, ces: seq<DictNode<V>>): Scene<V>
    requires Valid(aes) && Valid(ces)
    reads aes, ces
  {
    Scene(Value(aes), Value(ces))
  }

  ghost predicate AddressesProper(order: seq<Path>) {
    order == [] || (Proper(order[|order| - 1]) && AddressesProper(order[..|order| - 1]))
  }

  /** The scene that replies build in the given order; nothing when one of them has no leaf value. */
  ghost function Filing<R, V>(replies: map<Path, R>, order: seq<Path>, leafValue: R -> Option<V>): Option<Scene<V>>
    requires AddressesProper(order)
  {
    if order == [] then Some(Scene(Empty(), Empty()))
    else
      var address := order[|order| - 1];
      var before := Filing(replies, order[..|order| - 1], leafValue);
      if before.None? || address !in replies || leafValue(replies[address]).None? then None
      else Filed(before.value, address, leafValue(replies[address]).value)
  }

  lemma {:induction false} FilingPrefix<R, V>(replies: map<Path, R>, order: seq<Path>, leafValue: R -> Option<V>,
                                              n: nat)
    requires AddressesProper(order) && n <= |order|
    ensures AddressesProper(order[..n])
    ensures Filing(replies, order, leafValue).Some? ==> Filing(replies, order[..n], leafValue).Some?
  {
    if n < |order| {
      FilingPrefix(replies, order[..|order| - 1], leafValue, n);
      assert order[..|order| - 1][..n] == order[..n];
    } else {
      assert order[..n] == order;
    }
  }

  /** `_place`: either tree may be the one that grows. */
  method Place<V>(ae: DictNode<V>, ce: DictNode<V>, address: Path, v: V, ghost aes: seq<DictNode<V>>,
                  ghost ces: seq<DictNode<V>>)
    returns (ok: bool, ghost aes': seq<DictNode<V>>, ghost ces': seq<DictNode<V>>)
    requires Ready(ae, ce, aes, ces) && address != []
    modifies Members(aes), Members(ces)
    ensures forall d :: d in Members(aes') ==> d in Members(aes) || fresh(d)
    ensures forall d :: d in Members(ces') ==> d in Members(ces) || fresh(d)
    ensures ok <==> Filed(old(Built(aes, ces)), address, v).Some?
    ensures ok ==> Ready(ae, ce, aes', ces') && Filed(old(Built(aes, ces)), address, v) == Some(Built(aes', ces'))
  {
    aes', ces' := aes, ces;
    if address[0] == CE_ROOT {
      if |address| == 1 {
        return false, aes', ces';
      }
      ok, ces' := PlaceBeside(ce, address[1..], v, ces, aes);
    } else {
      ok, aes' := PlaceBeside(ae, address, v, aes, ces);
    }
  }

  /** `_place` for each reply in turn, with the value it carries; it stops at the first that has none or has no
      place. */
  method FileInto<R, V>(replies: map<Path, R>, order: seq<Path>, leafValue: R -> Option<V>, ae: DictNode<V>,
                        ce: DictNode<V>,
                        ghost aes: seq<DictNode<V>>, ghost ces: seq<DictNode<V>>)
    returns (ok: bool, ghost aes': seq<DictNode<V>>, ghost ces': seq<DictNode<V>>)
    requires AddressesProper(order) && Elements(order) <= replies.Keys
    requires Ready(ae, ce, aes, ces) && Built(aes, ces) == Scene(Empty(), Empty())
    modifies Members(aes), Members(ces)
    ensures ok <==> Filing(replies, order, leafValue).Some?
    ensures ok ==> Ready(ae, ce, aes', ces') && Filing(replies, order, leafValue) == Some(Built(aes', ces'))
  {
    aes', ces', ok := aes, ces, true;
    assert order[..0] == [];
    for i := 0 to |order|
      invariant Ready(ae, ce, aes', ces') && AddressesProper(order[..i])
      invariant forall d :: d in Members(aes') ==> d in Members(aes) || fresh(d)
      invariant forall d :: d in Members(ces') ==> d in Members(ces) || fresh(d)
      invariant Filing(replies, order[..i], leafValue) == Some(Built(aes', ces'))
    {
      FileNext(replies, order, leafValue, i, Built(aes', ces'));
      var value := leafValue(replies[order[i]]);
      if value.None? {
        ok := false;
        return;
      }
      ok, aes', ces' := Place(ae, ce, order[i], value.value, aes', ces');
      if !ok {
        return;
      }
    }
    ok := true;
    assert order[..|order|] == order;
  }

  lemma FileNext<R, V>(replies: map<Path, R>, order: seq<Path>, leafValue: R -> Option<V>, i: nat, built: Scene<V>)
    requires AddressesProper(order) && Elements(order) <= replies.Keys && i < |order|
    requires AddressesProper(order[..i]) && Filing(replies, order[..i], leafValue) == Some(built)
    ensures order[i] in replies && Proper(order[i]) && AddressesProper(order[..i + 1])
    ensures var value := leafValue(replies[order[i]]);
      Filing(replies, order[..i + 1], leafValue) == if value.None? then None else Filed(built, order[i], value.value)
    ensures Filing(replies, order[..i + 1], leafValue).None? ==> Filing(replies, order, leafValue).None?
  {
    InElements(order, order[i]);
    FilingPrefix(replies, order, leafValue, i + 1);
    assert order[..i + 1][..i] == order[..i];
  }

  method FileReplies<R, V>(replies: map<Path, R>, order: seq<Path>, leafValue: R -> Option<V>)
    returns (ok: bool, ae: DictNode<V>, ce: DictNode<V>, ghost aes: seq<DictNode<V>>, ghost ces: seq<DictNode<V>>)
    requires AddressesProper(order) && Elements(order) <= replies.Keys
    ensures ok <==> Filing(replies, order, leafValue).Some?
    ensures ok ==> Ready(ae, ce, aes, ces) && Filing(replies, order, leafValue) == Some(Built(aes, ces))
  {
    ae, aes := NewDict();
    ce, ces := NewDict();
    OneMember(ae);
    OneMember(ce);
    ok, aes, ces := FileInto(replies, order, leafValue, ae, ce, aes, ces);
  }

  // ----- flattening

  /** The leaf that `address` names in a tree hung under `segments`. */
  ghost function Under<V>(tree: Tree<V>, segments: Path, address: Path): Option<V> {
    if segments <= address then LeafAt(tree, address[|segments|..]) else None
  }

  /** `after` is `before` overlaid with the leaves of `tree` under `segments`. */
  ghost predicate Overlaid<V(!new)>(before: map<Path, V>, after: map<Path, V>, tree: Tree<V>, segments: Path) {
    forall p ::
      && (p in after <==> p in before || Under(tree, segments, p).Some?)
      && (p in after ==>
            after[p] == if Under(tree, segments, p).Some? then Under(tree, segments, p).value else before[p])
  }

  lemma OneMore<V(!new)>(before: map<Path, V>, middle: map<Path, V>, after: map<Path, V>, tree: Tree<V>, segments: Path,
                         keys: set<string>, key: string)
    requires tree.Dir? && key in tree.kids && key !in keys
    requires Overlaid(before, middle, Only(tree, keys), segments)
    requires Overlaid(middle, after, tree.kids[key], segments + [key])
    ensures Overlaid(before, after, Only(tree, keys + {key}), segments)
  {
    var child := tree.kids[key];
    forall p
      ensures Under(Only(tree, keys + {key}), segments, p) ==
              if Under(child, segments + [key], p).Some? then Under(child, segments + [key], p)
              else Under(Only(tree, keys), segments, p)
      ensures Under(child, segments + [key], p).Some? ==> Under(Only(tree, keys), segments, p).None?
    {
      UnderOneMore(tree, segments, keys, key, p);
    }
  }

  lemma UnderOneMore<V>(tree: Tree<V>, segments: Path, keys: set<string>, key: string, p: Path)
    requires tree.Dir? && key in tree.kids && key !in keys
    ensures Under(Only(tree, keys + {key}), segments, p) ==
            if Under(tree.kids[key], segments + [key], p).Some? then Under(tree.kids[key], segments + [key], p)
            else Under(Only(tree, keys), segments, p)
    ensures Under(tree.kids[key], segments + [key], p).Some? ==> Under(Only(tree, keys), segments, p).None?
  {
    if segments <= p {
      var q := p[|segments|..];
      if q != [] && q[0] == key {
        assert segments + [key] <= p && p[|segments| + 1..] == q[1..];
      } else {
        assert !(segments + [key] <= p);
      }
    }
  }

  lemma OneLeaf<V(!new)>(before: map<Path, V>, path: Path, v: V)
    ensures Overlaid(before, before[path := v], Leaf(v), path)
  {
    forall p
      ensures Under(Leaf(v), path, p) == if p == path then Some(v) else None
    {
      if path <= p {
        assert p == path + p[|path|..];
      }
    }
  }

  /** `_flatten`: the leaves of a nested dict, entered under their addresses. */
  method Flatten<V(!new)>(tree: Tree<V>, segments: Path, leaves: SharedMap<Path, V>)
    requires tree.Dir?
    modifies leaves
    ensures Overlaid(old(leaves.entries), leaves.entries, tree, segments)
    decreases tree
  {
    ghost var before, done := leaves.entries, {};
    var rest := tree.kids.Keys;
    assert Only(tree, {}) == Empty<V>();
    while rest != {}
      invariant rest + done == tree.kids.Keys && rest !! done
      invariant Overlaid(before, leaves.entries, Only(tree, done), segments)
      decreases |rest|
    {
      var key :| key in rest;
      var value, path := tree.kids[key], segments + [key];
      ghost var middle := leaves.entries;
      match value {
        case Dir(_) => Flatten(value, path, leaves);
        case Leaf(v) =>
          leaves.entries := leaves.entries[path := v];
          OneLeaf(middle, path, v);
      }
      OneMore(before, middle, leaves.entries, tree, segments, done, key);
      rest, done := rest - {key}, done + {key};
    }
    assert Only(tree, done) == tree;
  }

  /** `_leaves_from_raw`: a scene as one flat table, ce below `$ctl`, which wins over what ae holds there. */
  method LeavesFromRaw<V(!new)>(scene: Scene<V>) returns (leaves: SharedMap<Path, V>)
    requires scene.ae.Dir? && scene.ce.Dir?
    ensures forall p :: RawLeafAt(scene, p) == if p in leaves.entries then Some(leaves.entries[p]) else None
    ensures forall p {:trigger p in leaves.entries} :: p in leaves.entries <==>
              LeafAt(scene.ae, p).Some? || (p != [] && p[0] == "$ctl" && LeafAt(scene.ce, p[1..]).Some?)
    ensures forall p :: p in leaves.entries ==>
              if p != [] && p[0] == "$ctl" && LeafAt(scene.ce, p[1..]).Some?
              then LeafAt(scene.ce, p[1..]) == Some(leaves.entries[p])
              else LeafAt(scene.ae, p) == Some(leaves.entries[p])
  {
    leaves := new SharedMap();
    Flatten(scene.ae, [], leaves);
    Flatten(scene.ce, [CE_ROOT], leaves);
    forall p
      ensures RawLeafAt(scene, p) == if p in leaves.entries then Some(leaves.entries[p]) else None
    {
      assert [CE_ROOT] <= p <==> p != [] && p[0] == CE_ROOT;
      assert p[0..] == p;
    }
  }

  /** Flattening the filed trees gives back the addresses and values that were filed. */
  lemma FileThenFlatten<V(!new)>(items: seq<(Path, V)>, leaves: map<Path, V>)
    requires AllProper(items) && PrefixFree(Table(items).Keys)
    requires FiledAll(items).Some? ==>
      forall p :: RawLeafAt(FiledAll(items).value, p) == if p in leaves then Some(leaves[p]) else None
    ensures leaves == Table(items)
  {
    FilingIsExact(items);
    var scene := FiledAll(items).value;
    forall p
      ensures p in leaves <==> p in Table(items)
      ensures p in leaves ==> leaves[p] == Table(items)[p]
    {
      assert RawLeafAt(scene, p) == if p in leaves then Some(leaves[p]) else None;
    }
  }
}
