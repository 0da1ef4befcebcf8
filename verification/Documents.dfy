/** A document read and written by dotted path, and copied before it is patched (wing_parser/edit/pointer.py,
    wing_parser/edit/writer.py). */
module Documents {
  import opened Results
  import opened Trees
  import opened Strings
  import opened Dicts

  /** A key error names the path as far as the walk got. */
  datatype KeyError = KeyError(path: string)

  type Found<+T> = Result<T, KeyError>

  function Segments(path: string): Path {
    Split(path, '.')
  }

  // ----- what reading and writing mean

  /** The first `upto` segments followed; the error is the shortest prefix that leads nowhere. */
  function WalkTo<V>(document: Tree<V>, segments: Path, upto: nat): Found<Tree<V>>
    requires upto <= |segments|
  {
    if upto == 0 then Ok(document)
    else
      var above := WalkTo(document, segments, upto - 1);
      if above.Err? then above
      else if above.value.Leaf? || segments[upto - 1] !in above.value.kids then
        Err(KeyError(Join(segments[..upto], '.')))
      else Ok(above.value.kids[segments[upto - 1]])
  }

  function ReadAt<V>(document: Tree<V>, path: string): Found<Tree<V>> {
    WalkTo(document, Segments(path), |Segments(path)|)
  }

  /** Only a key that is there is written. */
  function Written<V>(document: Tree<V>, path: string, value: Tree<V>): Found<Tree<V>> {
    var segments := Segments(path);
    var parent := WalkTo(document, segments, |segments| - 1);
    if parent.Err? then Err(parent.error)
    else
      WalkIsAt(document, segments, |segments| - 1);
      WalkIsAt(document, segments, |segments|);
      assert segments[..|segments|] == segments;
      if parent.value.Leaf? || segments[|segments| - 1] !in parent.value.kids then Err(KeyError(path))
      else Ok(Graft(document, segments, value))
  }

  /** The walk finds what is at the path, or fails because nothing is. */
  lemma {:induction false} WalkIsAt<V>(document: Tree<V>, segments: Path, upto: nat)
    requires upto <= |segments|
    ensures var found := At(document, segments[..upto]);
      if found.Some? then WalkTo(document, segments, upto) == Ok(found.value) else WalkTo(document, segments, upto).Err?
  {
    if upto > 0 {
      WalkIsAt(document, segments, upto - 1);
      assert segments[..upto] == segments[..upto - 1] + [segments[upto - 1]];
      AtConcat(document, segments[..upto - 1], [segments[upto - 1]]);
    }
  }

  /** Reading succeeds exactly where something is, and writing exactly where reading does; a failed walk names
      the shortest prefix that leads nowhere. */
  lemma ReadIsAt<V>(document: Tree<V>, path: string, value: Tree<V>)
    ensures var found := At(document, Segments(path));
      && (found.Some? ==> ReadAt(document, path) == Ok(found.value))
      && (found.Some? ==> Written(document, path, value) == Ok(Graft(document, Segments(path), value)))
      && (found.None? ==> ReadAt(document, path).Err? && Written(document, path, value).Err?)
  {
    var segments := Segments(path);
    WalkIsAt(document, segments, |segments|);
    WalkIsAt(document, segments, |segments| - 1);
    assert segments[..|segments|] == segments;
  }

  /** `n` is the length of the shortest prefix of the path that leads nowhere. */
  ghost predicate EndsBefore<V>(document: Tree<V>, segments: Path, n: nat)
    requires 0 < n <= |segments|
  {
    At(document, segments[..n]).None? && At(document, segments[..n - 1]).Some?
  }

  lemma {:induction false} ShortestMissing<V>(document: Tree<V>, segments: Path, upto: nat)
    requires upto <= |segments| && WalkTo(document, segments, upto).Err?
    ensures exists n ::
              0 < n <= upto && EndsBefore(document, segments, n) &&
              WalkTo(document, segments, upto).error.path == Join(segments[..n], '.')
  {
    WalkIsAt(document, segments, upto);
    WalkIsAt(document, segments, upto - 1);
    if WalkTo(document, segments, upto - 1).Err? {
      ShortestMissing(document, segments, upto - 1);
    }
  }

  /** A write that fails names the same prefix. */
  lemma WriteFailsAt<V>(document: Tree<V>, path: string, value: Tree<V>)
    requires At(document, Segments(path)).None?
    ensures Written(document, path, value).Err?
    ensures exists n ::
              0 < n <= |Segments(path)| && EndsBefore(document, Segments(path), n) &&
              Written(document, path, value).error.path == Join(Segments(path)[..n], '.')
  {
    var segments := Segments(path);
    var n := |segments| - 1;
    ReadIsAt(document, path, value);
    WalkIsAt(document, segments, n);
    assert segments[..|segments|] == segments;
    if WalkTo(document, segments, n).Err? {
      ShortestMissing(document, segments, n);
    } else {
      JoinSplit(path, '.');
      assert EndsBefore(document, segments, |segments|);
    }
  }

  /** What was read, written back over anything written since, restores the document. */
  lemma WriteBack<V>(document: Tree<V>, path: string, value: Tree<V>)
    requires At(document, Segments(path)).Some?
    ensures var written := Written(document, path, value);
      written.Ok? && Written(written.value, path, At(document, Segments(path)).value) == Ok(document)
  {
    var segments := Segments(path);
    ReadIsAt(document, path, value);
    var before := At(document, segments).value;
    GraftTwice(document, segments, value, before);
    GraftSame(document, segments);
    ReadIsAt(Graft(document, segments, value), path, before);
  }

  /** Writing a plain value makes no key that was not there. */
  lemma {:induction false} NoNewKey<V>(document: Tree<V>, segments: Path, v: V, p: Path)
    requires At(document, segments).Some? && At(Graft(document, segments, Leaf(v)), p).Some?
    ensures At(document, p).Some?
    decreases |segments|
  {
    if segments != [] && p != [] && p[0] == segments[0] {
      NoNewKey(document.kids[p[0]], segments[1..], v, p[1..]);
    }
  }

  // ----- the same on the dictionaries themselves

  lemma PutIsGraft<V>(t: Tree<V>, p: Path, v: V)
    requires p != [] && At(t, p).Some?
    ensures Put(t, p, v) == Some(Graft(t, p, Leaf(v)))
    decreases |p|
  {
    if |p| == 1 {
      assert p[1..] == [];
    } else {
      PutIsGraft(t.kids[p[0]], p[1..], v);
    }
  }

  /** A write that finds its key is an assignment down the path. */
  lemma WrittenIsPut<V>(document: Tree<V>, path: string, v: V)
    requires WalkTo(document, Segments(path), |Segments(path)| - 1).Ok?
    requires var parent := WalkTo(document, Segments(path), |Segments(path)| - 1).value;
      parent.Dir? && Segments(path)[|Segments(path)| - 1] in parent.kids
    ensures var segments := Segments(path);
      && segments[..|segments| - 1] + [segments[|segments| - 1]] == segments
      && Written(document, path, Leaf(v)).Ok?
      && Put(document, segments, v) == Some(Written(document, path, Leaf(v)).value)
  {
    var segments := Segments(path);
    WalkIsAt(document, segments, |segments|);
    assert segments[..|segments|] == segments;
    PutIsGraft(document, segments, v);
  }

  /** What a slot of a dictionary stands for. */
  ghost function SlotTree<V>(world: seq<DictNode<V>>, slot: Slot<V>): Tree<V>
    requires Dicts.Valid(world) && (slot.Nested? ==> Knows(world, slot.dict))
    reads world
  {
    match slot
    case Held(v) => Leaf(v)
    case Nested(d) => TreeAt(Image(world), d.id)
  }

  lemma {:induction false} WalkStuck<V>(document: Tree<V>, segments: Path, n: nat, upto: nat)
    requires n <= upto <= |segments| && WalkTo(document, segments, n).Err?
    ensures WalkTo(document, segments, upto) == WalkTo(document, segments, n)
    decreases upto
  {
    if n < upto {
      WalkStuck(document, segments, n, upto - 1);
    }
  }

  /** One step of the walk: what is found under a key of a dictionary, and the chain that leads there. */
  lemma StepDown<V>(world: seq<DictNode<V>>, stack: seq<DictNode<V>>, key: string)
    requires Stacked(world, stack) && key in stack[|stack| - 1].slots
    ensures var node := stack[|stack| - 1];
      var slot := node.slots[key];
      && (slot.Nested? ==> Knows(world, slot.dict) && Stacked(world, stack + [slot.dict]))
      && (slot.Nested? ==> Cursor(world, stack + [slot.dict]) == Cursor(world, stack) + [key])
      && SlotTree(world, slot) == TreeAt(Image(world), node.id).kids[key]
  {
    var node := stack[|stack| - 1];
    WiredIs(world, |world|);
    KidTree(Image(world), node.id, key);
    if node.slots[key].Nested? {
      Fits(Image(world), node.id, key);
      StackGrows(world, stack, node.slots[key].dict);
    }
  }

  lemma PrefixStep(segments: Path, depth: nat)
    requires depth < |segments|
    ensures segments[..depth] + [segments[depth]] == segments[..depth + 1]
  {
  }

  /** The walk has come this far: to this slot, and down this chain if the slot holds a dictionary. */
  ghost predicate Reached<V>(world: seq<DictNode<V>>, stack: seq<DictNode<V>>, slot: Slot<V>, segments: Path,
                             depth: nat)
    requires Dicts.Valid(world) && depth <= |segments|
    reads world
  {
    && (slot.Nested? ==> Knows(world, slot.dict) && Stacked(world, stack))
    && (slot.Nested? ==> slot.dict == stack[|stack| - 1] && Cursor(world, stack) == segments[..depth])
    && WalkTo(Value(world), segments, depth) == Ok(SlotTree(world, slot))
  }

  lemma WalkStarts<V>(world: seq<DictNode<V>>, segments: Path)
    requires Dicts.Valid(world)
    ensures Reached(world, [world[0]], Nested(world[0]), segments, 0)
  {
    RootStack(world);
  }

  lemma WalkOn<V>(world: seq<DictNode<V>>, stack: seq<DictNode<V>>, node: DictNode<V>,
                                     segments: Path, depth: nat)
    requires Dicts.Valid(world) && depth < |segments| && Reached(world, stack, Nested(node), segments, depth)
    requires segments[depth] in node.slots
    ensures var next := node.slots[segments[depth]];
      Reached(world, if next.Nested? then stack + [next.dict] else stack, next, segments, depth + 1)
  {
    StepDown(world, stack, segments[depth]);
    PrefixStep(segments, depth);
    WalkToNext(Value(world), segments, depth);
  }

  lemma WalkToNext<V>(document: Tree<V>, segments: Path, depth: nat)
    requires depth < |segments| && WalkTo(document, segments, depth).Ok?
    ensures var above := WalkTo(document, segments, depth).value;
      above.Dir? && segments[depth] in above.kids ==>
        WalkTo(document, segments, depth + 1) == Ok(above.kids[segments[depth]])
  {
  }

  /** A value that is no dictionary, or one without the key, ends the walk. */
  lemma WalkEnds<V>(world: seq<DictNode<V>>, stack: seq<DictNode<V>>, slot: Slot<V>,
                                       segments: Path, depth: nat, upto: nat)
    requires Dicts.Valid(world) && depth < upto <= |segments| && Reached(world, stack, slot, segments, depth)
    requires slot.Held? || segments[depth] !in slot.dict.slots
    ensures WalkTo(Value(world), segments, upto) == Err(KeyError(Join(segments[..depth + 1], '.')))
  {
    WalkStuck(Value(world), segments, depth + 1, upto);
  }

  /** `_walk`: the slot `upto` segments in, without making a key. */
  method Walk<V>(root: DictNode<V>, segments: Path, upto: nat, ghost world: seq<DictNode<V>>)
    returns (r: Found<Slot<V>>, ghost stack: seq<DictNode<V>>)
    requires Dicts.Valid(world) && root == world[0] && upto <= |segments|
    ensures r.Err? ==> WalkTo(Value(world), segments, upto) == Err(r.error)
    ensures r.Ok? ==> Reached(world, stack, r.value, segments, upto)
  {
    var node := Nested(root);
    stack := [root];
    WalkStarts(world, segments);
    for depth := 0 to upto
      invariant Reached(world, stack, node, segments, depth)
    {
      var segment := segments[depth];
      if node.Held? || segment !in node.dict.slots {
        WalkEnds(world, stack, node, segments, depth, upto);
        return Err(KeyError(Join(segments[..depth + 1], '.'))), stack;
      }
      WalkOn(world, stack, node.dict, segments, depth);
      node := node.dict.slots[segment];
      stack := if node.Nested? then stack + [node.dict] else stack;
    }
    return Ok(node), stack;
  }

  /** `read`. */
  method Read<V>(root: DictNode<V>, path: string, ghost world: seq<DictNode<V>>) returns (r: Found<Slot<V>>)
    requires Dicts.Valid(world) && root == world[0]
    ensures r.Err? ==> ReadAt(Value(world), path) == Err(r.error)
    ensures r.Ok? ==>
      && (r.value.Nested? ==> Knows(world, r.value.dict))
      && ReadAt(Value(world), path) == Ok(SlotTree(world, r.value))
  {
    var segments := Segments(path);
    ghost var stack;
    r, stack := Walk(root, segments, |segments|, world);
  }

  /** `write`: an assignment into the parent dictionary, under a key that is there. */
  method Write<V>(root: DictNode<V>, path: string, value: V, ghost world: seq<DictNode<V>>) returns (r: Found<()>)
    requires Dicts.Valid(world) && root == world[0]
    modifies Members(world)
    ensures Dicts.Valid(world)
    ensures r.Err? ==>
      && Written(old(Value(world)), path, Leaf(value)) == Err(r.error)
      && Value(world) == old(Value(world))
    ensures r.Ok? ==> Written(old(Value(world)), path, Leaf(value)) == Ok(Value(world))
  {
    var segments := Segments(path);
    var n := |segments| - 1;
    var parent;
    ghost var stack;
    parent, stack := Walk(root, segments, n, world);
    if parent.Err? {
      return Err(parent.error);
    }
    if parent.value.Held? || segments[n] !in parent.value.dict.slots {
      return Err(KeyError(path));
    }
    WrittenIsPut(Value(world), path, value);
    MemberAt(world, parent.value.dict.id);
    Assign(parent.value.dict, segments[n], value, stack, world);
    return Ok(());
  }

  // ----- copies

  lemma OnlyOneMore<V>(t: Tree<V>, keys: set<string>, key: string)
    requires t.Dir? && key in t.kids
    ensures Only(t, keys + {key}) == Dir(Only(t, keys).kids[key := t.kids[key]])
  {
  }

  /** The nested value of a dictionary, taken out of the heap. */
  method Freeze<V>(node: DictNode<V>, ghost world: seq<DictNode<V>>) returns (t: Tree<V>)
    requires Dicts.Valid(world) && Knows(world, node)
    ensures t == TreeAt(Image(world), node.id)
    decreases |world| - node.id
  {
    ghost var whole, done := TreeAt(Image(world), node.id), {};
    var kids: map<string, Tree<V>> := map[];
    var rest := node.slots.Keys;
    WiredIs(world, |world|);
    while rest != {}
      invariant rest <= node.slots.Keys && done == node.slots.Keys - rest
      invariant Dir(kids) == Only(whole, done)
      decreases rest
    {
      var key :| key in rest;
      KidTree(Image(world), node.id, key);
      OnlyOneMore(whole, done, key);
      match node.slots[key] {
        case Held(v) => kids := kids[key := Leaf(v)];
        case Nested(d) =>
          var below := Freeze(d, world);
          kids := kids[key := below];
      }
      rest, done := rest - {key}, done + {key};
    }
    assert Only(whole, done) == whole;
    t := Dir(kids);
  }

  /** One child copied: what the copy stands for grows by that child. */
  lemma CopiedOne<V>(whole: Tree<V>, keys: set<string>, key: string, target: Tree<V>, at: Path, before: Tree<V>,
                     after: Tree<V>)
    requires whole.Dir? && key in whole.kids && key !in keys
    requires At(target, at).Some? && before == Graft(target, at, Only(whole, keys))
    requires HasDir(before, at) && after == Graft(before, at, Dir(At(before, at).value.kids[key := whole.kids[key]]))
    ensures after == Graft(target, at, Only(whole, keys + {key}))
  {
    GraftAt(target, at, Only(whole, keys));
    OnlyOneMore(whole, keys, key);
    GraftTwice(target, at, Only(whole, keys), Only(whole, keys + {key}));
  }

  lemma MadeThenFilled<V>(t: Tree<V>, at: Path, key: string, sub: Tree<V>)
    requires HasDir(t, at)
    ensures var made := Graft(t, at, Dir(At(t, at).value.kids[key := Empty()]));
      && At(made, at + [key]).Some?
      && Graft(made, at + [key], sub) == Graft(t, at, Dir(At(t, at).value.kids[key := sub]))
  {
    var kids := At(t, at).value.kids;
    var made := Graft(t, at, Dir(kids[key := Empty()]));
    GraftAt(t, at, Dir(kids[key := Empty()]));
    GraftDeeper(made, at, key, sub);
    GraftTwice(t, at, Dir(kids[key := Empty()]), Dir(kids[key := sub]));
    assert kids[key := Empty()][key := sub] == kids[key := sub];
  }

  /** Fills a dictionary that already holds the other children with the `rest` of the children of a nested value. */
  method Thaw<V>(tree: Tree<V>, rest: set<string>, dst: DictNode<V>, ghost target: Tree<V>,
                 ghost stack: seq<DictNode<V>>, ghost world: seq<DictNode<V>>)
    returns (ghost world': seq<DictNode<V>>)
    requires tree.Dir? && rest <= tree.kids.Keys && Stacked(world, stack) && dst == stack[|stack| - 1]
    requires At(target, Cursor(world, stack)).Some?
    requires Value(world) == Graft(target, Cursor(world, stack), Only(tree, tree.kids.Keys - rest))
    modifies Members(world)
    ensures forall d :: d in Members(world') ==> d in Members(world) || fresh(d)
    ensures Stacked(world', stack) && Cursor(world', stack) == old(Cursor(world, stack))
    ensures Value(world') == Graft(target, old(Cursor(world, stack)), tree)
    decreases tree, 0, rest
  {
    ghost var done, before, at := tree.kids.Keys - rest, Value(world), Cursor(world, stack);
    if rest == {} {
      assert Only(tree, done) == tree;
      return world;
    }
    var key :| key in rest;
    TopTree(world, stack);
    GraftAt(target, at, Only(tree, done));
    world' := ThawChild(tree.kids[key], key, dst, stack, world);
    CopiedOne(tree, done, key, target, at, before, Value(world'));
    OneLess(tree.kids.Keys, rest, key);
    world' := Thaw(tree, rest - {key}, dst, target, stack, world');
  }

  lemma OneLess<K>(keys: set<K>, rest: set<K>, key: K)
    requires key in rest && rest <= keys
    ensures keys - rest + {key} == keys - (rest - {key})
  {
  }

  lemma NothingThawed<V>(tree: Tree<V>, world: seq<DictNode<V>>, stack: seq<DictNode<V>>)
    requires tree.Dir? && Stacked(world, stack) && stack[|stack| - 1].slots == map[]
    ensures At(Value(world), Cursor(world, stack)).Some?
    ensures Value(world) == Graft(Value(world), Cursor(world, stack), Only(tree, tree.kids.Keys - tree.kids.Keys))
  {
    TopTree(world, stack);
    assert Only(tree, {}) == Empty<V>() == At(Value(world), Cursor(world, stack)).value;
    GraftSame(Value(world), Cursor(world, stack));
  }

  /** One entry, put under its key. */
  method ThawChild<V>(child: Tree<V>, key: string, dst: DictNode<V>, ghost stack: seq<DictNode<V>>,
                      ghost world: seq<DictNode<V>>)
    returns (ghost world': seq<DictNode<V>>)
    requires Stacked(world, stack) && dst == stack[|stack| - 1] && key !in dst.slots
    modifies Members(world)
    ensures forall d :: d in Members(world') ==> d in Members(world) || fresh(d)
    ensures Stacked(world', stack) && Cursor(world', stack) == old(Cursor(world, stack))
    ensures HasDir(old(Value(world)), old(Cursor(world, stack)))
    ensures Value(world') == Graft(old(Value(world)), old(Cursor(world, stack)),
              Dir(At(old(Value(world)), old(Cursor(world, stack))).value.kids[key := child]))
    decreases child, 1
  {
    TopTree(world, stack);
    MemberAt(world, dst.id);
    match child {
      case Leaf(v) =>
        PutHere(Value(world), Cursor(world, stack), key, v);
        Assign(dst, key, v, stack, world);
        world' := world;
      case Dir(_) =>
        ghost var target, at := Value(world), Cursor(world, stack);
        MadeThenFilled(target, at, key, child);
        var made;
        made, world' := MakeChild(dst, key, stack, world);
        NothingThawed(child, world', stack + [made]);
        world' := Thaw(child, child.kids.Keys, made, Value(world'), stack + [made], world');
        PopOne(world', stack, made);
    }
  }

  method ThawNew<V>(tree: Tree<V>) returns (root: DictNode<V>, ghost world: seq<DictNode<V>>)
    requires tree.Dir?
    ensures Dicts.Valid(world) && root == world[0] && Value(world) == tree
    ensures forall d :: d in Members(world) ==> fresh(d)
  {
    root, world := NewDict();
    OneMember(root);
    RootStack(world);
    NothingThawed(tree, world, [root]);
    world := Thaw(tree, tree.kids.Keys, root, Value(world), [root], world);
  }

  /** `copy.deepcopy`: new dictionaries that stand for the same document; the old ones are not touched. */
  method DeepCopy<V>(root: DictNode<V>, ghost world: seq<DictNode<V>>) returns (copy: DictNode<V>,
                     ghost copies: seq<DictNode<V>>)
    requires Dicts.Valid(world) && root == world[0]
    ensures Dicts.Valid(copies) && copy == copies[0] && Value(copies) == Value(world)
    ensures forall d :: d in Members(copies) ==> fresh(d)
  {
    RootStack(world);
    var whole := Freeze(root, world);
    copy, copies := ThawNew(whole);
  }
}
