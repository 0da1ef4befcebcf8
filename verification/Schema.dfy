/** The breadth-first walk of the console's address tree (wing_parser/net/schema.py): what it finds, and what it
    reports as not found. */
module Schema {
  import opened Results
  import opened SharedMaps
  import opened Sequences
  import opened Wire
  import opened Reading
  import opened Traces
  import Client
  import opened Trees
  import opened Dicts
  import opened Assembly
  import Ladder
  import NodeText

  const AE_ROOTS := ["cfg", "io", "ch", "aux", "bus", "main", "mtx", "dca", "mgrp", "fx", "cards", "play"]

  /** What is asked of an address: its children, its dump, its value. */
  datatype Query = Children | Dump | Get

  type ReadFaults = Faults<Path, Query>

  datatype Line = Line(name: string, isNode: bool, kind: string)

  type Answers<!V> = (Request<Path, Query>, Body<V>) -> bool

  /** A reply's arguments: one schema text as its lines, one dump text, a leaf triplet's value, or any other
      arguments. */
  datatype Body<V> = Lines(lines: seq<Line>) | Text(text: string) | Triplet(value: V) | Other

  predicate Dollar(name: string) {
    name != "" && name[0] == '$'
  }

  // ----- a console that does not change during the walk

  function Named(lines: seq<Line>, isNode: bool): set<string> {
    if lines == [] then {}
    else (if lines[0].isNode == isNode then {lines[0].name} else {}) + Named(lines[1..], isNode)
  }

  ghost function KidsOf<V>(dir: Tree<V>, isNode: bool): set<string>
    requires dir.Dir?
  {
    set k | k in dir.kids && dir.kids[k].Dir? == isNode
  }

  /** The path, not empty, has no read-only segment. */
  ghost predicate Plain(q: Path) {
    q != [] && forall i :: 0 <= i < |q| ==> !Dollar(q[i])
  }

  /** The two trees have leaves at the same paths, read-only ones aside. */
  ghost predicate SameShape<V, W>(dump: Tree<W>, t: Tree<V>) {
    forall q :: Plain(q) ==> (LeafAt(dump, q).Some? <==> LeafAt(t, q).Some?)
  }

  /** The text parses to a tree with the same keys, read-only ones aside, or does not parse. */
  ghost predicate ShapeOf<V>(text: string, t: Tree<V>) {
    NodeText.Meaning(text).Ok? ==> SameShape(NodeText.Meaning(text).value.tree, t)
  }

  /** What an honest console may reply. Only a node has children or a dump, only a leaf a value; the reply may
      also be of another shape, which tells nothing. */
  ghost predicate Truthful<V>(console: Tree<V>, r: Request<Path, Query>, body: Body<V>) {
    match r.query
    case Children =>
      HasDir(console, r.address) &&
      (body.Other? ||
       (body.Lines? && forall n :: Named(body.lines, n) == KidsOf(At(console, r.address).value, n)))
    case Dump =>
      HasDir(console, r.address) && (body.Other? || (body.Text? && ShapeOf(body.text, At(console, r.address).value)))
    case Get =>
      LeafAt(console, r.address).Some? && (body.Other? || body == Triplet(LeafAt(console, r.address).value))
  }

  // ----- leaves found, and nodes they may still be beneath

  ghost predicate Seeded(p: Path) {
    p != [] && (p[0] in AE_ROOTS || p[0] == CE_ROOT) && forall i :: 1 <= i < |p| ==> !Dollar(p[i])
  }

  /** The leaves that a snapshot is about: under the seeded roots, and not read-only. */
  ghost predicate Wanted<V>(console: Tree<V>, p: Path) {
    Seeded(p) && LeafAt(console, p).Some?
  }

  ghost predicate Beneath(open: set<Path>, p: Path) {
    exists u :: u in open && u <= p
  }

  ghost predicate OnlyWanted<V>(console: Tree<V>, found: set<Path>) {
    forall p :: p in found ==> Wanted(console, p) && |p| >= 2
  }

  /** Each wanted leaf is found or beneath an open node, and not both. */
  ghost predicate FoundOrOpen<V>(console: Tree<V>, found: set<Path>, open: set<Path>) {
    forall p {:trigger Wanted(console, p)} :: Wanted(console, p) ==> (p in found <==> !Beneath(open, p))
  }

  /** No open node is beneath another. */
  ghost predicate Separate(open: set<Path>) {
    forall u, w :: u in open && w in open && u <= w ==> u == w
  }

  /** What is open is a root, or a node of the console. */
  ghost predicate AllNodes<V>(console: Tree<V>, open: set<Path>) {
    forall u :: u in open ==> Seeded(u) && (|u| > 1 ==> HasDir(console, u))
  }

  ghost predicate Split<V>(console: Tree<V>, found: set<Path>, open: set<Path>) {
    OnlyWanted(console, found) && FoundOrOpen(console, found, open) && Separate(open) && AllNodes(console, open)
  }

  // ----- opening one node

  ghost function Below(u: Path, names: set<string>): set<Path> {
    set k | k in names && !Dollar(k) :: u + [k]
  }

  lemma BelowIs(u: Path, names: set<string>, p: Path)
    ensures p in Below(u, names) <==> |p| == |u| + 1 && u <= p && p[|u|] in names && !Dollar(p[|u|])
  {
    if p in Below(u, names) {
      var k :| k in names && !Dollar(k) && p == u + [k];
    } else if |p| == |u| + 1 && u <= p {
      assert p == u + [p[|u|]];
    }
  }

  lemma StaysSeparate(open: set<Path>, u: Path, names: set<string>)
    requires Separate(open) && u in open
    ensures Separate(open - {u} + Below(u, names))
    ensures Below(u, names) !! open
  {
    var open' := open - {u} + Below(u, names);
    forall v, w | v in open' && w in open' && v <= w
      ensures v == w
    {
      BelowIs(u, names, v);
      BelowIs(u, names, w);
      assert v in Below(u, names) ==> u <= v;
    }
    forall v | v in Below(u, names)
      ensures v !in open
    {
      BelowIs(u, names, v);
    }
  }

  lemma StaysNodes<V>(console: Tree<V>, open: set<Path>, u: Path)
    requires AllNodes(console, open) && Seeded(u) && HasDir(console, u)
    ensures AllNodes(console, open - {u} + Below(u, KidsOf(At(console, u).value, true)))
  {
    var names := KidsOf(At(console, u).value, true);
    ChildrenExist(console, u, |u|);
    forall v | v in Below(u, names)
      ensures Seeded(v) && |v| > 1 && HasDir(console, v)
    {
      BelowIs(u, names, v);
      SeededBelow(u, v);
    }
  }

  lemma SeededBelow(u: Path, v: Path)
    requires Seeded(u) && u <= v && |v| == |u| + 1 && !Dollar(v[|u|])
    ensures Seeded(v)
  {
  }

  /** Where a leaf beneath an opened node went. */
  lemma GoesDown<V>(console: Tree<V>, u: Path, p: Path)
    requires Seeded(u) && HasDir(console, u) && Wanted(console, p) && u <= p
    ensures var dir := At(console, u).value;
      if p in Below(u, KidsOf(dir, false)) then !Beneath(Below(u, KidsOf(dir, true)), p)
      else Beneath(Below(u, KidsOf(dir, true)), p)
  {
    var dir, rest := At(console, u).value, p[|u|..];
    assert p == u + rest;
    AtConcat(console, u, rest);
    var k := rest[0];
    var child := u + [k];
    assert child <= p && At(dir, rest) == At(dir.kids[k], rest[1..]);
    BelowIs(u, KidsOf(dir, true), child);
    BelowIs(u, KidsOf(dir, false), child);
    if dir.kids[k].Leaf? {
      assert rest[1..] == [] && p == child;
      forall w | w in Below(u, KidsOf(dir, true))
        ensures !(w <= p)
      {
        BelowIs(u, KidsOf(dir, true), w);
      }
    } else {
      assert child in Below(u, KidsOf(dir, true));
      BelowIs(u, KidsOf(dir, false), p);
    }
  }

  lemma StaysFoundOrOpen<V>(console: Tree<V>, found: set<Path>, open: set<Path>, u: Path)
    requires FoundOrOpen(console, found, open) && Separate(open) && u in open && Seeded(u) && HasDir(console, u)
    ensures var dir := At(console, u).value;
      FoundOrOpen(console, found + Below(u, KidsOf(dir, false)), open - {u} + Below(u, KidsOf(dir, true)))
  {
    var dir := At(console, u).value;
    var found', open' := found + Below(u, KidsOf(dir, false)), open - {u} + Below(u, KidsOf(dir, true));
    forall p | Wanted(console, p)
      ensures p in found' <==> !Beneath(open', p)
    {
      BelowIs(u, KidsOf(dir, false), p);
      if u <= p {
        GoesDown(console, u, p);
        OnlyAbove(open, u, p);
        AboveIn(open - {u}, Below(u, KidsOf(dir, true)), p);
      } else {
        NotAbove(u, KidsOf(dir, true), p);
        AboveIn(open - {u}, Below(u, KidsOf(dir, true)), p);
        StillAbove(open, u, p);
      }
    }
  }

  lemma AboveIn(a: set<Path>, b: set<Path>, p: Path)
    ensures Beneath(a + b, p) <==> Beneath(a, p) || Beneath(b, p)
  {
  }

  lemma OnlyAbove(open: set<Path>, u: Path, p: Path)
    requires Separate(open) && u in open && u <= p
    ensures Beneath(open, p) && !Beneath(open - {u}, p)
  {
    forall w | w in open && w <= p
      ensures w == u
    {
      assert u <= w || w <= u;
    }
  }

  lemma StillAbove(open: set<Path>, u: Path, p: Path)
    requires u in open && !(u <= p)
    ensures Beneath(open, p) <==> Beneath(open - {u}, p)
  {
    AboveIn(open - {u}, {u}, p);
    assert open - {u} + {u} == open;
  }

  lemma NotAbove(u: Path, names: set<string>, p: Path)
    requires !(u <= p)
    ensures !Beneath(Below(u, names), p) && !Beneath({u}, p)
  {
    forall w | w in Below(u, names)
      ensures !(w <= p)
    {
      BelowIs(u, names, w);
    }
  }

  lemma StaysOnlyWanted<V>(console: Tree<V>, found: set<Path>, u: Path)
    requires OnlyWanted(console, found) && Seeded(u) && HasDir(console, u)
    ensures OnlyWanted(console, found + Below(u, KidsOf(At(console, u).value, false)))
  {
    var dir := At(console, u).value;
    forall p | p in Below(u, KidsOf(dir, false))
      ensures Wanted(console, p) && |p| >= 2
    {
      BelowIs(u, KidsOf(dir, false), p);
      assert p == u + [p[|u|]];
      AtConcat(console, u, [p[|u|]]);
    }
  }

  /** Replacing an open node by its child nodes, and finding its child leaves, keeps the account. */
  lemma OpenNode<V>(console: Tree<V>, found: set<Path>, open: set<Path>, u: Path)
    requires Split(console, found, open) && u in open && HasDir(console, u)
    ensures var dir := At(console, u).value;
      && Split(console, found + Below(u, KidsOf(dir, false)), open - {u} + Below(u, KidsOf(dir, true)))
      && Below(u, KidsOf(dir, true)) !! open
  {
    StaysSeparate(open, u, KidsOf(At(console, u).value, true));
    StaysNodes(console, open, u);
    StaysFoundOrOpen(console, found, open, u);
    StaysOnlyWanted(console, found, u);
  }

  // ----- reading one level's replies

  /** The children of one reply, in its order. */
  function NodeChildren(address: Path, lines: seq<Line>): seq<Path> {
    if lines == [] then []
    else
      var rest := NodeChildren(address, lines[1..]);
      if Dollar(lines[0].name) || !lines[0].isNode then rest else [address + [lines[0].name]] + rest
  }

  lemma {:induction false} NodeChildrenAre(address: Path, lines: seq<Line>)
    ensures Elements(NodeChildren(address, lines)) == Below(address, Named(lines, true))
  {
    if lines != [] {
      NodeChildrenAre(address, lines[1..]);
      var name, rest := lines[0].name, Named(lines[1..], true);
      if Dollar(name) || !lines[0].isNode {
        assert Below(address, Named(lines, true)) == Below(address, rest);
      } else {
        assert Named(lines, true) == {name} + rest;
        assert Below(address, {name} + rest) == {address + [name]} + Below(address, rest);
      }
    }
  }

  /** The nodes of the next level are one segment longer than those of this one, and in the console. */
  ghost predicate NextLevel<V>(console: Tree<V>, next: set<Path>, depth: nat) {
    forall u :: u in next ==> |u| == depth && HasDir(console, u)
  }

  /** The leaves of one reply with the types it declares, a later line over an earlier one of its name. */
  function LeafKinds(address: Path, lines: seq<Line>): map<Path, string> {
    if lines == [] then map[]
    else
      var before, last := LeafKinds(address, lines[..|lines| - 1]), lines[|lines| - 1];
      if Dollar(last.name) || last.isNode then before else before[address + [last.name] := last.kind]
  }

  lemma {:induction false} NamedSnoc(lines: seq<Line>, isNode: bool)
    requires lines != []
    ensures Named(lines, isNode) ==
            Named(lines[..|lines| - 1], isNode)
            + if lines[|lines| - 1].isNode == isNode then {lines[|lines| - 1].name} else {}
  {
    if |lines| > 1 {
      NamedSnoc(lines[1..], isNode);
      assert lines[1..][..|lines| - 2] == lines[..|lines| - 1][1..];
    }
  }

  lemma {:induction false} LeafKindsAre(address: Path, lines: seq<Line>)
    ensures LeafKinds(address, lines).Keys == Below(address, Named(lines, false))
  {
    if lines != [] {
      var front, last := lines[..|lines| - 1], lines[|lines| - 1];
      LeafKindsAre(address, front);
      NamedSnoc(lines, false);
      BelowMore(address, Named(front, false), last.name);
    }
  }

  lemma BelowMore(u: Path, names: set<string>, name: string)
    ensures Below(u, names + {name}) == Below(u, names) + if Dollar(name) then {} else {u + [name]}
  {
  }

  /** A line that names a leaf, or a node, that is not read-only. */
  ghost predicate Names(line: Line, isNode: bool) {
    line.isNode == isNode && (line.name == "" || line.name[0] != '$')
  }

  /** The nodes are named in the order of the lines. */
  lemma {:induction false} NodeChildrenInOrder(address: Path, lines: seq<Line>, line: Line)
    ensures NodeChildren(address, []) == []
    ensures NodeChildren(address, lines + [line]) ==
            NodeChildren(address, lines) + if Names(line, true) then [address + [line.name]] else []
  {
    if lines == [] {
      assert [] + [line] == [line] && [line][1..] == [];
    } else {
      assert (lines + [line])[1..] == lines[1..] + [line];
      NodeChildrenInOrder(address, lines[1..], line);
      Regroup([address + [lines[0].name]], NodeChildren(address, lines[1..]),
              if Names(line, true) then [address + [line.name]] else []);
    }
  }

  /** The k-th line names a leaf, and is the last line to name it. */
  ghost predicate LastNamed(lines: seq<Line>, k: nat) {
    && k < |lines| && Names(lines[k], false)
    && forall j :: k < j < |lines| && Names(lines[j], false) ==> lines[j].name != lines[k].name
  }

  /** The type under an address is the one of the last line to name that leaf, and there is one for these alone. */
  lemma {:induction false} LeafKindsIs(address: Path, lines: seq<Line>, p: Path)
    ensures p in LeafKinds(address, lines) <==>
      exists k: nat :: LastNamed(lines, k) && p == address + [lines[k].name]
    ensures forall k: nat :: LastNamed(lines, k) && p == address + [lines[k].name] ==>
      p in LeafKinds(address, lines) && LeafKinds(address, lines)[p] == lines[k].kind
  {
    if lines != [] {
      var n := |lines| - 1;
      var front, last := lines[..n], lines[n];
      LeafKindsIs(address, front, p);
      forall k: nat
        ensures LastNamed(lines, k) <==>
          (k == n && Names(last, false)) ||
          (LastNamed(front, k) && !(Names(last, false) && last.name == front[k].name))
      {
        LastNamedMore(lines, k);
      }
      if Names(last, false) && p == address + [last.name] {
        assert LastNamed(lines, n);
        assert p[|address|] == last.name;
      }
    }
  }

  lemma LastNamedMore(lines: seq<Line>, k: nat)
    requires lines != []
    ensures var n := |lines| - 1;
      LastNamed(lines, k) <==>
        (k == n && Names(lines[n], false)) ||
        (LastNamed(lines[..n], k) && !(Names(lines[n], false) && lines[n].name == lines[..n][k].name))
  {
    hide Names;
    var front := lines[..|lines| - 1];
    assert forall j :: 0 <= j < |front| ==> front[j] == lines[j];
  }

  /** One reply: its leaves are filed, its nodes are the ones to ask next. */
  method ExpandOne<V>(address: Path, lines: seq<Line>, leaves: SharedMap<Path, string>) returns (next: seq<Path>)
    modifies leaves
    ensures next == NodeChildren(address, lines)
    ensures leaves.entries == old(leaves.entries) + LeafKinds(address, lines)
  {
    next := [];
    ghost var before := leaves.entries;
    assert lines[0..] == lines && lines[..0] == [];
    for i := 0 to |lines|
      invariant next + NodeChildren(address, lines[i..]) == NodeChildren(address, lines)
      invariant leaves.entries == before + LeafKinds(address, lines[..i])
    {
      var line := lines[i];
      assert lines[i..][0] == line && lines[i..][1..] == lines[i + 1..];
      assert lines[..i + 1][..i] == lines[..i];
      if !Dollar(line.name) {
        var child := address + [line.name];
        if line.isNode {
          Regroup(next, [child], NodeChildren(address, lines[i + 1..]));
          next := next + [child];
        } else {
          leaves.entries := leaves.entries[child := line.kind];
        }
      }
    }
    assert lines[|lines|..] == [] && lines[..|lines|] == lines;
  }

  /** The account in the middle of a level: `rest` are the replies still to be read. */
  ghost predicate Midway<V>(console: Tree<V>, found: set<Path>, aside: set<Path>, next: set<Path>, rest: set<Path>,
                            depth: nat) {
    && Split(console, found, aside + next + rest)
    && aside !! next && next !! rest && aside !! rest
    && NextLevel(console, next, depth + 1)
  }

  lemma ReadOne<V>(console: Tree<V>, found: set<Path>, aside: set<Path>, next: set<Path>, rest: set<Path>,
                   depth: nat, u: Path)
    requires Midway(console, found, aside, next, rest, depth) && u in rest && |u| == depth && HasDir(console, u)
    ensures var dir := At(console, u).value;
      Midway(console, found + Below(u, KidsOf(dir, false)), aside, next + Below(u, KidsOf(dir, true)), rest - {u},
             depth)
  {
    var dir := At(console, u).value;
    var more := Below(u, KidsOf(dir, true));
    OpenNode(console, found, aside + next + rest, u);
    OpenedOne(aside, next, rest, u, more);
    ChildrenExist(console, u, depth);
  }

  lemma PassOver<V>(console: Tree<V>, found: set<Path>, aside: set<Path>, next: set<Path>, rest: set<Path>,
                    depth: nat, u: Path)
    requires Midway(console, found, aside, next, rest, depth) && u in rest
    ensures Midway(console, found, aside + {u}, next, rest - {u}, depth)
  {
    Moved(aside, next, rest, u);
  }

  lemma Moved<T>(aside: set<T>, next: set<T>, rest: set<T>, u: T)
    requires u in rest && aside !! next && next !! rest && aside !! rest
    ensures aside + {u} + next + (rest - {u}) == aside + next + rest
    ensures aside + {u} !! next && next !! rest - {u} && aside + {u} !! rest - {u}
  {
  }

  lemma OpenedOne(aside: set<Path>, next: set<Path>, rest: set<Path>, u: Path, more: set<Path>)
    requires u in rest && aside !! rest && next !! rest
    ensures aside + next + rest - {u} + more == aside + (next + more) + (rest - {u})
  {
  }

  /** What the replies, read in the given order, add: nodes to ask next, leaves, and nodes whose reply had
      another shape. */
  function NextOf<V>(replies: map<Path, Body<V>>, order: seq<Path>): seq<Path> {
    if order == [] then []
    else
      var rest := NextOf(replies, order[1..]);
      if order[0] in replies && replies[order[0]].Lines? then NodeChildren(order[0], replies[order[0]].lines) + rest
      else rest
  }

  function KindsIn<V>(replies: map<Path, Body<V>>, order: seq<Path>): map<Path, string> {
    if order == [] then map[]
    else
      var before, last := KindsIn(replies, order[..|order| - 1]), order[|order| - 1];
      if last in replies && replies[last].Lines? then before + LeafKinds(last, replies[last].lines) else before
  }

  /** Reply after reply, each read as above, those of another shape passed over. */
  lemma {:induction false} NextOfEach<V>(replies: map<Path, Body<V>>, order: seq<Path>, address: Path)
    requires address in replies
    ensures NextOf(replies, []) == []
    ensures NextOf(replies, order + [address]) ==
            NextOf(replies, order)
            + if replies[address].Lines? then NodeChildren(address, replies[address].lines) else []
  {
    var last := if replies[address].Lines? then NodeChildren(address, replies[address].lines) else [];
    if order == [] {
      assert [] + [address] == [address] && [address][1..] == [] && last + [] == last;
    } else {
      assert (order + [address])[1..] == order[1..] + [address];
      NextOfEach(replies, order[1..], address);
      if order[0] in replies && replies[order[0]].Lines? {
        Regroup(NodeChildren(order[0], replies[order[0]].lines), NextOf(replies, order[1..]), last);
      }
    }
  }

  lemma {:induction false} KindsInEach<V>(replies: map<Path, Body<V>>, address: Path, order: seq<Path>)
    requires address in replies
    ensures KindsIn(replies, []) == map[]
    ensures KindsIn(replies, [address] + order) ==
            (if replies[address].Lines? then LeafKinds(address, replies[address].lines) else map[])
            + KindsIn(replies, order)
    decreases |order|
  {
    var first, all := if replies[address].Lines? then LeafKinds(address, replies[address].lines) else map[],
                      [address] + order;
    if order == [] {
      assert all == [address] && [address][..0] == [];
    } else {
      var n := |order| - 1;
      assert all[..|all| - 1] == [address] + order[..n] && all[|all| - 1] == order[n];
      KindsInEach(replies, address, order[..n]);
      if order[n] in replies && replies[order[n]].Lines? {
        Overlay(first, KindsIn(replies, order[..n]), LeafKinds(order[n], replies[order[n]].lines));
      }
    }
  }

  ghost function FoundIn<V>(replies: map<Path, Body<V>>, order: seq<Path>): set<Path> {
    if order == [] then {}
    else
      var rest := FoundIn(replies, order[1..]);
      if order[0] in replies && replies[order[0]].Lines? then
        Below(order[0], Named(replies[order[0]].lines, false)) + rest
      else rest
  }

  lemma {:induction false} FoundInSnoc<V>(replies: map<Path, Body<V>>, order: seq<Path>)
    requires order != []
    ensures var last := order[|order| - 1];
      FoundIn(replies, order) == FoundIn(replies, order[..|order| - 1]) +
        if last in replies && replies[last].Lines? then Below(last, Named(replies[last].lines, false)) else {}
  {
    if |order| > 1 {
      FoundInSnoc(replies, order[1..]);
      assert order[1..][..|order| - 2] == order[..|order| - 1][1..];
    }
  }

  lemma {:induction false} KindsInAre<V>(replies: map<Path, Body<V>>, order: seq<Path>)
    ensures KindsIn(replies, order).Keys == FoundIn(replies, order)
  {
    if order != [] {
      var last := order[|order| - 1];
      KindsInAre(replies, order[..|order| - 1]);
      FoundInSnoc(replies, order);
      if last in replies && replies[last].Lines? {
        LeafKindsAre(last, replies[last].lines);
      }
    }
  }

  ghost function SilentIn<V>(replies: map<Path, Body<V>>, order: seq<Path>): set<Path> {
    if order == [] then {}
    else
      var rest := SilentIn(replies, order[1..]);
      if order[0] in replies && !replies[order[0]].Lines? then {order[0]} + rest else rest
  }

  /** `_expand`: the replies of a level, in the order they are iterated. */
  method Expand<V>(replies: map<Path, Body<V>>, order: seq<Path>, leaves: SharedMap<Path, string>)
    returns (next: seq<Path>)
    requires Elements(order) <= replies.Keys
    modifies leaves
    ensures next == NextOf(replies, order)
    ensures leaves.entries == old(leaves.entries) + KindsIn(replies, order)
  {
    next := [];
    ghost var before := leaves.entries;
    assert order[0..] == order && order[..0] == [];
    for i := 0 to |order|
      invariant next + NextOf(replies, order[i..]) == NextOf(replies, order)
      invariant leaves.entries == before + KindsIn(replies, order[..i])
    {
      var address := order[i];
      InElements(order, address);
      assert order[i..][0] == address && order[i..][1..] == order[i + 1..];
      assert order[..i + 1][..i] == order[..i];
      var body := replies[address];
      if body.Lines? {
        var more := ExpandOne<V>(address, body.lines, leaves);
        Regroup(next, more, NextOf(replies, order[i + 1..]));
        Overlay(before, KindsIn(replies, order[..i]), LeafKinds(address, body.lines));
        next := next + more;
      }
    }
    assert order[|order|..] == [] && order[..|order|] == order;
  }

  lemma Overlay<K, W>(a: map<K, W>, b: map<K, W>, c: map<K, W>)
    ensures a + b + c == a + (b + c)
  {
  }

  ghost predicate AllTruthful<V>(console: Tree<V>, replies: map<Path, Body<V>>, order: seq<Path>, depth: nat) {
    order == [] ||
    (&& order[0] in replies && |order[0]| == depth && Truthful(console, Request(order[0], Children), replies[order[0]])
     && AllTruthful(console, replies, order[1..], depth))
  }

  /** A level read in full, in any order. A reply of another shape is passed over in silence: its node stays
      open in the account, set aside, though nothing reports it. */
  lemma {:induction false} LevelRead<V>(console: Tree<V>, found: set<Path>, aside: set<Path>, next: set<Path>,
                                        replies: map<Path, Body<V>>, order: seq<Path>, depth: nat)
    requires Midway(console, found, aside, next, Elements(order), depth) && Distinct(order)
    requires AllTruthful(console, replies, order, depth)
    ensures Midway(console, found + FoundIn(replies, order), aside + SilentIn(replies, order),
                   next + Elements(NextOf(replies, order)), {}, depth)
    decreases |order|
  {
    if order == [] {
      assert found + {} == found && aside + {} == aside && next + {} == next;
    } else {
      var u, rest := order[0], order[1..];
      var body := replies[u];
      assert Elements(order) - {u} == Elements(rest);
      if body.Lines? {
        ReadOne(console, found, aside, next, Elements(order), depth, u);
        NodeChildrenAre(u, body.lines);
        var leaves, nodes := Below(u, Named(body.lines, false)), Below(u, Named(body.lines, true));
        LevelRead(console, found + leaves, aside, next + nodes, replies, rest, depth);
        ElementsConcat(NodeChildren(u, body.lines), NextOf(replies, rest));
        Associate(found, leaves, FoundIn(replies, rest));
        Associate(next, nodes, Elements(NextOf(replies, rest)));
      } else {
        PassOver(console, found, aside, next, Elements(order), depth, u);
        LevelRead(console, found, aside + {u}, next, replies, rest, depth);
        Associate(aside, {u}, SilentIn(replies, rest));
      }
    }
  }

  lemma Associate<T>(a: set<T>, b: set<T>, c: set<T>)
    ensures a + b + c == a + (b + c)
  {
  }

  lemma ChildrenExist<V>(console: Tree<V>, u: Path, depth: nat)
    requires HasDir(console, u) && |u| == depth
    ensures NextLevel(console, Below(u, KidsOf(At(console, u).value, true)), depth + 1)
  {
    var names := KidsOf(At(console, u).value, true);
    forall v | v in Below(u, names)
      ensures |v| == depth + 1 && HasDir(console, v)
    {
      BelowIs(u, names, v);
      assert v == u + [v[|u|]];
      AtConcat(console, u, [v[|u|]]);
    }
  }

  // ----- the walk

  datatype SchemaResult = SchemaResult(leaves: map<Path, string>, unresolvedNodes: seq<Path>)

  /** The account between levels: unanswered nodes, nodes passed over, and the frontier. */
  ghost predicate Level<V>(console: Tree<V>, found: set<Path>, unresolved: seq<Path>, silent: set<Path>,
                           frontier: seq<Path>, depth: nat) {
    && Split(console, found, Elements(unresolved) + silent + Elements(frontier))
    && Elements(unresolved) + silent !! Elements(frontier) && Elements(unresolved) !! silent
    && Distinct(unresolved)
    && (forall u :: u in Elements(frontier) ==> |u| == depth && (depth > 1 ==> HasDir(console, u)))
  }

  function Roots(): seq<Path> {
    seq(13, i requires 0 <= i < 13 => if i < 12 then [AE_ROOTS[i]] else [CE_ROOT])
  }

  /** Twelve roots of the scene, and the one of the console's own settings. */
  lemma RootsInOrder()
    ensures Roots() == [["cfg"], ["io"], ["ch"], ["aux"], ["bus"], ["main"], ["mtx"], ["dca"], ["mgrp"], ["fx"],
                        ["cards"], ["play"], ["$ctl"]]
  {
    assert AE_ROOTS[0] == "cfg" && AE_ROOTS[1] == "io" && AE_ROOTS[2] == "ch" && AE_ROOTS[3] == "aux";
  }

  lemma RootIs(p: Path)
    ensures p in Elements(Roots()) <==> |p| == 1 && (p[0] in AE_ROOTS || p[0] == CE_ROOT)
  {
    InElements(Roots(), p);
    if |p| == 1 && p[0] in AE_ROOTS {
      var i :| 0 <= i < |AE_ROOTS| && AE_ROOTS[i] == p[0];
      assert Roots()[i] == p;
    }
    if |p| == 1 && p[0] == CE_ROOT {
      assert Roots()[12] == p;
    }
  }

  lemma RootsAre()
    ensures forall p :: p in Elements(Roots()) ==> |p| == 1 && Seeded(p)
  {
    forall p | p in Elements(Roots())
      ensures |p| == 1 && Seeded(p)
    {
      RootIs(p);
    }
  }

  lemma WalkStarts<V>(console: Tree<V>)
    ensures Level(console, {}, [], {}, Roots(), 1)
  {
    RootsAre();
    RootsAreOpen(console);
    RootsAreSeparate(console);
    assert Elements<Path>([]) + {} + Elements(Roots()) == Elements(Roots());
  }

  lemma RootsAreOpen<V>(console: Tree<V>)
    ensures FoundOrOpen(console, {}, Elements(Roots()))
  {
    forall p | Wanted(console, p)
      ensures Beneath(Elements(Roots()), p)
    {
      RootIs(p[..1]);
      assert p[..1] <= p;
    }
  }

  lemma RootsAreSeparate<V>(console: Tree<V>)
    ensures Separate(Elements(Roots())) && AllNodes(console, Elements(Roots()))
  {
    RootsAre();
  }

  /** A level asked and read: what the batch left unanswered joins the unresolved nodes. */
  lemma LevelDone<V(!new)>(console: Tree<V>, found: set<Path>, unresolved: seq<Path>, silent: set<Path>,
                           frontier: seq<Path>,
                           depth: nat, replies: map<Path, Body<V>>, missed: seq<Path>, order: seq<Path>,
                           honest: Answers<V>)
    requires Level(console, found, unresolved, silent, frontier, depth)
    requires forall r, b {:trigger honest(r, b)} :: honest(r, b) ==> Truthful(console, r, b)
    requires missed == Without(FirstSeen(frontier), replies.Keys)
    requires Answered(map[], replies, Elements(FirstSeen(frontier)), Children, honest)
    requires Distinct(order) && Elements(order) == replies.Keys
    ensures Level(console, found + FoundIn(replies, order), unresolved + missed, silent + SilentIn(replies, order),
                  NextOf(replies, order), depth + 1)
  {
    FirstSeenMembers(frontier);
    MissedAside(unresolved, silent, frontier, missed, replies.Keys);
    var aside := Elements(unresolved + missed) + silent;
    HonestLevel(console, replies, order, depth, frontier, honest);
    assert NextLevel(console, {}, depth + 1);
    LevelRead(console, found, aside, {}, replies, order, depth);
    SilentAreReplies(replies, order);
    LevelIs(console, found + FoundIn(replies, order), unresolved + missed, silent, SilentIn(replies, order),
            NextOf(replies, order), depth);
  }

  /** The level splits into the missed nodes and the replies. */
  lemma MissedAside(unresolved: seq<Path>, silent: set<Path>, frontier: seq<Path>, missed: seq<Path>,
                    replies: set<Path>)
    requires Elements(unresolved) + silent !! Elements(frontier) && Elements(unresolved) !! silent
             && Distinct(unresolved)
    requires missed == Without(FirstSeen(frontier), replies) && replies <= Elements(frontier)
    ensures var aside := Elements(unresolved + missed) + silent;
      && Elements(unresolved) + silent + Elements(frontier) == aside + {} + replies
      && aside !! replies
    ensures Elements(unresolved + missed) !! silent && Distinct(unresolved + missed)
  {
    FirstSeenMembers(frontier);
    WithoutMembers(FirstSeen(frontier), replies);
    ElementsConcat(unresolved, missed);
    DistinctConcat(unresolved, missed);
  }

  lemma LevelIs<V>(console: Tree<V>, found: set<Path>, unresolved: seq<Path>, silent: set<Path>, more: set<Path>,
                   next: seq<Path>, depth: nat)
    requires Distinct(unresolved) && Elements(unresolved) !! silent && Elements(unresolved) !! more
    requires Midway(console, found, Elements(unresolved) + silent + more, {} + Elements(next), {}, depth)
    ensures Level(console, found, unresolved, silent + more, next, depth + 1)
  {
    Associate(Elements(unresolved), silent, more);
    var open := Elements(unresolved) + silent + more + ({} + Elements(next)) + {};
    assert open == Elements(unresolved) + (silent + more) + Elements(next);
  }

  lemma {:induction false} SilentAreReplies<V>(replies: map<Path, Body<V>>, order: seq<Path>)
    ensures SilentIn(replies, order) <= replies.Keys && SilentIn(replies, order) <= Elements(order)
    ensures forall a :: a in SilentIn(replies, order) ==> !replies[a].Lines?
    ensures (forall a :: a in replies ==> replies[a].Lines?) ==> SilentIn(replies, order) == {}
  {
    if order != [] {
      SilentAreReplies(replies, order[1..]);
    }
  }

  lemma HonestLevel<V(!new)>(console: Tree<V>, replies: map<Path, Body<V>>, order: seq<Path>, depth: nat,
                             frontier: seq<Path>,
                             honest: Answers<V>)
    requires forall r, b {:trigger honest(r, b)} :: honest(r, b) ==> Truthful(console, r, b)
    requires forall u :: u in Elements(frontier) ==> |u| == depth
    requires Answered(map[], replies, Elements(frontier), Children, honest)
    requires Elements(order) <= replies.Keys
    ensures AllTruthful(console, replies, order, depth)
  {
    if order != [] {
      HonestLevel(console, replies, order[1..], depth, frontier, honest);
    }
  }

  method KeysInOrder<T(==)>(keys: set<T>) returns (order: seq<T>)
    ensures Distinct(order) && Elements(order) == keys
  {
    order := [];
    var rest := keys;
    while rest != {}
      invariant Distinct(order) && rest <= keys && Elements(order) == keys - rest
      decreases rest
    {
      var k :| k in rest;
      Append(order, k);
      order, rest := order + [k], rest - {k};
    }
  }

  type Connection<V(!new)> = Client.WingClient<Path, Query, Body<V>>

  /** What the walk relies on: a socket that owes nothing, and a console that tells the truth. */
  ghost predicate Honest<V(!new)>(console: Tree<V>, honest: Answers<V>) {
    forall r, b {:trigger honest(r, b)} :: honest(r, b) ==> Truthful(console, r, b)
  }

  /** Nothing is lost but by these faults, and the socket is in good order. */
  ghost predicate Quiet<V(!new)>(connection: Connection<V>, faults: ReadFaults)
    reads connection
  {
    Poisoned(connection.net, faults, connection.honest) && connection.Healthy(faults)
  }

  /** Each of these addresses gets no answer to this query. */
  ghost predicate Excused(addresses: set<Path>, query: Query, faults: ReadFaults) {
    forall a :: a in addresses ==> Request(a, query) in faults.absent
  }

  /** Where no request of a query is poison, a batch misses what is absent alone. */
  lemma OnlyAbsentMissed(asked: seq<Path>, batchSize: int, retryRounds: int, query: Query, faults: ReadFaults)
    requires retryRounds >= 0 && faults.Poison(query) == iset{}
    ensures Excused(Elements(Ladder.Climb(asked, Ladder.Max(1, batchSize), retryRounds + 1, faults.Poison(query),
                                          faults.Absent(query)).unresolved), query, faults)
  {
    var absent := faults.Absent(query);
    Ladder.TwoPassesWithoutPoison(asked, Ladder.Max(1, batchSize), retryRounds + 1, absent);
    forall a | a in Elements(Within(asked, absent))
      ensures a in absent
    {
      WithinMembers(asked, absent, a);
    }
  }

  /** Asked for on its own, an address that is not silent is answered. */
  lemma AloneIsAnswered(address: Path, query: Query, faults: ReadFaults)
    requires !faults.Silent(Request(address, query))
    ensures Ladder.Climb([address], 1, Ladder.DEFAULT_RETRY_ROUNDS + 1, faults.Poison(query),
                         faults.Absent(query)).unresolved == []
  {
    var poison, absent := faults.Poison(query), faults.Absent(query);
    Ladder.ClimbAtOne([address], Ladder.DEFAULT_RETRY_ROUNDS + 1, poison, absent);
    assert Within([address][1..], poison + absent) == [];
  }

  /** Each children reply is one schema text. */
  ghost predicate WellFormed<V(!new)>(honest: Answers<V>) {
    forall r, b {:trigger honest(r, b)} :: honest(r, b) && r.query == Children ==> b.Lines?
  }

  /** Each of these nodes has a schema reply of another shape: one that tells nothing. */
  ghost predicate ToldNothing<V(!new)>(honest: Answers<V>, nodes: set<Path>) {
    forall u :: u in nodes ==> exists b :: honest(Request(u, Children), b) && !b.Lines?
  }

  lemma SilentToldNothing<V(!new)>(replies: map<Path, Body<V>>, order: seq<Path>, asked: seq<Path>, honest: Answers<V>)
    requires Answered(map[], replies, Elements(asked), Children, honest)
    ensures ToldNothing(honest, SilentIn(replies, order))
  {
    SilentAreReplies(replies, order);
    forall u | u in SilentIn(replies, order)
      ensures exists b :: honest(Request(u, Children), b) && !b.Lines?
    {
      assert honest(Request(u, Children), replies[u]) && !replies[u].Lines?;
    }
  }

  lemma BothToldNothing<V(!new)>(honest: Answers<V>, a: set<Path>, b: set<Path>)
    requires ToldNothing(honest, a) && ToldNothing(honest, b)
    ensures ToldNothing(honest, a + b)
  {
  }

  /** So where each schema reply is one text, there are none. */
  lemma NoneToldNothing<V(!new)>(honest: Answers<V>, nodes: set<Path>)
    requires ToldNothing(honest, nodes) && WellFormed(honest)
    ensures nodes == {}
  {
    forall u
      ensures u !in nodes
    {
      assert u in nodes ==> exists b :: honest(Request(u, Children), b) && !b.Lines?;
    }
  }

  // ----- what the walk asked, and in which order

  /** One level: its batch, and the order in which its replies were read. */
  datatype LevelRun<V> = LevelRun(batch: Batch<Path, Query, Body<V>>, order: seq<Path>)

  /** The first level asks the roots, each later one the nodes that the replies of the level before named. */
  ghost function FrontierAt<V>(levels: seq<LevelRun<V>>, k: nat): seq<Path>
    requires k <= |levels|
  {
    if k == 0 then Roots() else NextOf(levels[k - 1].batch.replies, levels[k - 1].order)
  }

  /** All nodes of one level went out in a single batch of this size with these retries. */
  ghost predicate LevelRan<V(!new)>(net: Network<Path, Query, Body<V>>, batchSize: int, retryRounds: int,
                                    frontier: seq<Path>, level: LevelRun<V>) {
    && BatchRan(net, Children, batchSize, retryRounds, level.batch) && level.batch.asked == FirstSeen(frontier) != []
    && Distinct(level.order) && Elements(level.order) == level.batch.replies.Keys
  }

  ghost predicate LevelAt<V(!new)>(net: Network<Path, Query, Body<V>>, batchSize: int, retryRounds: int,
                                   levels: seq<LevelRun<V>>, k: nat)
    requires k < |levels|
  {
    LevelRan(net, batchSize, retryRounds, FrontierAt(levels, k), levels[k])
  }

  ghost predicate LevelsRan<V(!new)>(net: Network<Path, Query, Body<V>>, batchSize: int, retryRounds: int,
                                     levels: seq<LevelRun<V>>) {
    forall k :: 0 <= k < |levels| ==> LevelAt(net, batchSize, retryRounds, levels, k)
  }

  /** What the batches left unanswered, level after level. */
  ghost function AllUnanswered<V>(levels: seq<LevelRun<V>>): seq<Path> {
    if levels == [] then []
    else AllUnanswered(levels[..|levels| - 1]) + levels[|levels| - 1].batch.unresolved
  }

  /** The leaves named by the replies, level after level. */
  ghost function AllKinds<V>(levels: seq<LevelRun<V>>): map<Path, string> {
    if levels == [] then map[]
    else
      var last := levels[|levels| - 1];
      AllKinds(levels[..|levels| - 1]) + KindsIn(last.batch.replies, last.order)
  }

  lemma NoLevels<V(!new)>(net: Network<Path, Query, Body<V>>, batchSize: int, retryRounds: int)
    ensures LevelsRan<V>(net, batchSize, retryRounds, []) && FrontierAt<V>([], 0) == Roots()
    ensures AllUnanswered<V>([]) == [] && AllKinds<V>([]) == map[]
  {
  }

  lemma LevelAdded<V(!new)>(net: Network<Path, Query, Body<V>>, batchSize: int, retryRounds: int,
                            levels: seq<LevelRun<V>>, level: LevelRun<V>)
    requires LevelsRan(net, batchSize, retryRounds, levels)
    requires LevelRan(net, batchSize, retryRounds, FrontierAt(levels, |levels|), level)
    ensures var all := levels + [level];
      && LevelsRan(net, batchSize, retryRounds, all)
      && FrontierAt(all, |all|) == NextOf(level.batch.replies, level.order)
      && AllUnanswered(all) == AllUnanswered(levels) + level.batch.unresolved
      && AllKinds(all) == AllKinds(levels) + KindsIn(level.batch.replies, level.order)
  {
    hide BatchRan, NextOf, KindsIn, FirstSeen;
    var all := levels + [level];
    assert all[..|levels|] == levels;
    forall k | 0 <= k < |all|
      ensures LevelAt(net, batchSize, retryRounds, all, k)
    {
      if k > 0 { assert all[k - 1] == levels[k - 1]; }
      if k < |levels| { assert all[k] == levels[k] && LevelAt(net, batchSize, retryRounds, levels, k); }
    }
  }

  lemma SomeFirst(frontier: seq<Path>)
    requires frontier != []
    ensures FirstSeen(frontier) != []
  {
    FirstSeenMembers(frontier);
    assert frontier[0] in Elements(frontier);
  }

  /** All nodes of one depth go out in a single batch. */
  method AskLevel<V(!new)>(connection: Connection<V>, frontier: seq<Path>, batchSize: int, retryRounds: int,
                           leaves: SharedMap<Path, string>, ghost console: Tree<V>, ghost unresolved: seq<Path>,
                           ghost silent: set<Path>, ghost depth: nat, ghost faults: ReadFaults)
    returns (missed: seq<Path>, next: seq<Path>, ghost more: set<Path>, ghost level: LevelRun<V>)
    requires connection.Trustworthy() && connection.Clean() && Honest(console, connection.honest)
    requires frontier != [] && Level(console, leaves.entries.Keys, unresolved, silent, frontier, depth)
    modifies connection, leaves
    ensures LevelRan(connection.net, batchSize, retryRounds, frontier, level)
    ensures missed == level.batch.unresolved && next == NextOf(level.batch.replies, level.order)
    ensures leaves.entries == old(leaves.entries) + KindsIn(level.batch.replies, level.order)
    ensures connection.Clean()
    ensures Level(console, leaves.entries.Keys, unresolved + missed, silent + more, next, depth + 1)
    ensures ToldNothing(connection.honest, more)
    ensures old(Quiet(connection, faults)) ==> Quiet(connection, faults)
    ensures old(Quiet(connection, faults)) && retryRounds >= 0 && faults.Poison(Children) == iset{} ==>
      Excused(Elements(missed), Children, faults)
  {
    hide BatchRan, Client.Isolated, Ladder.Climb, Level, NextOf, KindsIn, ToldNothing;
    ghost var found := leaves.entries.Keys;
    var result;
    ghost var batch;
    result, batch := connection.GetMany(frontier, batchSize, retryRounds, Children, faults);
    if retryRounds >= 0 && faults.Poison(Children) == iset{} {
      OnlyAbsentMissed(batch.asked, batchSize, retryRounds, Children, faults);
    }
    var order := KeysInOrder(result.replies.Keys);
    missed, more := result.unresolved, SilentIn(result.replies, order);
    LevelDone(console, found, unresolved, silent, frontier, depth, result.replies, missed, order, connection.honest);
    SilentToldNothing(result.replies, order, batch.asked, connection.honest);
    KindsInAre(result.replies, order);
    next := Expand(result.replies, order, leaves);
    level := LevelRun(batch, order);
    SomeFirst(frontier);
  }

  /** The breadth-first loop: every seeded node is opened, left unanswered, or passed over. It ends because the
      console is only so deep. */
  method WalkLevels<V(!new)>(connection: Connection<V>, batchSize: int, retryRounds: int,
                             leaves: SharedMap<Path, string>, ghost console: Tree<V>, ghost faults: ReadFaults)
    returns (unresolved: seq<Path>, ghost silent: set<Path>, ghost levels: seq<LevelRun<V>>)
    requires connection.Trustworthy() && connection.Clean() && Honest(console, connection.honest)
    requires leaves.entries == map[]
    modifies connection, leaves
    ensures LevelsRan(connection.net, batchSize, retryRounds, levels) && FrontierAt(levels, |levels|) == []
    ensures unresolved == AllUnanswered(levels) && leaves.entries == AllKinds(levels)
    ensures connection.Clean()
    ensures Level(console, leaves.entries.Keys, unresolved, silent, [], 0)
    ensures ToldNothing(connection.honest, silent)
    ensures old(Quiet(connection, faults)) ==> Quiet(connection, faults)
    ensures old(Quiet(connection, faults)) && retryRounds >= 0 && faults.Poison(Children) == iset{} ==>
      Excused(Elements(unresolved), Children, faults)
  {
    hide LevelsRan, LevelRan, FrontierAt, Roots, NextOf, AllKinds, KindsIn, Poisoned, Split, Outstanding, Deliverable;
    ghost var quiet := Quiet(connection, faults);
    ghost var spared := quiet && retryRounds >= 0 && faults.Poison(Children) == iset{};
    var frontier := Roots();
    unresolved, silent, levels := [], {}, [];
    ghost var depth := 1;
    ghost var deepest := DepthBound(console);
    assert leaves.entries.Keys == {};
    WalkStarts(console);
    NoLevels(connection.net, batchSize, retryRounds);
    while frontier != []
      invariant LevelsRan(connection.net, batchSize, retryRounds, levels) && FrontierAt(levels, |levels|) == frontier
      invariant unresolved == AllUnanswered(levels) && leaves.entries == AllKinds(levels)
      invariant connection.Clean()
      invariant 1 <= depth <= deepest + 2
      invariant Level(console, leaves.entries.Keys, unresolved, silent, frontier, depth)
      invariant ToldNothing(connection.honest, silent)
      invariant quiet ==> Quiet(connection, faults)
      invariant spared ==> Excused(Elements(unresolved), Children, faults)
      decreases deepest + 2 - depth
    {
      StillInConsole(console, frontier, depth, deepest);
      var missed, next;
      ghost var more, level;
      missed, next, more, level := AskLevel(connection, frontier, batchSize, retryRounds, leaves, console, unresolved,
                                            silent, depth, faults);
      LevelAdded(connection.net, batchSize, retryRounds, levels, level);
      levels := levels + [level];
      ElementsConcat(unresolved, missed);
      BothToldNothing(connection.honest, silent, more);
      unresolved, silent, frontier, depth := unresolved + missed, silent + more, next, depth + 1;
    }
  }

  lemma StillInConsole<V>(console: Tree<V>, frontier: seq<Path>, depth: nat, deepest: nat)
    requires frontier != [] && depth >= 1
    requires forall u :: u in Elements(frontier) ==> |u| == depth && (depth > 1 ==> HasDir(console, u))
    requires forall p :: At(console, p).Some? ==> |p| <= deepest
    ensures depth < deepest + 2
  {
    assert frontier[0] in Elements(frontier);
  }

  // ----- the dump fallback

  /** The address of a leaf of a dump of `u`. */
  ghost predicate Dumped<W>(u: Path, dump: Tree<W>, p: Path) {
    u <= p && Plain(p[|u|..]) && LeafAt(dump, p[|u|..]).Some?
  }

  ghost predicate FiledDump<W>(before: set<Path>, after: set<Path>, u: Path, dump: Tree<W>) {
    forall p :: p in after <==> p in before || Dumped(u, dump, p)
  }

  /** A node whose dump lists every key is opened by the dump. */
  lemma DumpOpens<V, W>(console: Tree<V>, found: set<Path>, found': set<Path>, open: set<Path>, u: Path, dump: Tree<W>)
    requires Split(console, found, open) && u in open && HasDir(console, u)
    requires SameShape(dump, At(console, u).value) && FiledDump(found, found', u, dump)
    ensures Split(console, found', open - {u})
  {
    forall p | Dumped(u, dump, p)
      ensures Wanted(console, p) && |p| >= 2
    {
      DumpedIsWanted(console, u, dump, p);
    }
    forall p | Wanted(console, p)
      ensures p in found' <==> !Beneath(open - {u}, p)
    {
      if u <= p {
        WantedIsDumped(console, u, dump, p);
        OnlyAbove(open, u, p);
      } else {
        StillAbove(open, u, p);
      }
    }
  }

  lemma DumpedIsWanted<V, W>(console: Tree<V>, u: Path, dump: Tree<W>, p: Path)
    requires Seeded(u) && HasDir(console, u) && SameShape(dump, At(console, u).value) && Dumped(u, dump, p)
    ensures Wanted(console, p) && |p| >= 2
  {
    var q := p[|u|..];
    assert p == u + q;
    AtConcat(console, u, q);
    forall i | 1 <= i < |p|
      ensures !Dollar(p[i])
    {
      if i < |u| {
        assert p[i] == u[i];
      } else {
        assert p[i] == q[i - |u|];
      }
    }
  }

  lemma WantedIsDumped<V, W>(console: Tree<V>, u: Path, dump: Tree<W>, p: Path)
    requires Seeded(u) && HasDir(console, u) && SameShape(dump, At(console, u).value) && Wanted(console, p) && u <= p
    ensures Dumped(u, dump, p)
  {
    var q := p[|u|..];
    assert p == u + q;
    AtConcat(console, u, q);
    forall i | 0 <= i < |q|
      ensures !Dollar(q[i])
    {
      assert q[i] == p[|u| + i];
    }
  }

  lemma DumpGrows<W>(before: set<Path>, middle: set<Path>, after: set<Path>, u: Path, dump: Tree<W>,
                     keys: set<string>, key: string)
    requires dump.Dir? && key in dump.kids && key !in keys
    requires FiledDump(before, middle, u, Only(dump, keys))
    requires if Dollar(key) then after == middle else FiledChild(middle, after, u + [key], dump.kids[key])
    ensures FiledDump(before, after, u, Only(dump, keys + {key}))
  {
    forall p
      ensures Dumped(u, Only(dump, keys + {key}), p) <==>
              Dumped(u, Only(dump, keys), p) || (!Dollar(key) && DumpedChild(u + [key], dump.kids[key], p))
    {
      if u <= p {
        var q := p[|u|..];
        if q != [] && q[0] == key {
          assert u + [key] <= p && p[|u| + 1..] == q[1..];
          assert Plain(q) <==> !Dollar(key) && (q[1..] == [] || Plain(q[1..])) by {
            assert forall i :: 1 <= i < |q| ==> q[i] == q[1..][i - 1];
            assert forall i :: 0 <= i < |q[1..]| ==> q[1..][i] == q[i + 1];
          }
        } else {
          assert !(u + [key] <= p);
        }
      }
    }
  }

  /** The same for a child, which may be a leaf itself. */
  ghost predicate DumpedChild<W>(u: Path, child: Tree<W>, p: Path) {
    u <= p && (p == u || Plain(p[|u|..])) && LeafAt(child, p[|u|..]).Some?
  }

  ghost predicate FiledChild<W>(before: set<Path>, after: set<Path>, u: Path, child: Tree<W>) {
    forall p :: p in after <==> p in before || DumpedChild(u, child, p)
  }

  lemma LeafFiled<W>(before: set<Path>, u: Path, v: W)
    ensures FiledChild(before, before + {u}, u, Leaf(v))
  {
    forall p
      ensures DumpedChild(u, Leaf(v), p) <==> p == u
    {
      if u <= p && p[|u|..] == [] {
        assert p == u;
      }
    }
  }

  lemma DirFiled<W>(before: set<Path>, after: set<Path>, u: Path, child: Tree<W>)
    requires child.Dir? && FiledDump(before, after, u, child)
    ensures FiledChild(before, after, u, child)
  {
    forall p
      ensures DumpedChild(u, child, p) <==> Dumped(u, child, p)
    {
      if p == u { assert p[|u|..] == []; }
    }
  }

  /** What was filed keeps its type; what is new has none, for a dump carries none. */
  ghost predicate Untyped(before: map<Path, string>, after: map<Path, string>) {
    && (forall p :: p in before ==> p in after && after[p] == before[p])
    && (forall p :: p in after && p !in before ==> after[p] == "")
  }

  /** The keys of a dump filed so far, over what was filed `before`. */
  ghost predicate FiledSoFar(before: map<Path, string>, after: map<Path, string>, u: Path, dump: Tree<string>,
                             keys: set<string>)
    requires dump.Dir?
  {
    FiledDump(before.Keys, after.Keys, u, Only(dump, keys)) && Untyped(before, after)
  }

  lemma NothingFiled(before: map<Path, string>, u: Path, dump: Tree<string>)
    requires dump.Dir?
    ensures FiledSoFar(before, before, u, dump, {})
  {
    assert Only(dump, {}) == Empty<string>();
    forall p
      ensures !Dumped(u, Empty<string>(), p)
    {
      if u <= p { NoLeafInEmpty<string>(p[|u|..]); }
    }
  }

  lemma AllFiled(before: map<Path, string>, after: map<Path, string>, u: Path, dump: Tree<string>)
    requires dump.Dir? && FiledSoFar(before, after, u, dump, dump.kids.Keys)
    ensures FiledDump(before.Keys, after.Keys, u, dump) && Untyped(before, after)
  {
    assert Only(dump, dump.kids.Keys) == dump;
  }

  lemma UntypedTwice(a: map<Path, string>, b: map<Path, string>, c: map<Path, string>)
    requires Untyped(a, b) && Untyped(b, c)
    ensures Untyped(a, c)
  {
  }

  /** `_file_dump_keys`, over the dictionaries the parser built: an address already filed is kept as it is. */
  method FileDumpKeys(prefix: Path, node: DictNode<string>, leaves: SharedMap<Path, string>,
                      ghost world: seq<DictNode<string>>)
    requires Dicts.Valid(world) && Knows(world, node)
    modifies leaves
    ensures FiledDump(old(leaves.entries).Keys, leaves.entries.Keys, prefix, TreeAt(Image(world), node.id))
    ensures Untyped(old(leaves.entries), leaves.entries)
    decreases |world| - node.id, 1
  {
    ghost var before, done, dump := leaves.entries, {}, TreeAt(Image(world), node.id);
    var rest := node.slots.Keys;
    NothingFiled(before, prefix, dump);
    while rest != {}
      invariant rest <= node.slots.Keys && done == node.slots.Keys - rest
      invariant FiledSoFar(before, leaves.entries, prefix, dump, done)
      decreases rest
    {
      var key :| key in rest;
      FileDumpKey(prefix, node, key, leaves, world, before, done);
      rest, done := rest - {key}, done + {key};
    }
    assert done == dump.kids.Keys;
    AllFiled(before, leaves.entries, prefix, dump);
  }

  /** One key of it. */
  method FileDumpKey(prefix: Path, node: DictNode<string>, key: string, leaves: SharedMap<Path, string>,
                     ghost world: seq<DictNode<string>>, ghost before: map<Path, string>, ghost done: set<string>)
    requires Dicts.Valid(world) && Knows(world, node) && key in node.slots && key !in done
    requires FiledSoFar(before, leaves.entries, prefix, TreeAt(Image(world), node.id), done)
    modifies leaves
    ensures FiledSoFar(before, leaves.entries, prefix, TreeAt(Image(world), node.id), done + {key})
    decreases |world| - node.id, 0
  {
    ghost var dump, middle := TreeAt(Image(world), node.id), leaves.entries;
    if !Dollar(key) {
      WiredIs(world, |world|);
      KidTree(Image(world), node.id, key);
      FileDumpValue(prefix + [key], node.slots[key], leaves, world, dump.kids[key]);
    }
    DumpGrows(before.Keys, middle.Keys, leaves.entries.Keys, prefix, dump, done, key);
    UntypedTwice(before, middle, leaves.entries);
  }

  method FileDumpValue(child: Path, slot: Slot<string>, leaves: SharedMap<Path, string>,
                       ghost world: seq<DictNode<string>>, ghost tree: Tree<string>)
    requires Dicts.Valid(world) && (slot.Nested? ==> Knows(world, slot.dict))
    requires tree == if slot.Nested? then TreeAt(Image(world), slot.dict.id) else Leaf(slot.value)
    modifies leaves
    ensures FiledChild(old(leaves.entries).Keys, leaves.entries.Keys, child, tree)
    ensures Untyped(old(leaves.entries), leaves.entries)
    decreases if slot.Nested? then |world| - slot.dict.id else 0, 2
  {
    ghost var before := leaves.entries.Keys;
    match slot {
      case Nested(d) =>
        FileDumpKeys(child, d, leaves, world);
        DirFiled(before, leaves.entries.Keys, child, tree);
      case Held(v) =>
        if child !in leaves.entries {
          leaves.entries := leaves.entries[child := ""];
        }
        LeafFiled(before, child, v);
        assert leaves.entries.Keys == before + {child};
    }
  }

  /** The reply is a dump that parses. */
  ghost predicate Usable<V>(reply: Option<Body<V>>) {
    reply.Some? && reply.value.Text? && NodeText.Meaning(reply.value.text).Ok?
  }

  /** Each dump reply is a text that parses. */
  ghost predicate DumpsParse<V(!new)>(honest: Answers<V>) {
    forall r, b {:trigger honest(r, b)} :: honest(r, b) && r.query == Dump ==> Usable(Some(b))
  }

  /** A dump is asked for on its own, in a batch of one with the default retries, and is what came for the node. */
  ghost predicate DumpRan<V(!new)>(net: Network<Path, Query, Body<V>>, node: Path, batch: Batch<Path, Query, Body<V>>,
                                   dump: Option<Body<V>>) {
    && BatchRan(net, Dump, 1, 8, batch) && batch.asked == [node]
    && dump == if node in batch.replies then Some(batch.replies[node]) else None
  }

  ghost predicate DumpAt<V(!new)>(net: Network<Path, Query, Body<V>>, nodes: seq<Path>,
                                  batches: seq<Batch<Path, Query, Body<V>>>, dumps: seq<Option<Body<V>>>, i: nat)
    requires i < |nodes| && i < |batches| && i < |dumps|
  {
    DumpRan(net, nodes[i], batches[i], dumps[i])
  }

  ghost predicate DumpsRan<V(!new)>(net: Network<Path, Query, Body<V>>, nodes: seq<Path>,
                                    batches: seq<Batch<Path, Query, Body<V>>>, dumps: seq<Option<Body<V>>>) {
    && |batches| == |dumps| == |nodes|
    && forall i :: 0 <= i < |nodes| ==> DumpAt(net, nodes, batches, dumps, i)
  }

  lemma DumpAdded<V(!new)>(net: Network<Path, Query, Body<V>>, nodes: seq<Path>, i: nat,
                           batches: seq<Batch<Path, Query, Body<V>>>, dumps: seq<Option<Body<V>>>,
                           batch: Batch<Path, Query, Body<V>>, dump: Option<Body<V>>)
    requires i < |nodes| && DumpsRan(net, nodes[..i], batches, dumps) && DumpRan(net, nodes[i], batch, dump)
    ensures DumpsRan(net, nodes[..i + 1], batches + [batch], dumps + [dump])
  {
    hide DumpRan;
    var asked, allBatches, allDumps := nodes[..i + 1], batches + [batch], dumps + [dump];
    forall k | 0 <= k < |asked|
      ensures DumpAt(net, asked, allBatches, allDumps, k)
    {
      if k < i { assert DumpAt(net, nodes[..i], batches, dumps, k); }
    }
  }

  /** One node's dump, asked for on its own: it opens the node exactly when it comes and parses. */
  method DumpOne<V(!new)>(connection: Connection<V>, address: Path, leaves: SharedMap<Path, string>,
                          ghost console: Tree<V>, ghost open: set<Path>, ghost faults: ReadFaults)
    returns (ok: bool, ghost reply: Option<Body<V>>, ghost batch: Batch<Path, Query, Body<V>>)
    requires connection.Trustworthy() && connection.Clean() && Honest(console, connection.honest)
    requires Split(console, leaves.entries.Keys, open) && address in open
    modifies connection, leaves
    ensures DumpRan(connection.net, address, batch, reply) && Untyped(old(leaves.entries), leaves.entries)
    ensures connection.Clean()
    ensures Split(console, leaves.entries.Keys, if ok then open - {address} else open)
    ensures ok <==> Usable(reply)
    ensures reply.Some? ==> connection.honest(Request(address, Dump), reply.value)
    ensures old(Quiet(connection, faults)) ==> Quiet(connection, faults)
    ensures old(Quiet(connection, faults)) && !faults.Silent(Request(address, Dump)) ==> reply.Some?
  {
    hide BatchRan, Client.Isolated, Ladder.Climb, NodeText.Meaning, Poisoned, Split;
    var result;
    result, batch := connection.GetMany([address], 1, Ladder.DEFAULT_RETRY_ROUNDS, Dump, faults);
    if !faults.Silent(Request(address, Dump)) { AloneIsAnswered(address, Dump, faults); }
    OneAsked(address, result.replies.Keys);
    reply := if address in result.replies then Some(result.replies[address]) else None;
    if address !in result.replies || !result.replies[address].Text? {
      return false, reply, batch;
    }
    ok := FileDump(result.replies[address].text, address, leaves, console, open);
  }

  lemma OneAsked(address: Path, replies: set<Path>)
    ensures FirstSeen([address]) == [address] && Elements([address]) == {address}
    ensures Elements(Without([address], replies)) == {address} - replies
  {
    One(address);
    assert [address][..0] == [];
    WithoutMembers([address], replies);
  }

  /** Only the key names of a dump that parses are taken. */
  method FileDump<V>(text: string, address: Path, leaves: SharedMap<Path, string>, ghost console: Tree<V>,
                     ghost open: set<Path>)
    returns (ok: bool)
    requires Split(console, leaves.entries.Keys, open) && address in open
    requires HasDir(console, address) && ShapeOf(text, At(console, address).value)
    modifies leaves
    ensures Split(console, leaves.entries.Keys, if ok then open - {address} else open)
    ensures Untyped(old(leaves.entries), leaves.entries)
    ensures ok <==> NodeText.Meaning(text).Ok?
  {
    var parsed;
    ghost var world;
    parsed, world := NodeText.ParseNodeText(text);
    if parsed.Err? {
      return false;
    }
    ghost var found := leaves.entries.Keys;
    ghost var dump := NodeText.Meaning(text).value.tree;
    FileKeys(address, parsed.value, leaves, world, dump);
    DumpOpens(console, found, leaves.entries.Keys, open, address, dump);
    return true;
  }

  /** The keys of a whole parsed dump. */
  method FileKeys(prefix: Path, root: DictNode<string>, leaves: SharedMap<Path, string>,
                  ghost world: seq<DictNode<string>>, ghost dump: Tree<string>)
    requires Dicts.Valid(world) && world != [] && root == world[0] && dump == Value(world)
    modifies leaves
    ensures FiledDump(old(leaves.entries).Keys, leaves.entries.Keys, prefix, dump)
    ensures Untyped(old(leaves.entries), leaves.entries)
  {
    RootStack(world);
    FileDumpKeys(prefix, root, leaves, world);
  }

  /** The nodes whose dump did not come or did not parse, in order. */
  ghost function Unopened<V>(nodes: seq<Path>, dumps: seq<Option<Body<V>>>): seq<Path>
    requires |nodes| == |dumps|
  {
    if nodes == [] then []
    else
      var n := |nodes| - 1;
      var before := Unopened(nodes[..n], dumps[..n]);
      if Usable(dumps[n]) then before else before + [nodes[n]]
  }

  /** Node by node, in order. */
  lemma {:induction false} UnopenedEach<V>(node: Path, nodes: seq<Path>, dump: Option<Body<V>>,
                                           dumps: seq<Option<Body<V>>>)
    requires |nodes| == |dumps|
    ensures Unopened<V>([], []) == []
    ensures Unopened([node] + nodes, [dump] + dumps) ==
            (if dump.Some? && dump.value.Text? && NodeText.Meaning(dump.value.text).Ok? then [] else [node])
            + Unopened(nodes, dumps)
    decreases |nodes|
  {
    hide NodeText.Meaning;
    var all, allDumps := [node] + nodes, [dump] + dumps;
    if nodes == [] {
      assert all == [node] && allDumps == [dump] && [node][..0] == [] && [dump][..0] == [];
    } else {
      var n := |nodes| - 1;
      assert all[..n + 1] == [node] + nodes[..n] && allDumps[..n + 1] == [dump] + dumps[..n];
      UnopenedEach(node, nodes[..n], dump, dumps[..n]);
    }
  }

  lemma {:induction false} UnopenedAre<V>(nodes: seq<Path>, dumps: seq<Option<Body<V>>>)
    requires |nodes| == |dumps| && Distinct(nodes)
    ensures Elements(Unopened(nodes, dumps)) <= Elements(nodes) && Distinct(Unopened(nodes, dumps))
  {
    if nodes != [] {
      var n := |nodes| - 1;
      Snoc(nodes);
      UnopenedAre(nodes[..n], dumps[..n]);
      Append(Unopened(nodes[..n], dumps[..n]), nodes[n]);
    }
  }

  /** The dumps are honest replies; on a quiet network all came but the silent ones. */
  ghost predicate DumpsOf<V(!new)>(nodes: seq<Path>, dumps: seq<Option<Body<V>>>, honest: Answers<V>, quiet: bool,
                                   faults: ReadFaults)
    requires |nodes| == |dumps|
  {
    nodes == [] ||
    var n := |nodes| - 1;
    && (dumps[n].Some? ==> honest(Request(nodes[n], Dump), dumps[n].value))
    && (quiet && !faults.Silent(Request(nodes[n], Dump)) ==> dumps[n].Some?)
    && DumpsOf(nodes[..n], dumps[..n], honest, quiet, faults)
  }

  lemma NextDump<V(!new)>(nodes: seq<Path>, i: nat, dumps: seq<Option<Body<V>>>,
                                             dump: Option<Body<V>>, honest: Answers<V>, quiet: bool, faults: ReadFaults)
    requires i < |nodes| && |dumps| == i && DumpsOf(nodes[..i], dumps, honest, quiet, faults)
    requires dump.Some? ==> honest(Request(nodes[i], Dump), dump.value)
    requires quiet && !faults.Silent(Request(nodes[i], Dump)) ==> dump.Some?
    ensures DumpsOf(nodes[..i + 1], dumps + [dump], honest, quiet, faults)
    ensures Unopened(nodes[..i + 1], dumps + [dump]) ==
            Unopened(nodes[..i], dumps) + if Usable(dump) then [] else [nodes[i]]
  {
    assert nodes[..i + 1][..i] == nodes[..i] && (dumps + [dump])[..i] == dumps;
    assert Unopened(nodes[..i], dumps) + [] == Unopened(nodes[..i], dumps);
  }

  /** The node's dump is lost for good, or may come in a text that does not parse. */
  ghost predicate NoDump<V(!new)>(honest: Answers<V>, faults: ReadFaults, u: Path) {
    faults.Silent(Request(u, Dump)) || exists b :: honest(Request(u, Dump), b) && !Usable(Some(b))
  }

  lemma {:induction false} UnopenedHaveNone<V(!new)>(nodes: seq<Path>, dumps: seq<Option<Body<V>>>, honest: Answers<V>,
                                                     faults: ReadFaults)
    requires |nodes| == |dumps| && DumpsOf(nodes, dumps, honest, true, faults)
    ensures forall u :: u in Elements(Unopened(nodes, dumps)) ==> NoDump(honest, faults, u)
  {
    if nodes != [] {
      var n := |nodes| - 1;
      UnopenedHaveNone(nodes[..n], dumps[..n], honest, faults);
      Append(Unopened(nodes[..n], dumps[..n]), nodes[n]);
      if !Usable(dumps[n]) && dumps[n].Some? {
        assert honest(Request(nodes[n], Dump), dumps[n].value) && !Usable(Some(dumps[n].value));
      }
    }
  }

  /** `_recover_by_dump`: the nodes whose dump did not help either, which are exactly those without one that
      parses. `dumps` are the replies that came. */
  method RecoverByDump<V(!new)>(connection: Connection<V>, nodes: seq<Path>, leaves: SharedMap<Path, string>,
                                ghost console: Tree<V>, ghost silent: set<Path>, ghost faults: ReadFaults)
    returns (unrecovered: seq<Path>, ghost dumps: seq<Option<Body<V>>>,
             ghost batches: seq<Batch<Path, Query, Body<V>>>)
    requires connection.Trustworthy() && connection.Clean() && Honest(console, connection.honest)
    requires Distinct(nodes) && Elements(nodes) !! silent
             && Split(console, leaves.entries.Keys, Elements(nodes) + silent)
    modifies connection, leaves
    ensures DumpsRan(connection.net, nodes, batches, dumps) && Untyped(old(leaves.entries), leaves.entries)
    ensures connection.Clean()
    ensures Split(console, leaves.entries.Keys, Elements(unrecovered) + silent)
    ensures |dumps| == |nodes| && DumpsOf(nodes, dumps, connection.honest, old(Quiet(connection, faults)), faults)
    ensures unrecovered == Unopened(nodes, dumps)
  {
    hide Split, Poisoned, Outstanding, Deliverable, DumpAt, Usable;
    unrecovered, dumps, batches := [], [], [];
    ghost var before := leaves.entries;
    ghost var quiet := Quiet(connection, faults);
    ghost var open := Elements(nodes) + silent;
    for i := 0 to |nodes|
      invariant DumpsRan(connection.net, nodes[..i], batches, dumps) && Untyped(before, leaves.entries)
      invariant connection.Clean()
      invariant |dumps| == i && unrecovered == Unopened(nodes[..i], dumps)
      invariant DumpsOf(nodes[..i], dumps, connection.honest, quiet, faults)
      invariant open == Elements(unrecovered) + Elements(nodes[i..]) + silent
                && Split(console, leaves.entries.Keys, open)
      invariant quiet ==> Quiet(connection, faults)
    {
      DistinctPrefix(nodes, i);
      UnopenedAre(nodes[..i], dumps);
      OneFewer(nodes, i, unrecovered, silent);
      var ok;
      ghost var dump, batch;
      ghost var earlier := leaves.entries;
      ok, dump, batch := DumpOne(connection, nodes[i], leaves, console, open, faults);
      UntypedTwice(before, earlier, leaves.entries);
      DumpAdded(connection.net, nodes, i, batches, dumps, batch, dump);
      NextDump(nodes, i, dumps, dump, connection.honest, quiet, faults);
      dumps, batches := dumps + [dump], batches + [batch];
      if !ok {
        unrecovered := unrecovered + [nodes[i]];
      } else {
        open := open - {nodes[i]};
      }
    }
    assert nodes[|nodes|..] == [] && nodes[..|nodes|] == nodes;
    assert Elements(unrecovered) + {} + silent == Elements(unrecovered) + silent;
  }

  lemma DistinctPrefix<T>(xs: seq<T>, i: nat)
    requires Distinct(xs) && i <= |xs|
    ensures Distinct(xs[..i])
  {
    DistinctConcat(xs[..i], xs[i..]);
    assert xs == xs[..i] + xs[i..];
  }

  lemma OneFewer(nodes: seq<Path>, i: nat, unrecovered: seq<Path>, silent: set<Path>)
    requires i < |nodes| && Distinct(nodes) && Elements(nodes) !! silent
    requires Elements(unrecovered) <= Elements(nodes[..i])
    ensures var u, open := nodes[i], Elements(unrecovered) + Elements(nodes[i..]) + silent;
      && u in open
      && open - {u} == Elements(unrecovered) + Elements(nodes[i + 1..]) + silent
      && open == Elements(unrecovered + [u]) + Elements(nodes[i + 1..]) + silent
  {
    var u := nodes[i];
    assert nodes[i..][0] == u && nodes[i..][1..] == nodes[i + 1..];
    assert nodes == nodes[..i] + nodes[i..];
    Append(unrecovered, u);
    DistinctConcat(nodes[..i], nodes[i..]);
    ElementsConcat(nodes[..i], nodes[i..]);
  }

  /** A whole walk: its levels, then the dumps of the nodes that these left unanswered. */
  datatype WalkRun<V> = WalkRun(levels: seq<LevelRun<V>>, batches: seq<Batch<Path, Query, Body<V>>>,
                                dumps: seq<Option<Body<V>>>)

  /** Level after level until no reply names a further node; then each unanswered node's dump. The leaves keep the types
      of their schemas, those known from a dump alone have none. */
  ghost predicate WalkRan<V(!new)>(net: Network<Path, Query, Body<V>>, batchSize: int, retryRounds: int,
                                   walk: WalkRun<V>, result: SchemaResult) {
    && LevelsRan(net, batchSize, retryRounds, walk.levels) && FrontierAt(walk.levels, |walk.levels|) == []
    && DumpsRan(net, AllUnanswered(walk.levels), walk.batches, walk.dumps)
    && result.unresolvedNodes == Unopened(AllUnanswered(walk.levels), walk.dumps)
    && Untyped(AllKinds(walk.levels), result.leaves)
  }

  /** `walk_schema`: each leaf under the seeded roots is among the leaves, or beneath an address reported as
      unresolved, or beneath a node whose reply told nothing, and in one of these alone. With well-formed replies
      there is no node of the last kind. On a network that loses nothing but by the given faults a node stays
      unresolved only for want of a dump, whatever was poison and wherever a batch gave up; and where no schema
      request is poison, only if its schema is absent too. */
  method WalkSchema<V(!new)>(connection: Connection<V>, batchSize: int, retryRounds: int, ghost console: Tree<V>,
                             ghost faults: ReadFaults)
    returns (result: SchemaResult, ghost silent: set<Path>, ghost walk: WalkRun<V>)
    requires connection.Trustworthy() && connection.Clean() && Honest(console, connection.honest)
    modifies connection
    ensures WalkRan(connection.net, batchSize, retryRounds, walk, result)
    ensures connection.Clean()
    ensures Split(console, result.leaves.Keys, Elements(result.unresolvedNodes) + silent)
    ensures Distinct(result.unresolvedNodes)
    ensures ToldNothing(connection.honest, silent) && (WellFormed(connection.honest) ==> silent == {})
    ensures old(Quiet(connection, faults)) ==>
      forall u :: u in Elements(result.unresolvedNodes) ==> NoDump(connection.honest, faults, u)
    ensures old(Quiet(connection, faults)) && retryRounds >= 0 && faults.Poison(Children) == iset{} ==>
      Excused(Elements(result.unresolvedNodes), Children, faults)
  {
    ghost var quiet := Quiet(connection, faults);
    var leaves := new SharedMap<Path, string>();
    var unresolved;
    ghost var levels;
    unresolved, silent, levels := WalkLevels(connection, batchSize, retryRounds, leaves, console, faults);
    assert Elements(unresolved) + silent + {} == Elements(unresolved) + silent && Elements<Path>([]) == {};
    var missing;
    ghost var dumps, batches;
    missing, dumps, batches := RecoverByDump(connection, unresolved, leaves, console, silent, faults);
    UnopenedAre(unresolved, dumps);
    if WellFormed(connection.honest) { NoneToldNothing(connection.honest, silent); }
    if quiet { UnopenedHaveNone(unresolved, dumps, connection.honest, faults); }
    result := SchemaResult(leaves.entries, missing);
    walk := WalkRun(levels, batches, dumps);
  }
}
