/** Nested dictionaries as the program holds them: objects that refer to each other and are updated in
    place, possibly through a reference kept elsewhere. */
module Dicts {
  import opened Results
  import opened Trees

  // ----- the heap as a value

  datatype Cell<V> = Val(value: V) | Ref(index: nat)

  /** One dictionary; `loc` is the path of keys it was created under. */
  datatype Dict<V> = Dict(loc: Path, slots: map<string, Cell<V>>)

  /** The dictionaries in order of creation, the root first. */
  type Store<V> = seq<Dict<V>>

  ghost predicate CellFits<V>(s: Store<V>, r: nat, k: string)
    requires r < |s| && k in s[r].slots
  {
    s[r].slots[k].Val? || (r < s[r].slots[k].index < |s| && s[s[r].slots[k].index].loc == s[r].loc + [k])
  }

  /** A dictionary refers only to younger ones, each created under the key that refers to it. */
  ghost predicate Sound<V>(s: Store<V>) {
    s != [] && s[0].loc == [] && RowsFit(s, |s|)
  }

  ghost predicate RowsFit<V>(s: Store<V>, n: nat)
    requires n <= |s|
  {
    n == 0 || (RowsFit(s, n - 1) && RowFits(s, n - 1))
  }

  ghost predicate RowFits<V>(s: Store<V>, r: nat)
    requires r < |s|
  {
    forall k :: k in s[r].slots ==> CellFits(s, r, k)
  }

  lemma {:induction false} RowOf<V>(s: Store<V>, n: nat, r: nat)
    requires r < n <= |s| && RowsFit(s, n)
    ensures RowFits(s, r)
  {
    if r < n - 1 {
      RowOf(s, n - 1, r);
    }
  }

  lemma Fits<V>(s: Store<V>, r: nat, k: string)
    requires Sound(s) && r < |s| && k in s[r].slots
    ensures CellFits(s, r, k)
  {
    RowOf(s, |s|, r);
  }

  lemma {:induction false} AllFit<V>(s: Store<V>, n: nat)
    requires n <= |s| && forall r :: 0 <= r < n ==> RowFits(s, r)
    ensures RowsFit(s, n)
  {
    if n > 0 {
      AllFit(s, n - 1);
    }
  }

  /** The nested value that the dictionary `r` stands for. */
  ghost function TreeAt<V>(s: Store<V>, r: nat): (t: Tree<V>)
    requires Sound(s) && r < |s|
    ensures t.Dir? && t.kids.Keys == s[r].slots.Keys
    decreases |s| - r
  {
    Dir(map k | k in s[r].slots :: Fits(s, r, k); CellTree(s, r, s[r].slots[k]))
  }

  ghost function CellTree<V>(s: Store<V>, r: nat, c: Cell<V>): Tree<V>
    requires Sound(s) && r < |s| && (c.Ref? ==> r < c.index < |s|)
    decreases |s| - r, 0
  {
    match c
    case Val(v) => Leaf(v)
    case Ref(i) => TreeAt(s, i)
  }

  lemma KidTree<V>(s: Store<V>, r: nat, k: string)
    requires Sound(s) && r < |s| && k in s[r].slots
    ensures s[r].slots[k].Val? ==> TreeAt(s, r).kids[k] == Leaf(s[r].slots[k].value)
    ensures s[r].slots[k].Ref? ==>
      var i := s[r].slots[k].index;
      r < i < |s| && TreeAt(s, r).kids[k] == TreeAt(s, i)
  {
    Fits(s, r, k);
  }

  /** `s'` differs from `s` in the slots of `r`, and by dictionaries added at the end. */
  ghost predicate OnlyAt<V>(s: Store<V>, s': Store<V>, r: nat) {
    && r < |s| <= |s'|
    && s'[r].loc == s[r].loc
    && forall i :: 0 <= i < |s| && i != r ==> s'[i] == s[i]
  }

  /** A dictionary that is not above `r` does not see the change. */
  lemma {:induction false} Unseen<V>(s: Store<V>, s': Store<V>, r: nat, c: nat)
    requires Sound(s) && Sound(s') && OnlyAt(s, s', r)
    requires c < |s| && !(s[c].loc <= s[r].loc)
    ensures TreeAt(s', c) == TreeAt(s, c)
    decreases |s| - c
  {
    assert s'[c] == s[c];
    forall k | k in s[c].slots
      ensures TreeAt(s', c).kids[k] == TreeAt(s, c).kids[k]
    {
      Fits(s, c, k);
      if s[c].slots[k].Ref? {
        var d := s[c].slots[k].index;
        assert s[c].loc <= s[d].loc;
        Unseen(s, s', r, d);
      }
    }
    assert TreeAt(s', c).kids == TreeAt(s, c).kids;
  }

  // ----- a chain from one dictionary to another

  /** Each entry of the stack is a current child of the one below it. */
  ghost predicate Chain<V>(s: Store<V>, stack: seq<nat>)
    requires Sound(s)
  {
    && stack != [] && stack[0] < |s|
    && (|stack| > 1 ==> LinkOf(s, stack[0], stack[1]).Some? && Chain(s, stack[1..]))
  }

  /** The key under which `p` refers to `c`: it is the last key of the path of `c`. */
  ghost function LinkOf<V>(s: Store<V>, p: nat, c: nat): (k: Option<string>)
    requires Sound(s) && p < |s|
    ensures k.Some? ==> k.value in s[p].slots && s[p].slots[k.value] == Ref(c)
    ensures k.Some? ==> p < c < |s| && s[c].loc == s[p].loc + [k.value]
  {
    if c < |s| && s[c].loc != [] then
      var k := s[c].loc[|s[c].loc| - 1];
      if k in s[p].slots && s[p].slots[k] == Ref(c) then
        Fits(s, p, k);
        Some(k)
      else None
    else None
  }

  /** The keys along a chain. */
  ghost function Names<V>(s: Store<V>, stack: seq<nat>): Path
    requires Sound(s) && Chain(s, stack)
    decreases |stack|
  {
    if |stack| == 1 then [] else [LinkOf(s, stack[0], stack[1]).value] + Names(s, stack[1..])
  }

  function Top(stack: seq<nat>): nat
    requires stack != []
  {
    stack[|stack| - 1]
  }

  lemma {:induction false} ChainLoc<V>(s: Store<V>, stack: seq<nat>)
    requires Sound(s) && Chain(s, stack)
    ensures Top(stack) < |s| && s[Top(stack)].loc == s[stack[0]].loc + Names(s, stack)
    ensures |Names(s, stack)| == |stack| - 1
    decreases |stack|
  {
    if |stack| > 1 {
      ChainLoc(s, stack[1..]);
    }
  }

  /** A chain is the path to its top. */
  lemma {:induction false} ChainAt<V>(s: Store<V>, stack: seq<nat>)
    requires Sound(s) && Chain(s, stack)
    ensures Top(stack) < |s| && At(TreeAt(s, stack[0]), Names(s, stack)) == Some(TreeAt(s, Top(stack)))
    decreases |stack|
  {
    if |stack| > 1 {
      ChainAt(s, stack[1..]);
      var k := LinkOf(s, stack[0], stack[1]).value;
      assert TreeAt(s, stack[0]).kids[k] == TreeAt(s, stack[1]);
      assert Names(s, stack)[1..] == Names(s, stack[1..]);
    }
  }

  /** A change at the top of a chain changes the tree at its bottom exactly along the chain. */
  lemma {:induction false} ChangeAtTop<V>(s: Store<V>, s': Store<V>, stack: seq<nat>)
    requires Sound(s) && Sound(s') && Chain(s, stack) && OnlyAt(s, s', Top(stack))
    ensures At(TreeAt(s, stack[0]), Names(s, stack)).Some?
    ensures TreeAt(s', stack[0]) == Graft(TreeAt(s, stack[0]), Names(s, stack), TreeAt(s', Top(stack)))
    decreases |stack|
  {
    ChainAt(s, stack);
    if |stack| > 1 {
      var bottom, next, rest := stack[0], stack[1], stack[1..];
      var k := LinkOf(s, bottom, next).value;
      ChangeAtTop(s, s', rest);
      ChainLoc(s, rest);
      assert Names(s, stack)[1..] == Names(s, rest);
      var before, after := TreeAt(s, bottom), TreeAt(s', bottom);
      NotTop(s, stack);
      assert s'[bottom] == s[bottom];
      forall j | j in before.kids && j != k
        ensures after.kids[j] == before.kids[j]
      {
        Aside(s, s', bottom, next, Top(stack), j);
      }
      Fits(s', bottom, k);
      assert after.kids[k] == CellTree(s', bottom, s'[bottom].slots[k]);
      OneChange(before.kids, after.kids, k, TreeAt(s', next));
    }
  }

  lemma OneChange<V>(m: map<string, V>, m': map<string, V>, k: string, v: V)
    requires m'.Keys == m.Keys + {k} && m'[k] == v
    requires forall j :: j in m && j != k ==> m'[j] == m[j]
    ensures m' == m[k := v]
  {
  }

  lemma NotTop<V>(s: Store<V>, stack: seq<nat>)
    requires Sound(s) && Chain(s, stack) && |stack| > 1
    ensures stack[0] != Top(stack)
  {
    ChainLoc(s, stack);
  }

  /** What hangs off the chain does not see a change at its top. */
  lemma Aside<V>(s: Store<V>, s': Store<V>, bottom: nat, next: nat, top: nat, j: string)
    requires Sound(s) && Sound(s') && OnlyAt(s, s', top) && bottom < |s| && bottom != top
    requires LinkOf(s, bottom, next).Some? && s[next].loc <= s[top].loc
    requires j in s[bottom].slots && j != LinkOf(s, bottom, next).value
    ensures TreeAt(s', bottom).kids[j] == TreeAt(s, bottom).kids[j]
  {
    Fits(s, bottom, j);
    if s[bottom].slots[j].Ref? {
      var d, n := s[bottom].slots[j].index, |s[bottom].loc|;
      assert s[d].loc[n] == j && s[next].loc[n] != j;
      assert s[top].loc[n] == s[next].loc[n];
      Unseen(s, s', top, d);
    }
  }

  /** The chain outlives a change of its top that keeps the paths. */
  lemma {:induction false} ChainStays<V>(s: Store<V>, s': Store<V>, stack: seq<nat>)
    requires Sound(s) && Sound(s') && Chain(s, stack) && OnlyAt(s, s', Top(stack))
    ensures Chain(s', stack) && Names(s', stack) == Names(s, stack)
    decreases |stack|
  {
    if |stack| > 1 {
      NotTop(s, stack);
      ChainStays(s, s', stack[1..]);
      var link := LinkOf(s, stack[0], stack[1]);
      assert s'[stack[1]].loc == s[stack[1]].loc;
      assert LinkOf(s', stack[0], stack[1]) == link;
    }
  }

  /** A child of the top may be stacked on it. */
  lemma {:induction false} ChainGrows<V>(s: Store<V>, stack: seq<nat>, c: nat)
    requires Sound(s) && Chain(s, stack) && Top(stack) < |s| && LinkOf(s, Top(stack), c).Some?
    ensures Chain(s, stack + [c]) && Names(s, stack + [c]) == Names(s, stack) + [LinkOf(s, Top(stack), c).value]
    decreases |stack|
  {
    var more := stack + [c];
    if |stack| == 1 {
      assert more[1..] == [c] && Chain(s, [c]);
      assert Names(s, [c]) == [];
    } else {
      assert more[1..] == stack[1..] + [c];
      ChainGrows(s, stack[1..], c);
    }
  }

  /** Popping leaves a chain. */
  lemma {:induction false} ChainPops<V>(s: Store<V>, stack: seq<nat>, n: nat)
    requires Sound(s) && Chain(s, stack) && 1 <= n <= |stack|
    ensures Chain(s, stack[..n]) && |Names(s, stack)| == |stack| - 1
    ensures Names(s, stack[..n]) == Names(s, stack)[..n - 1]
    decreases |stack|
  {
    ChainLoc(s, stack);
    if n > 1 {
      ChainPops(s, stack[1..], n - 1);
      assert stack[..n][1..] == stack[1..][..n - 1];
    }
  }

  // ----- the two primitive updates

  ghost function Assigned<V>(s: Store<V>, r: nat, k: string, v: V): (s': Store<V>)
    requires Sound(s) && r < |s|
    ensures Sound(s') && OnlyAt(s, s', r)
  {
    var s' := s[r := Dict(s[r].loc, s[r].slots[k := Val(v)])];
    AssignedFits(s, s', r, k);
    s'
  }

  lemma AssignedFits<V>(s: Store<V>, s': Store<V>, r: nat, k: string)
    requires Sound(s) && r < |s| == |s'| && s'[r].loc == s[r].loc
    requires k in s'[r].slots && s'[r].slots[k].Val?
    requires forall j :: j in s'[r].slots && j != k ==> j in s[r].slots && s'[r].slots[j] == s[r].slots[j]
    requires forall i :: 0 <= i < |s| && i != r ==> s'[i] == s[i]
    ensures Sound(s')
  {
    forall i | 0 <= i < |s'|
      ensures RowFits(s', i)
    {
      forall j | j in s'[i].slots
        ensures CellFits(s', i, j)
      {
        if !(i == r && j == k) {
          Fits(s, i, j);
        }
      }
    }
    AllFit(s', |s'|);
  }

  ghost function Made<V>(s: Store<V>, r: nat, k: string): (s': Store<V>)
    requires Sound(s) && r < |s| && k !in s[r].slots
    ensures Sound(s') && OnlyAt(s, s', r) && LinkOf(s', r, |s|) == Some(k)
  {
    var s' := s[r := Dict(s[r].loc, s[r].slots[k := Ref(|s|)])] + [Dict(s[r].loc + [k], map[])];
    MadeFits(s, s', r, k);
    s'
  }

  ghost function AfterDefault<V>(s: Store<V>, r: nat, k: string): (s': Store<V>)
    requires Sound(s) && r < |s|
    ensures Sound(s') && OnlyAt(s, s', r) && k in s'[r].slots
  {
    if k in s[r].slots then s else Made(s, r, k)
  }

  lemma MadeFits<V>(s: Store<V>, s': Store<V>, r: nat, k: string)
    requires Sound(s) && r < |s| && k !in s[r].slots && |s'| == |s| + 1
    requires s'[r] == Dict(s[r].loc, s[r].slots[k := Ref(|s|)]) && s'[|s|] == Dict(s[r].loc + [k], map[])
    requires forall i :: 0 <= i < |s| && i != r ==> s'[i] == s[i]
    ensures Sound(s') && LinkOf(s', r, |s|) == Some(k)
  {
    forall i | 0 <= i < |s'|
      ensures RowFits(s', i)
    {
      forall j | j in s'[i].slots
        ensures CellFits(s', i, j)
      {
        if !(i == r && j == k) {
          Fits(s, i, j);
        }
      }
    }
    AllFit(s', |s'|);
  }

  lemma MadeGraft<V>(s: Store<V>, stack: seq<nat>, k: string)
    requires Sound(s) && Chain(s, stack) && Top(stack) < |s| && k !in s[Top(stack)].slots
    ensures var s' := Made(s, Top(stack), k);
      && Chain(s', stack) && Names(s', stack) == Names(s, stack)
      && Chain(s', stack + [|s|]) && Names(s', stack + [|s|]) == Names(s, stack) + [k]
      && HasDir(TreeAt(s, stack[0]), Names(s, stack))
      && At(TreeAt(s, stack[0]), Names(s, stack)).value == TreeAt(s, Top(stack))
      && TreeAt(s', stack[0]) ==
          Graft(TreeAt(s, stack[0]), Names(s, stack), Dir(TreeAt(s, Top(stack)).kids[k := Empty()]))
  {
    var s' := Made(s, Top(stack), k);
    ChainAt(s, stack);
    ChangeAtTop(s, s', stack);
    ChainStays(s, s', stack);
    ChainGrows(s', stack, |s|);
    MadeHere(s, Top(stack), k);
  }

  lemma IsMade<V>(s: Store<V>, s': Store<V>, r: nat, k: string)
    requires Sound(s) && r < |s| && k !in s[r].slots && |s'| == |s| + 1
    requires s'[r] == Dict(s[r].loc, s[r].slots[k := Ref(|s|)]) && s'[|s|] == Dict(s[r].loc + [k], map[])
    requires forall i :: 0 <= i < |s| && i != r ==> s'[i] == s[i]
    ensures s' == Made(s, r, k)
  {
  }

  lemma AssignedTree<V>(s: Store<V>, stack: seq<nat>, k: string, v: V)
    requires Sound(s) && Chain(s, stack) && Top(stack) < |s|
    ensures var s' := Assigned(s, Top(stack), k, v);
      && Chain(s', stack) && Names(s', stack) == Names(s, stack)
      && Put(TreeAt(s, stack[0]), Names(s, stack) + [k], v) == Some(TreeAt(s', stack[0]))
  {
    var r := Top(stack);
    var s' := Assigned(s, r, k, v);
    ChainAt(s, stack);
    ChangeAtTop(s, s', stack);
    ChainStays(s, s', stack);
    AssignedHere(s, r, k, v);
    PutHere(TreeAt(s, stack[0]), Names(s, stack), k, v);
  }

  lemma AssignedHere<V>(s: Store<V>, r: nat, k: string, v: V)
    requires Sound(s) && r < |s|
    ensures TreeAt(Assigned(s, r, k, v), r) == Dir(TreeAt(s, r).kids[k := Leaf(v)])
  {
    var s' := Assigned(s, r, k, v);
    KidsKept(s, s', r, k);
    OneChange(TreeAt(s, r).kids, TreeAt(s', r).kids, k, Leaf(v));
  }

  /** A change of one slot keeps what the other slots stand for. */
  lemma KidsKept<V>(s: Store<V>, s': Store<V>, r: nat, k: string)
    requires Sound(s) && Sound(s') && OnlyAt(s, s', r)
    requires s'[r].slots.Keys == s[r].slots.Keys + {k}
    requires forall j :: j in s[r].slots && j != k ==> s'[r].slots[j] == s[r].slots[j]
    ensures TreeAt(s', r).kids.Keys == TreeAt(s, r).kids.Keys + {k}
    ensures forall j :: j in TreeAt(s, r).kids && j != k ==> TreeAt(s', r).kids[j] == TreeAt(s, r).kids[j]
  {
    forall j | j in s[r].slots && j != k
      ensures TreeAt(s', r).kids[j] == TreeAt(s, r).kids[j]
    {
      Fits(s, r, j);
      if s[r].slots[j].Ref? {
        Unseen(s, s', r, s[r].slots[j].index);
      }
    }
  }

  lemma MadeTree<V>(s: Store<V>, stack: seq<nat>, k: string, rest: Path, v: V)
    requires Sound(s) && Chain(s, stack) && Top(stack) < |s| && k !in s[Top(stack)].slots && rest != []
    ensures var s' := Made(s, Top(stack), k);
      && Chain(s', stack + [|s|]) && Names(s', stack + [|s|]) == Names(s, stack) + [k]
      && Put(TreeAt(s', stack[0]), Names(s, stack) + ([k] + rest), v) ==
         Put(TreeAt(s, stack[0]), Names(s, stack) + ([k] + rest), v)
  {
    var s' := Made(s, Top(stack), k);
    ChainAt(s, stack);
    ChangeAtTop(s, s', stack);
    ChainStays(s, s', stack);
    ChainGrows(s', stack, |s|);
    MadeHere(s, Top(stack), k);
    PutAfterMake(TreeAt(s, stack[0]), Names(s, stack), k, rest, v);
  }

  lemma NewIsEmpty<V>(s: Store<V>, r: nat)
    requires Sound(s) && r < |s| && s[r].slots == map[]
    ensures TreeAt(s, r) == Empty<V>()
  {
    assert TreeAt(s, r).kids.Keys == {};
  }

  lemma MadeHere<V>(s: Store<V>, r: nat, k: string)
    requires Sound(s) && r < |s| && k !in s[r].slots
    ensures TreeAt(Made(s, r, k), r) == Dir(TreeAt(s, r).kids[k := Empty()])
  {
    var s' := Made(s, r, k);
    KidsKept(s, s', r, k);
    Fits(s', r, k);
    NewIsEmpty(s', |s|);
    OneChange(TreeAt(s, r).kids, TreeAt(s', r).kids, k, Empty());
  }

  /** Descending into a directory that is there. */
  lemma EnteredTree<V>(s: Store<V>, stack: seq<nat>, k: string)
    requires Sound(s) && Chain(s, stack) && Top(stack) < |s|
    requires k in s[Top(stack)].slots && s[Top(stack)].slots[k].Ref?
    ensures var c := s[Top(stack)].slots[k].index;
      Chain(s, stack + [c]) && Names(s, stack + [c]) == Names(s, stack) + [k]
  {
    Fits(s, Top(stack), k);
    ChainGrows(s, stack, s[Top(stack)].slots[k].index);
  }

  lemma BlockedTree<V>(s: Store<V>, stack: seq<nat>, k: string, rest: Path, v: V)
    requires Sound(s) && Chain(s, stack) && Top(stack) < |s| && rest != []
    requires AfterDefault(s, Top(stack), k)[Top(stack)].slots[k].Val?
    ensures Put(TreeAt(s, stack[0]), Names(s, stack) + ([k] + rest), v).None?
  {
    ChainAt(s, stack);
    PutBlocked(TreeAt(s, stack[0]), Names(s, stack), k, rest, v);
  }

  // ----- the objects

  datatype Slot<V> = Held(value: V) | Nested(dict: DictNode<V>)

  class DictNode<V> {
    ghost const id: nat
    ghost const loc: Path
    var slots: map<string, Slot<V>>

    constructor (ghost id: nat, ghost loc: Path)
      ensures this.id == id && this.loc == loc && slots == map[]
    {
      this.id, this.loc := id, loc;
      slots := map[];
    }
  }

  ghost function CellOf<V>(slot: Slot<V>): Cell<V> {
    match slot
    case Held(v) => Val(v)
    case Nested(d) => Ref(d.id)
  }

  ghost function DictOf<V>(node: DictNode<V>): Dict<V>
    reads node
  {
    Dict(node.loc, map k | k in node.slots :: CellOf(node.slots[k]))
  }

  /** What the dictionaries of `world` hold, as a value. */
  ghost function Image<V>(world: seq<DictNode<V>>): (s: Store<V>)
    reads world
    ensures |s| == |world| && forall i :: 0 <= i < |s| ==> s[i] == DictOf(world[i])
  {
    if world == [] then [] else Image(world[..|world| - 1]) + [DictOf(world[|world| - 1])]
  }

  ghost predicate Knows<V>(world: seq<DictNode<V>>, node: DictNode<V>) {
    node.id < |world| && world[node.id] == node
  }

  /** The dictionaries of the world, as a footprint. */
  ghost function Members<V>(world: seq<DictNode<V>>): set<DictNode<V>> {
    if world == [] then {} else Members(world[..|world| - 1]) + {world[|world| - 1]}
  }

  lemma {:induction false} MemberAt<V>(world: seq<DictNode<V>>, i: nat)
    requires i < |world|
    ensures world[i] in Members(world)
  {
    if i < |world| - 1 {
      MemberAt(world[..|world| - 1], i);
    }
  }

  lemma {:induction false} MembersAre<V>(world: seq<DictNode<V>>)
    ensures forall d :: d in world <==> d in Members(world)
  {
    if world != [] {
      MembersAre(world[..|world| - 1]);
      assert world == world[..|world| - 1] + [world[|world| - 1]];
    }
  }

  lemma OneMoreMember<V>(world: seq<DictNode<V>>, made: DictNode<V>)
    ensures Members(world + [made]) == Members(world) + {made}
    ensures world != [] ==> Grown(world, world + [made])
  {
    assert (world + [made])[..|world|] == world;
  }

  /** The same root, and no dictionary lost. */
  ghost predicate Grown<V>(world: seq<DictNode<V>>, world': seq<DictNode<V>>) {
    world != [] && world' != [] && world'[0] == world[0] && Members(world) <= Members(world')
  }

  ghost predicate Closed<V>(world: seq<DictNode<V>>, slots: map<string, Slot<V>>) {
    forall k :: k in slots && slots[k].Nested? ==> Knows(world, slots[k].dict)
  }

  lemma StaysClosed<V>(world: seq<DictNode<V>>, slots: map<string, Slot<V>>, made: DictNode<V>)
    requires Closed(world, slots)
    ensures Closed(world + [made], slots)
  {
  }

  ghost predicate Valid<V>(world: seq<DictNode<V>>)
    reads world
  {
    Wired(world, |world|) && Sound(Image(world))
  }

  /** The first `n` dictionaries are numbered in order and refer only into the world. */
  ghost predicate Wired<V>(world: seq<DictNode<V>>, n: nat)
    requires n <= |world|
    reads world
  {
    n == 0 || (world[n - 1].id == n - 1 && Closed(world, world[n - 1].slots) && Wired(world, n - 1))
  }

  lemma {:induction false} WiredIs<V>(world: seq<DictNode<V>>, n: nat)
    requires n <= |world|
    ensures Wired(world, n) <==> forall i :: 0 <= i < n ==> world[i].id == i && Closed(world, world[i].slots)
  {
    if n > 0 {
      WiredIs(world, n - 1);
    }
  }

  /** The nested value the root dictionary stands for. */
  ghost function Value<V>(world: seq<DictNode<V>>): Tree<V>
    requires Valid(world)
    reads world
  {
    TreeAt(Image(world), 0)
  }

  /** Dictionaries that were not written stand for what they stood for. */
  twostate lemma Untouched<V>(world: seq<DictNode<V>>)
    requires old(Valid(world)) && forall d :: d in world ==> unchanged(d)
    requires old(forall i :: 0 <= i < |world| ==> world[i].id == i && Closed(world, world[i].slots))
    ensures Valid(world) && Value(world) == old(Value(world))
  {
    assert forall i :: 0 <= i < |world| ==> world[i] in world;
    WiredIs(world, |world|);
    assert Image(world) == old(Image(world));
  }

  method NewDict<V>() returns (root: DictNode<V>, ghost world: seq<DictNode<V>>)
    ensures fresh(root) && world == [root]
    ensures Valid(world) && Value(world) == Empty<V>()
  {
    root := new DictNode(0, []);
    world := [root];
    JustMade(root);
  }

  lemma JustMade<V>(root: DictNode<V>)
    requires root.id == 0 && root.loc == [] && root.slots == map[]
    ensures Valid([root]) && Value([root]) == Empty<V>()
  {
    var world := [root];
    WiredIs(world, 1);
    assert DictOf(root).slots == map[];
    assert Image(world) == [Dict([], map[])];
    AllFit(Image(world), 1);
    NewIsEmpty(Image(world), 0);
  }

  lemma OneMember<V>(root: DictNode<V>)
    ensures Members([root]) == {root}
  {
    assert [root][..0] == [];
  }

  method Insert<V>(node: DictNode<V>, key: string, ghost world: seq<DictNode<V>>)
    returns (child: Slot<V>, ghost world': seq<DictNode<V>>)
    requires Valid(world) && Knows(world, node) && key !in node.slots
    modifies node
    ensures child.Nested? && fresh(child.dict) && child.dict.slots == map[] && world' == world + [child.dict]
    ensures Image(world') == Made(old(Image(world)), node.id, key)
    ensures Valid(world') && Knows(world', child.dict)
  {
    ghost var before, slots := Image(world), node.slots;
    WiredIs(world, |world|);
    var made := new DictNode<V>(|world|, node.loc + [key]);
    node.slots := node.slots[key := Nested(made)];
    child := Nested(made);
    world' := world + [made];
    assert forall i :: 0 <= i < |world| && i != node.id ==>
          world[i] != node && world[i].id == i && DictOf(world[i]) == before[i];
    Attached(world, before, node, slots, key, made);
  }

  lemma Attached<V>(world: seq<DictNode<V>>, before: Store<V>, node: DictNode<V>, slots: map<string, Slot<V>>,
                    key: string, made: DictNode<V>)
    requires Knows(world, node) && |before| == |world| == made.id && Sound(before)
    requires forall i :: 0 <= i < |world| ==> world[i].id == i
    requires forall i :: 0 <= i < |world| && i != node.id ==> DictOf(world[i]) == before[i]
    requires forall i :: 0 <= i < |world| && i != node.id ==> Closed(world, world[i].slots)
    requires Closed(world, slots) && key !in slots && node.slots == slots[key := Nested(made)]
    requires before[node.id] == Dict(node.loc, map k | k in slots :: CellOf(slots[k]))
    requires made.loc == node.loc + [key] && made.slots == map[]
    ensures Valid(world + [made]) && Image(world + [made]) == Made(before, node.id, key)
  {
    ImageAttached(world, before, node, slots, key, made);
    WiredAttached(world, node, slots, key, made);
  }

  lemma ImageAttached<V>(world: seq<DictNode<V>>, before: Store<V>, node: DictNode<V>, slots: map<string, Slot<V>>,
                         key: string, made: DictNode<V>)
    requires Knows(world, node) && |before| == |world| == made.id && Sound(before)
    requires forall i :: 0 <= i < |world| && i != node.id ==> DictOf(world[i]) == before[i]
    requires key !in slots && node.slots == slots[key := Nested(made)]
    requires before[node.id] == Dict(node.loc, map k | k in slots :: CellOf(slots[k]))
    requires made.loc == node.loc + [key] && made.slots == map[]
    ensures Image(world + [made]) == Made(before, node.id, key) && Sound(Image(world + [made]))
  {
    assert DictOf(made) == Dict(node.loc + [key], map[]);
    assert DictOf(node).slots == before[node.id].slots[key := Ref(|world|)];
    IsMade(before, Image(world + [made]), node.id, key);
  }

  lemma WiredAttached<V>(world: seq<DictNode<V>>, node: DictNode<V>, slots: map<string, Slot<V>>, key: string,
                         made: DictNode<V>)
    requires Knows(world, node) && |world| == made.id && made.slots == map[]
    requires forall i :: 0 <= i < |world| ==> world[i].id == i
    requires forall i :: 0 <= i < |world| && i != node.id ==> Closed(world, world[i].slots)
    requires Closed(world, slots) && node.slots == slots[key := Nested(made)]
    ensures Wired(world + [made], |world + [made]|)
  {
    ClosedAttached(world, node, slots, key, made);
    WiredIs(world + [made], |world| + 1);
  }

  lemma ClosedAttached<V>(world: seq<DictNode<V>>, node: DictNode<V>, slots: map<string, Slot<V>>, key: string,
                          made: DictNode<V>)
    requires Knows(world, node) && |world| == made.id && made.slots == map[]
    requires forall i :: 0 <= i < |world| ==> world[i].id == i
    requires forall i :: 0 <= i < |world| && i != node.id ==> Closed(world, world[i].slots)
    requires Closed(world, slots) && node.slots == slots[key := Nested(made)]
    ensures var world' := world + [made];
      forall i :: 0 <= i < |world'| ==> world'[i].id == i && Closed(world', world'[i].slots)
  {
    var world' := world + [made];
    forall i | 0 <= i < |world|
      ensures Closed(world', world[i].slots)
    {
      StaysClosed(world, if i == node.id then slots else world[i].slots, made);
    }
  }

  /** `node.setdefault(key, {})`. */
  method SetDefault<V>(node: DictNode<V>, key: string, ghost world: seq<DictNode<V>>)
    returns (child: Slot<V>, ghost world': seq<DictNode<V>>)
    requires Valid(world) && Knows(world, node)
    modifies node
    ensures world <= world'
    ensures Image(world') == AfterDefault(old(Image(world)), node.id, key)
    ensures CellOf(child) == AfterDefault(old(Image(world)), node.id, key)[node.id].slots[key]
    ensures Grown(world, world') && forall d :: d in Members(world') ==> d in Members(world) || fresh(d)
    ensures Valid(world') && (child.Nested? ==> Knows(world', child.dict))
  {
    ghost var before := Image(world);
    WiredIs(world, |world|);
    if key in node.slots {
      return node.slots[key], world;
    }
    child, world' := Insert(node, key, world);
    OneMoreMember(world, child.dict);
  }

  /** `node[key] = value`. */
  method SetItem<V>(node: DictNode<V>, key: string, value: V, ghost world: seq<DictNode<V>>)
    requires Valid(world) && Knows(world, node)
    modifies node
    ensures Valid(world) && Image(world) == Assigned(old(Image(world)), node.id, key, value)
  {
    ghost var before, slots := Image(world), node.slots;
    WiredIs(world, |world|);
    node.slots := node.slots[key := Held(value)];
    assert forall i :: 0 <= i < |world| && i != node.id ==>
          world[i] != node && world[i].id == i && DictOf(world[i]) == before[i];
    ImageAssigned(world, before, node, slots, key, value);
    WiredAssigned(world, node, slots, key, value);
  }

  lemma ImageAssigned<V>(world: seq<DictNode<V>>, before: Store<V>, node: DictNode<V>, slots: map<string, Slot<V>>,
                         key: string, value: V)
    requires Knows(world, node) && |before| == |world| && Sound(before)
    requires forall i :: 0 <= i < |world| && i != node.id ==> DictOf(world[i]) == before[i]
    requires node.slots == slots[key := Held(value)]
    requires before[node.id] == Dict(node.loc, map k | k in slots :: CellOf(slots[k]))
    ensures Image(world) == Assigned(before, node.id, key, value)
  {
    assert DictOf(node).slots == before[node.id].slots[key := Val(value)];
  }

  lemma WiredAssigned<V>(world: seq<DictNode<V>>, node: DictNode<V>, slots: map<string, Slot<V>>, key: string, value: V)
    requires Knows(world, node)
    requires forall i :: 0 <= i < |world| ==> world[i].id == i
    requires forall i :: 0 <= i < |world| && i != node.id ==> Closed(world, world[i].slots)
    requires Closed(world, slots) && node.slots == slots[key := Held(value)]
    ensures Wired(world, |world|)
  {
    WiredIs(world, |world|);
  }

  // ----- a stack of references from the root down

  ghost function Ids<V>(stack: seq<DictNode<V>>): seq<nat> {
    seq(|stack|, i requires 0 <= i < |stack| => stack[i].id)
  }

  /** The bottom of the stack is the root, and each entry is a current child of the one below. */
  ghost predicate Stacked<V>(world: seq<DictNode<V>>, stack: seq<DictNode<V>>)
    reads world
  {
    && Valid(world) && stack != [] && stack[0].id == 0
    && (forall i :: 0 <= i < |stack| ==> Knows(world, stack[i]))
    && Chain(Image(world), Ids(stack))
  }

  /** The keys from the root to the top. */
  ghost function Cursor<V>(world: seq<DictNode<V>>, stack: seq<DictNode<V>>): Path
    requires Stacked(world, stack)
    reads world
  {
    Names(Image(world), Ids(stack))
  }

  lemma IdsGrow<V>(stack: seq<DictNode<V>>, d: DictNode<V>)
    ensures Ids(stack + [d]) == Ids(stack) + [d.id]
  {
  }

  /** A child of the top may be stacked on it. */
  lemma StackGrows<V>(world: seq<DictNode<V>>, stack: seq<DictNode<V>>, d: DictNode<V>)
    requires Stacked(world, stack) && Knows(world, d)
    requires LinkOf(Image(world), stack[|stack| - 1].id, d.id).Some?
    ensures Stacked(world, stack + [d])
    ensures Cursor(world, stack + [d]) ==
            Cursor(world, stack) + [LinkOf(Image(world), stack[|stack| - 1].id, d.id).value]
  {
    IdsGrow(stack, d);
    ChainGrows(Image(world), Ids(stack), d.id);
  }

  lemma RootStack<V>(world: seq<DictNode<V>>)
    requires Valid(world)
    ensures world[0].id == 0 && Stacked(world, [world[0]]) && Cursor(world, [world[0]]) == []
  {
    WiredIs(world, |world|);
    assert Ids([world[0]]) == [0];
  }

  method Start<V>() returns (stack: seq<DictNode<V>>, ghost world: seq<DictNode<V>>)
    ensures |stack| == |world| == 1 && stack[0] == world[0] && fresh(Members(world))
    ensures Stacked(world, stack) && Cursor(world, stack) == [] && Value(world) == Empty<V>()
  {
    var root;
    root, world := NewDict();
    stack := [root];
    OneMember(root);
    RootStack(world);
  }

  lemma CursorLength<V>(world: seq<DictNode<V>>, stack: seq<DictNode<V>>)
    requires Stacked(world, stack)
    ensures |Cursor(world, stack)| == |stack| - 1 && HasDir(Value(world), Cursor(world, stack))
  {
    ChainLoc(Image(world), Ids(stack));
    ChainAt(Image(world), Ids(stack));
  }

  /** The cursor leads to what the top stands for. */
  lemma TopTree<V>(world: seq<DictNode<V>>, stack: seq<DictNode<V>>)
    requires Stacked(world, stack)
    ensures HasDir(Value(world), Cursor(world, stack))
    ensures At(Value(world), Cursor(world, stack)).value.kids.Keys == stack[|stack| - 1].slots.Keys
  {
    ChainAt(Image(world), Ids(stack));
  }

  lemma Pop<V>(world: seq<DictNode<V>>, stack: seq<DictNode<V>>, n: nat)
    requires Stacked(world, stack) && n < |stack|
    ensures Stacked(world, stack[..|stack| - n]) && |Cursor(world, stack)| == |stack| - 1
    ensures Cursor(world, stack[..|stack| - n]) == Cursor(world, stack)[..|stack| - 1 - n]
  {
    assert Ids(stack[..|stack| - n]) == Ids(stack)[..|stack| - n];
    ChainPops(Image(world), Ids(stack), |stack| - n);
  }

  lemma PopOne<V>(world: seq<DictNode<V>>, stack: seq<DictNode<V>>, top: DictNode<V>)
    requires Stacked(world, stack + [top]) && stack != []
    ensures Stacked(world, stack) && |Cursor(world, stack + [top])| == |stack|
    ensures Cursor(world, stack) == Cursor(world, stack + [top])[..|stack| - 1]
  {
    Pop(world, stack + [top], 1);
    assert (stack + [top])[..|stack|] == stack;
  }

  /** One step down from the top of a chain, made if it is not there; it fails on a leaf. What a later
      assignment below it will build is what it would have built from the tree before. */
  method Into<V>(node: DictNode<V>, key: string, ghost stack: seq<DictNode<V>>, ghost world: seq<DictNode<V>>,
                 ghost rest: Path, ghost path: Path, ghost v: V)
    returns (ok: bool, child: DictNode<V>, ghost world': seq<DictNode<V>>)
    requires Stacked(world, stack) && node == stack[|stack| - 1] && rest != []
    requires path == Cursor(world, stack) + ([key] + rest)
    modifies node
    ensures Grown(world, world') && forall d :: d in Members(world') ==> d in Members(world) || fresh(d)
    ensures !ok ==> Put(old(Value(world)), path, v).None?
    ensures ok ==> Stacked(world', stack + [child])
    ensures ok ==> Cursor(world', stack + [child]) == old(Cursor(world, stack)) + [key]
    ensures ok ==> Put(Value(world'), path, v) == Put(old(Value(world)), path, v)
  {
    ghost var s, ids := Image(world), Ids(stack);
    var found;
    assert Top(ids) == node.id;
    found, world' := SetDefault(node, key, world);
    if found.Held? {
      BlockedTree(s, ids, key, rest, v);
      child := node;
      return false, child, world';
    }
    child := found.dict;
    Entered(s, ids, world', stack, key, child, rest, v);
    return true, child, world';
  }

  lemma Entered<V>(s: Store<V>, ids: seq<nat>, world: seq<DictNode<V>>, stack: seq<DictNode<V>>, key: string,
                   child: DictNode<V>, rest: Path, v: V)
    requires Sound(s) && Chain(s, ids) && Top(ids) < |s| && rest != []
    requires Valid(world) && Image(world) == AfterDefault(s, Top(ids), key)
    requires stack != [] && ids == Ids(stack) && stack[0].id == 0
    requires AfterDefault(s, Top(ids), key)[Top(ids)].slots[key] == Ref(child.id)
    requires Knows(world, child) && forall i :: 0 <= i < |stack| ==> Knows(world, stack[i])
    ensures Stacked(world, stack + [child]) && Cursor(world, stack + [child]) == Names(s, ids) + [key]
    ensures Put(Value(world), Names(s, ids) + ([key] + rest), v) == Put(TreeAt(s, 0), Names(s, ids) + ([key] + rest), v)
  {
    IdsGrow(stack, child);
    if key in s[Top(ids)].slots {
      EnteredTree(s, ids, key);
    } else {
      MadeTree(s, ids, key, rest, v);
    }
  }

  /** An assignment in the top: the stack stays a chain, for the top's own entries are not on it. */
  method Assign<V>(node: DictNode<V>, key: string, v: V, ghost stack: seq<DictNode<V>>, ghost world: seq<DictNode<V>>)
    requires Stacked(world, stack) && node == stack[|stack| - 1]
    modifies node
    ensures Stacked(world, stack) && Cursor(world, stack) == old(Cursor(world, stack))
    ensures Some(Value(world)) == Put(old(Value(world)), old(Cursor(world, stack)) + [key], v)
  {
    ghost var s, ids := Image(world), Ids(stack);
    SetItem(node, key, v, world);
    AssignedTree(s, ids, key, v);
  }

  lemma StillKnown<V>(world: seq<DictNode<V>>, made: DictNode<V>, stack: seq<DictNode<V>>)
    requires forall i :: 0 <= i < |stack| ==> Knows(world, stack[i])
    ensures forall i :: 0 <= i < |stack| ==> Knows(world + [made], stack[i])
  {
  }

  /** A new empty dictionary under a key that is not there yet. */
  method MakeChild<V>(node: DictNode<V>, key: string, ghost stack: seq<DictNode<V>>, ghost world: seq<DictNode<V>>)
    returns (child: DictNode<V>, ghost world': seq<DictNode<V>>)
    requires Stacked(world, stack) && node == stack[|stack| - 1] && key !in node.slots
    modifies node
    ensures child.slots == map[]
    ensures Grown(world, world') && forall d :: d in Members(world') ==> d in Members(world) || fresh(d)
    ensures Stacked(world', stack + [child]) && Cursor(world', stack + [child]) == old(Cursor(world, stack)) + [key]
    ensures HasDir(old(Value(world)), old(Cursor(world, stack)))
    ensures Value(world') == Graft(old(Value(world)), old(Cursor(world, stack)),
                                   Dir(At(old(Value(world)), old(Cursor(world, stack))).value.kids[key := Empty()]))
  {
    ghost var s, ids := Image(world), Ids(stack);
    assert Top(ids) == node.id;
    var slot;
    slot, world' := Insert(node, key, world);
    child := slot.dict;
    OneMoreMember(world, child);
    StillKnown(world, child, stack);
    ChildMade(s, ids, world', stack, key, child);
  }

  lemma ChildMade<V>(s: Store<V>, ids: seq<nat>, world: seq<DictNode<V>>, stack: seq<DictNode<V>>, key: string,
                     child: DictNode<V>)
    requires Sound(s) && Chain(s, ids) && Top(ids) < |s| && key !in s[Top(ids)].slots
    requires Valid(world) && Image(world) == Made(s, Top(ids), key)
    requires stack != [] && ids == Ids(stack) && stack[0].id == 0 && child.id == |s|
    requires Knows(world, child) && forall i :: 0 <= i < |stack| ==> Knows(world, stack[i])
    ensures Stacked(world, stack + [child]) && Cursor(world, stack + [child]) == Names(s, ids) + [key]
    ensures HasDir(TreeAt(s, 0), Names(s, ids))
    ensures Value(world) ==
            Graft(TreeAt(s, 0), Names(s, ids), Dir(At(TreeAt(s, 0), Names(s, ids)).value.kids[key := Empty()]))
  {
    MadeGraft(s, ids, key);
    IdsGrow(stack, child);
  }
}
