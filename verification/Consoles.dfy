/** The consoles and networks that the theorems on a pull are about: for every console there is one that meets
    their hypotheses. */
module Consoles {
  import opened Results
  import opened Wire
  import opened Trees
  import opened NodeText
  import opened NodeTextPrinting
  import opened Schema
  import opened Snapshot

  // ----- a schema reply for a node

  ghost function LinesFor(names: set<string>, isNode: bool): seq<Line>
    decreases |names|
  {
    if names == {} then []
    else
      var name :| name in names;
      [Line(name, isNode, "")] + LinesFor(names - {name}, isNode)
  }

  lemma {:induction false} LinesForName(names: set<string>, isNode: bool)
    ensures Named(LinesFor(names, isNode), isNode) == names && Named(LinesFor(names, isNode), !isNode) == {}
    decreases |names|
  {
    if names != {} {
      var lines := LinesFor(names, isNode);
      var name := lines[0].name;
      assert lines[1..] == LinesFor(names - {name}, isNode);
      LinesForName(names - {name}, isNode);
    }
  }

  lemma {:induction false} NamedConcat(a: seq<Line>, b: seq<Line>, isNode: bool)
    ensures Named(a + b, isNode) == Named(a, isNode) + Named(b, isNode)
  {
    if a == [] {
      assert a + b == b;
    } else {
      assert (a + b)[1..] == a[1..] + b;
      NamedConcat(a[1..], b, isNode);
    }
  }

  ghost function SchemaLines<V>(dir: Tree<V>): seq<Line>
    requires dir.Dir?
  {
    LinesFor(KidsOf(dir, true), true) + LinesFor(KidsOf(dir, false), false)
  }

  lemma SchemaLinesName<V>(dir: Tree<V>)
    requires dir.Dir?
    ensures forall n :: Named(SchemaLines(dir), n) == KidsOf(dir, n)
  {
    LinesForName(KidsOf(dir, true), true);
    LinesForName(KidsOf(dir, false), false);
    forall n
      ensures Named(SchemaLines(dir), n) == KidsOf(dir, n)
    {
      NamedConcat(LinesFor(KidsOf(dir, true), true), LinesFor(KidsOf(dir, false), false), n);
    }
  }

  // ----- a dump of a node

  /** No name on the way to a leaf holds a character that the dump's grammar uses. */
  ghost predicate CleanNames<V>(t: Tree<V>) {
    forall p {:trigger LeafAt(t, p)} :: LeafAt(t, p).Some? ==> forall k :: 0 <= k < |p| ==> CleanKey(p[k])
  }

  ghost predicate GoodDump<V>(text: string, dir: Tree<V>) {
    Meaning(text).Ok? && ShapeOf(text, dir)
  }

  /** The leaves that a dump must list. */
  ghost function PlainLeaves<V>(dir: Tree<V>): set<Path> {
    set p | p in Paths(dir) && LeafAt(dir, p).Some? && Plain(p)
  }

  lemma PlainLeavesAre<V>(dir: Tree<V>, p: Path)
    ensures p in PlainLeaves(dir) <==> LeafAt(dir, p).Some? && Plain(p)
  {
    PathsAre(dir, p);
  }

  ghost predicate AllClean(fields: seq<Field>) {
    forall i :: 0 <= i < |fields| ==> CleanField(fields[i]) && fields[i].keep == 0
  }

  lemma {:induction false} Blank(paths: set<Path>) returns (fields: seq<Field>)
    requires forall p :: p in paths ==> p != [] && forall k :: 0 <= k < |p| ==> CleanKey(p[k])
    ensures Table(Items(fields)).Keys == paths
    ensures AllClean(fields)
    decreases |paths|
  {
    if paths == {} {
      fields := [];
      assert Items(fields) == [];
    } else {
      var p :| p in paths;
      var rest := Blank(paths - {p});
      var last := Field(p, "", true, 0);
      fields := rest + [last];
      ItemsSnoc(rest, last);
      OneMorePath(paths, p);
    }
  }

  lemma ItemsSnoc(fields: seq<Field>, last: Field)
    ensures Table(Items(fields + [last])) == Table(Items(fields))[last.path := last.value]
  {
    assert Items(fields + [last]) == Items(fields) + [(last.path, last.value)];
    assert (Items(fields) + [(last.path, last.value)])[..|fields|] == Items(fields);
  }

  lemma OneMorePath(paths: set<Path>, p: Path)
    requires p in paths
    ensures paths - {p} + {p} == paths
  {
  }

  lemma PlainLeavesPrefixFree<V>(dir: Tree<V>)
    ensures PrefixFree(PlainLeaves(dir))
  {
    forall p, q | p in PlainLeaves(dir) && q in PlainLeaves(dir) && p <= q
      ensures p == q
    {
      assert q == p + q[|p|..];
      AtConcat(dir, p, q[|p|..]);
    }
  }

  /** A listing of prefix-free paths is the dump of a tree whose leaves are these. */
  lemma ListingParses(fields: seq<Field>)
    requires AllClean(fields) && PrefixFree(Table(Items(fields)).Keys)
    ensures Writable([], fields)
    ensures var meaning := Meaning(Print(fields, Dots(0)));
      meaning.Ok? && Lists(meaning.value.tree, Table(Items(fields)))
  {
    var items := Items(fields);
    forall i | 0 <= i < |items|
      ensures items[i].0 != []
    {
      assert CleanField(fields[i]);
    }
    PutAllLists(items);
    FromAnywhere([], fields);
    ParsePrint(PutAll(Empty<string>(), items).value, fields, Dots(0));
  }

  lemma PlainLeavesClean<V>(dir: Tree<V>)
    requires CleanNames(dir)
    ensures forall p :: p in PlainLeaves(dir) ==> p != [] && forall k :: 0 <= k < |p| ==> CleanKey(p[k])
  {
  }

  lemma ListsPlainLeaves<V, W(!new)>(dir: Tree<V>, t: Tree<W>, table: map<Path, W>, q: Path)
    requires Lists(t, table) && table.Keys == PlainLeaves(dir) && Plain(q)
    ensures LeafAt(t, q).Some? <==> LeafAt(dir, q).Some?
  {
    PlainLeavesAre(dir, q);
  }

  /** Where names are clean, a node has a dump that lists every key: the grammar can write it. */
  lemma DumpExists<V>(dir: Tree<V>)
    requires dir.Dir? && CleanNames(dir)
    ensures exists text :: GoodDump(text, dir)
  {
    PlainLeavesClean(dir);
    var fields := Blank(PlainLeaves(dir));
    PlainLeavesPrefixFree(dir);
    ListingParses(fields);
    var text := Print(fields, Dots(0));
    var t := Meaning(text).value.tree;
    forall q | Plain(q)
      ensures LeafAt(t, q).Some? <==> LeafAt(dir, q).Some?
    {
      ListsPlainLeaves(dir, t, Table(Items(fields)), q);
    }
    assert GoodDump(text, dir);
  }

  lemma CleanBelow<V>(console: Tree<V>, u: Path)
    requires CleanNames(console) && HasDir(console, u)
    ensures CleanNames(At(console, u).value)
  {
    var dir := At(console, u).value;
    forall p | LeafAt(dir, p).Some?
      ensures forall k :: 0 <= k < |p| ==> CleanKey(p[k])
    {
      AtConcat(console, u, p);
      assert LeafAt(console, u + p).Some?;
      forall k | 0 <= k < |p|
        ensures CleanKey(p[k])
      {
        assert p[k] == (u + p)[|u| + k];
      }
    }
  }

  // ----- the console's voice

  /** What the console says: a node its schema and, if the grammar can write one, its dump; a leaf its value. */
  ghost function Answer<V>(console: Tree<V>, r: Request<Path, Query>): Body<V> {
    match r.query
    case Children => if HasDir(console, r.address) then Lines(SchemaLines(At(console, r.address).value)) else Other
    case Dump =>
      if HasDir(console, r.address) && exists text :: GoodDump(text, At(console, r.address).value) then
        var text :| GoodDump(text, At(console, r.address).value);
        Text(text)
      else Other
    case Get => if LeafAt(console, r.address).Some? then Triplet(LeafAt(console, r.address).value) else Other
  }

  lemma AnswerIsTrue<V>(console: Tree<V>, r: Request<Path, Query>)
    requires !Unanswerable(console, r)
    ensures Truthful(console, r, Answer(console, r))
    ensures r.query == Children ==> Answer(console, r).Lines?
    ensures r.query == Dump && CleanNames(console) ==> Usable(Some(Answer(console, r)))
    ensures r.query == Get ==> Answer(console, r).Triplet?
  {
    if r.query == Children {
      SchemaLinesName(At(console, r.address).value);
    } else if r.query == Dump && CleanNames(console) {
      CleanBelow(console, r.address);
      DumpExists(At(console, r.address).value);
    }
  }

  /** For every console, and whichever requests are poison, there is a network on which only these and what the
      console cannot answer are silent, and every reply is true and well formed; and where names are clean and only
      schema requests are poison, all that the complete pull asks for is met. */
  lemma PullNetworkExists<V(!new)>(console: Tree<V>, poison: iset<Request<Path, Query>>)
    returns (net: Network<Path, Query, Body<V>>, honest: Answers<V>, faults: ReadFaults)
    ensures faults == Faults(poison, iset r: Request<Path, Query> | Unanswerable(console, r))
    ensures Honest(console, honest) && WellFormed(honest) && AllTriplets(honest) && Poisoned(net, faults, honest)
    ensures CleanNames(console) && (forall r :: r in poison ==> r.query == Children) ==> Ideal(console, honest, faults)
  {
    honest := (r, b) => !Unanswerable(console, r) && b == Answer(console, r);
    faults := Faults(poison, iset r: Request<Path, Query> | Unanswerable(console, r));
    forall r, b | honest(r, b)
      ensures Truthful(console, r, b)
      ensures r.query == Children ==> b.Lines?
      ensures r.query == Dump && CleanNames(console) ==> Usable(Some(b))
      ensures r.query == Get ==> b.Triplet?
    {
      AnswerIsTrue(console, r);
    }
    net := PoisonNetworkExists(faults, r => Answer(console, r), honest);
  }
}
