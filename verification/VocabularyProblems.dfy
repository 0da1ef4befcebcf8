/** The diagnostics of a loaded vocabulary, wing_parser/classifier/vocabulary_checks.py: cycles among the live
    sets, unknown kinds and unknown sets. Nothing here raises. */
module VocabularyProblems {
  import opened Results
  import opened Sequences
  import opened Graphs
  import opened NestedSets

  /** A closed walk that visits no node twice. */
  ghost predicate SimpleCycle<N>(g: Graph<N>, c: seq<N>) {
    |c| > 1 && Walk(g, c) && c[0] == Last(c) && Distinct(c[1..])
  }

  /** A walk that first comes back to an earlier node at its end. */
  ghost predicate Lasso<N>(g: Graph<N>, w: seq<N>) {
    |w| > 1 && Walk(g, w) && Distinct(w[..|w| - 1]) && Last(w) in Elements(w[..|w| - 1])
  }

  function Index<T(==)>(xs: seq<T>, x: T): (i: nat)
    requires x in Elements(xs)
    ensures i < |xs| && xs[i] == x
  {
    if xs[0] == x then 0 else 1 + Index(xs[1..], x)
  }

  /** The part of a lasso that goes round. */
  function Loop<T(==)>(w: seq<T>): seq<T>
    requires w != [] && Last(w) in Elements(w[..|w| - 1])
  {
    w[Index(w[..|w| - 1], Last(w))..]
  }

  lemma LoopIsCycle<N>(g: Graph<N>, w: seq<N>)
    requires Lasso(g, w)
    ensures SimpleCycle(g, Loop(w))
  {
    var front := w[..|w| - 1];
    var i := Index(front, Last(w));
    WalkSuffix(g, w, i);
    var c := w[i..];
    SuffixOf(front, i);
    assert c[..|c| - 1] == front[i..];
    Rotate(c);
  }

  lemma Rotate<T>(c: seq<T>)
    requires |c| > 1 && c[0] == Last(c) && Distinct(c[..|c| - 1])
    ensures Distinct(c[1..]) && Elements(c) == Elements(c[1..])
  {
    var middle := c[1..|c| - 1];
    assert c[..|c| - 1] == [c[0]] + middle && c[1..] == middle + [c[0]];
    One(c[0]);
    DistinctConcat([c[0]], middle);
    DistinctConcat(middle, [c[0]]);
    ElementsConcat(middle, [c[0]]);
  }

  /** A cyclic graph has a simple cycle. */
  lemma CyclicHasSimpleCycle<N(!new)>(g: Graph<N>)
    ensures !Acyclic(g) <==> exists c :: SimpleCycle(g, c)
  {
    if !Acyclic(g) {
      var p :| Walk(g, p) && |p| > 1 && p[0] == Last(p);
      var q := Shorten(g, p[1..]);
      var c := [p[0]] + q;
      assert c[1..] == q;
      assert SimpleCycle(g, c);
    }
    if c :| SimpleCycle(g, c) {
      assert Walk(g, c);
    }
  }

  /** Every lasso that starts with `walk` has its cycle on record. */
  ghost predicate CoveredBy<N(!new)>(g: Graph<N>, seen: set<set<N>>, walk: seq<N>) {
    forall w {:trigger Lasso(g, w)} :: Lasso(g, w) && walk <= w ==> Elements(Loop(w)) in seen
  }

  /** Each of the given continuations of `here` is covered. */
  ghost predicate BranchesCovered(g: Graph<string>, seen: set<set<string>>, names: seq<string>, fold: string -> string,
                                  here: seq<string>) {
    names == [] ||
    (CoveredBy(g, seen, here + [fold(names[|names| - 1])])
     && BranchesCovered(g, seen, names[..|names| - 1], fold, here))
  }

  lemma {:induction false} BranchesStayCovered(g: Graph<string>, seen: set<set<string>>, seen': set<set<string>>,
                                               names: seq<string>, fold: string -> string, here: seq<string>)
    requires BranchesCovered(g, seen, names, fold, here) && seen <= seen'
    ensures BranchesCovered(g, seen', names, fold, here)
  {
    if names != [] {
      BranchesStayCovered(g, seen, seen', names[..|names| - 1], fold, here);
    }
  }

  lemma {:induction false} BranchCovered(g: Graph<string>, seen: set<set<string>>, names: seq<string>,
                                         fold: string -> string, here: seq<string>, k: nat)
    requires BranchesCovered(g, seen, names, fold, here) && k < |names|
    ensures CoveredBy(g, seen, here + [fold(names[k])])
  {
    if k < |names| - 1 {
      BranchCovered(g, seen, names[..|names| - 1], fold, here, k);
    }
  }

  lemma OneMoreBranch(g: Graph<string>, seen: set<set<string>>, names: seq<string>, fold: string -> string,
                      here: seq<string>, i: nat)
    requires i < |names| && BranchesCovered(g, seen, names[..i], fold, here)
    requires CoveredBy(g, seen, here + [fold(names[i])])
    ensures BranchesCovered(g, seen, names[..i + 1], fold, here)
  {
    assert names[..i + 1][..i] == names[..i];
  }

  lemma Further<T>(path: seq<T>, current: T)
    requires Distinct(path) && current !in Elements(path)
    ensures var here := path + [current];
      && Distinct(here) && Elements(here) == Elements(path) + {current}
      && here[..|here| - 1] == path && Last(here) == current
  {
    One(current);
    DistinctConcat(path, [current]);
    ElementsConcat(path, [current]);
    assert (path + [current])[..|path|] == path;
  }

  lemma CycleClosed<N>(g: Graph<N>, path: seq<N>, current: N)
    requires Distinct(path) && current in Elements(path) && Walk(g, path + [current])
    ensures var here, cycle := path + [current], path[Index(path, current)..] + [current];
      Lasso(g, here) && cycle == Loop(here) && SimpleCycle(g, cycle)
  {
    var here := path + [current];
    assert here[..|path|] == path;
    LoopIsCycle(g, here);
  }

  lemma Branch(g: Graph<string>, here: seq<string>, names: seq<string>, fold: string -> string, i: nat)
    requires here != [] && Walk(g, here) && i < |names|
    requires Last(here) in g && g[Last(here)] == Folded(names, fold)
    ensures Walk(g, here + [fold(names[i])])
  {
    FoldedAt(names, fold, i);
    WalkSnoc(g, here, fold(names[i]));
  }

  /** The scan of `find_set_cycles`: what its nested walk shares and fills. */
  class CycleScan {
    const model: SetGraph
    var found: seq<seq<string>>
    var seen: set<set<string>>

    ghost predicate Valid()
      reads this
    {
      && (forall c :: c in found ==> SimpleCycle(model.Links(), c))
      && (forall s :: s in seen <==> exists c :: c in found && Elements(c) == s)
      && (forall i, j :: 0 <= i < j < |found| ==> Elements(found[i]) != Elements(found[j]))
    }

    ghost predicate Covered(walk: seq<string>)
      reads this
    {
      CoveredBy(model.Links(), seen, walk)
    }

    constructor (model: SetGraph)
      ensures this.model == model && found == [] && Valid()
    {
      this.model := model;
      found, seen := [], {};
    }

    method Record(cycle: seq<string>)
      requires Valid() && SimpleCycle(model.Links(), cycle)
      modifies this
      ensures Valid() && Elements(cycle) in seen && old(seen) <= seen
    {
      var identity := Elements(cycle);
      if identity !in seen {
        seen := seen + {identity};
        found := found + [cycle];
      }
    }

    method WalkFrom(current: string, path: seq<string>)
      requires Valid()
      requires Distinct(path) && Elements(path) <= model.Links().Keys && Walk(model.Links(), path + [current])
      modifies this
      ensures Valid() && old(seen) <= seen && Covered(path + [current])
      decreases model.Links().Keys - Elements(path)
    {
      ghost var g := model.Links();
      var here := path + [current];
      if current in Elements(path) {
        var cycle := path[Index(path, current)..] + [current];
        CycleClosed(g, path, current);
        Record(cycle);
        RecordedHere(g, seen, here);
        return;
      }
      if current !in model.sets || model.sets[current].deleted {
        DeadEnd(g, seen, path, current);
        return;
      }
      var names := model.sets[current].sets;
      Further(path, current);
      for i := 0 to |names|
        invariant Valid() && old(seen) <= seen
        invariant BranchesCovered(g, seen, names[..i], model.fold, here)
      {
        ghost var before := seen;
        Branch(g, here, names, model.fold, i);
        WalkFrom(model.fold(names[i]), here);
        BranchesStayCovered(g, before, seen, names[..i], model.fold, here);
        OneMoreBranch(g, seen, names, model.fold, here, i);
      }
      assert names[..|names|] == names;
      AllBranches(g, seen, names, model.fold, here);
    }

    /** Every start in turn; whatever the order, the record is complete. */
    method Scan(order: seq<string>)
      requires Valid() && Elements(order) == model.sets.Keys
      modifies this
      ensures Valid()
      ensures forall c :: SimpleCycle(model.Links(), c) ==> Elements(c) in seen
    {
      for i := 0 to |order|
        invariant Valid()
        invariant forall k :: 0 <= k < i ==> Covered([order[k]])
      {
        assert [] + [order[i]] == [order[i]];
        WalkFrom(order[i], []);
      }
      Complete(order);
    }

    lemma Complete(order: seq<string>)
      requires Elements(order) == model.sets.Keys
      requires forall k :: 0 <= k < |order| ==> Covered([order[k]])
      ensures forall c :: SimpleCycle(model.Links(), c) ==> Elements(c) in seen
    {
      var g := model.Links();
      forall c | SimpleCycle(g, c)
        ensures Elements(c) in seen
      {
        CycleIsLasso(g, c);
        InElements(order, c[0]);
        var k :| 0 <= k < |order| && order[k] == c[0];
        assert Covered([order[k]]) && [order[k]] <= c;
      }
    }
  }

  lemma NextBranch(g: Graph<string>, names: seq<string>, fold: string -> string, here: seq<string>, w: seq<string>)
    returns (k: nat)
    requires here != [] && Last(here) !in Elements(here[..|here| - 1])
    requires Last(here) in g && g[Last(here)] == Folded(names, fold)
    requires Lasso(g, w) && here <= w
    ensures k < |names| && here + [fold(names[k])] <= w
  {
    assert |w| == |here| ==> w == here;
    EdgeAt(g, w, |here| - 1);
    k := FoldedIndex(names, fold, w[|here|]);
  }

  lemma AllBranches(g: Graph<string>, seen: set<set<string>>, names: seq<string>, fold: string -> string,
                    here: seq<string>)
    requires here != [] && Last(here) !in Elements(here[..|here| - 1])
    requires Last(here) in g && g[Last(here)] == Folded(names, fold)
    requires BranchesCovered(g, seen, names, fold, here)
    ensures CoveredBy(g, seen, here)
  {
    forall w | Lasso(g, w) && here <= w
      ensures Elements(Loop(w)) in seen
    {
      var k := NextBranch(g, names, fold, here, w);
      BranchCovered(g, seen, names, fold, here, k);
    }
  }

  /** A lasso ends where it first repeats, so no longer lasso starts with it. */
  lemma RecordedHere<N(!new)>(g: Graph<N>, seen: set<set<N>>, here: seq<N>)
    requires Lasso(g, here) && Elements(Loop(here)) in seen
    ensures CoveredBy(g, seen, here)
  {
    forall w | Lasso(g, w) && here <= w
      ensures w == here
    {
      var front := w[..|w| - 1];
      if |w| > |here| {
        Slices(front, 0, |here|);
        assert front[0..|here|] == here;
      }
      Snoc(here);
    }
  }

  lemma DeadEnd<N(!new)>(g: Graph<N>, seen: set<set<N>>, path: seq<N>, current: N)
    requires current !in g && current !in Elements(path)
    ensures CoveredBy(g, seen, path + [current])
  {
    var here := path + [current];
    assert here[..|here| - 1] == path;
    forall w | Lasso(g, w)
      ensures !(here <= w)
    {
      if here <= w {
        assert |w| == |here| ==> w == here;
        EdgeAt(g, w, |path|);
        assert false;
      }
    }
  }

  lemma CycleIsLasso<N>(g: Graph<N>, c: seq<N>)
    requires SimpleCycle(g, c)
    ensures Lasso(g, c) && c[0] in g && Loop(c) == c
  {
    var middle := c[1..|c| - 1];
    assert c[..|c| - 1] == [c[0]] + middle && c[1..] == middle + [c[0]];
    One(c[0]);
    DistinctConcat(middle, [c[0]]);
    DistinctConcat([c[0]], middle);
    ElementsConcat([c[0]], middle);
    EdgeAt(g, c, 0);
    assert c[..|c| - 1][0] == c[0];
    assert c[0..] == c;
  }

  lemma {:induction false} FoldedAt(names: seq<string>, fold: string -> string, i: nat)
    requires i < |names|
    ensures fold(names[i]) in Elements(Folded(names, fold))
  {
    if i > 0 {
      FoldedAt(names[1..], fold, i - 1);
    }
  }

  lemma {:induction false} FoldedIndex(names: seq<string>, fold: string -> string, x: string) returns (i: nat)
    requires x in Elements(Folded(names, fold))
    ensures i < |names| && fold(names[i]) == x
  {
    if fold(names[0]) == x {
      i := 0;
    } else {
      var j := FoldedIndex(names[1..], fold, x);
      i := j + 1;
    }
  }

  lemma {:induction false} SourcesAreLive<N>(g: Graph<N>, p: seq<N>)
    requires Walk(g, p)
    ensures Elements(p[..|p| - 1]) <= g.Keys
  {
    if |p| > 1 {
      SourcesAreLive(g, p[1..]);
      assert p[..|p| - 1][1..] == p[1..][..|p| - 2];
    }
  }

  lemma CycleNodesAreLive<N>(g: Graph<N>, c: seq<N>)
    requires SimpleCycle(g, c)
    ensures Elements(c) <= g.Keys
  {
    SourcesAreLive(g, c);
    assert c[..|c| - 1][0] == c[0];
    Snoc(c);
  }

  /** The cycles found are genuine and go through live sets alone, no two go through the same sets, every
      simple cycle's sets are among them, and there is none exactly when the sets nest without cycles. */
  method FindSetCycles(model: SetGraph, order: seq<string>) returns (found: seq<seq<string>>)
    requires Elements(order) == model.sets.Keys
    ensures forall c :: c in found ==> SimpleCycle(model.Links(), c) && Elements(c) <= model.Links().Keys
    ensures forall i, j :: 0 <= i < j < |found| ==> Elements(found[i]) != Elements(found[j])
    ensures forall c :: SimpleCycle(model.Links(), c) ==> exists f :: f in found && Elements(f) == Elements(c)
    ensures found == [] <==> Acyclic(model.Links())
  {
    var scan := new CycleScan(model);
    scan.Scan(order);
    found := scan.found;
    forall c | c in found
      ensures Elements(c) <= model.Links().Keys
    {
      CycleNodesAreLive(model.Links(), c);
    }
    CyclicHasSimpleCycle(model.Links());
    if found != [] {
      assert found[0] in found && SimpleCycle(model.Links(), found[0]);
    }
    if !Acyclic(model.Links()) {
      var c :| SimpleCycle(model.Links(), c);
      assert Elements(c) in scan.seen;
    }
  }

  // ----- the report

  datatype Problem =
    | TermKinds(key: string, kinds: seq<string>)
    | TermSets(key: string, sets: seq<string>)
    | SetKinds(key: string, kinds: seq<string>)
    | SetSets(key: string, sets: seq<string>)
    | Cycle(keys: seq<string>)

  function TermReport(model: SetGraph, term: TermEntry): seq<Problem> {
    if term.deleted then []
    else
      var kinds, names := Without(term.kinds, model.known), model.NotLive(term.sets);
      (if kinds == [] then [] else [TermKinds(term.key, kinds)])
      + if names == [] then [] else [TermSets(term.key, names)]
  }

  function SetReport(model: SetGraph, entry: SetEntry): seq<Problem> {
    if entry.deleted then []
    else
      var kinds, names := Without(entry.kinds, model.known), model.NotLive(entry.sets);
      (if kinds == [] then [] else [SetKinds(entry.key, kinds)])
      + if names == [] then [] else [SetSets(entry.key, names)]
  }

  /** All names known: the kinds producible, the nested sets live. */
  ghost predicate Known(model: SetGraph, kinds: seq<string>, names: seq<string>) {
    Elements(kinds) <= model.known && Elements(Folded(names, model.fold)) <= model.Links().Keys
  }

  lemma {:induction false} NotLiveNone(model: SetGraph, names: seq<string>)
    ensures model.NotLive(names) == [] <==> Elements(Folded(names, model.fold)) <= model.Links().Keys
  {
    if names != [] {
      NotLiveNone(model, names[1..]);
    }
  }

  lemma ReportsNone(model: SetGraph, kinds: seq<string>, names: seq<string>)
    ensures Without(kinds, model.known) == [] && model.NotLive(names) == [] <==> Known(model, kinds, names)
  {
    NotLiveNone(model, names);
    WithoutMembers(kinds, model.known);
    NoElements(Without(kinds, model.known));
  }

  function TermReports(model: SetGraph, terms: seq<TermEntry>): seq<Problem> {
    if terms == [] then [] else TermReports(model, terms[..|terms| - 1]) + TermReport(model, terms[|terms| - 1])
  }

  function SetReports(model: SetGraph, names: seq<string>): seq<Problem>
    requires Elements(names) <= model.sets.Keys
  {
    if names == [] then []
    else
      Snoc(names);
      SetReports(model, names[..|names| - 1]) + SetReport(model, model.sets[names[|names| - 1]])
  }

  function CycleReports(model: SetGraph, cycles: seq<seq<string>>): seq<Problem>
    requires forall c :: c in cycles ==> Elements(c) <= model.sets.Keys
  {
    if cycles == [] then []
    else
      CycleReports(model, cycles[..|cycles| - 1]) + [Cycle(Shown(model, cycles[|cycles| - 1]))]
  }

  lemma {:induction false} TermReportsNone(model: SetGraph, terms: seq<TermEntry>)
    ensures TermReports(model, terms) == [] <==> forall t :: t in terms && !t.deleted ==> Known(model, t.kinds, t.sets)
  {
    if terms != [] {
      var front, last := terms[..|terms| - 1], terms[|terms| - 1];
      TermReportsNone(model, front);
      ReportsNone(model, last.kinds, last.sets);
      assert terms == front + [last];
    }
  }

  lemma {:induction false} SetReportsNone(model: SetGraph, names: seq<string>)
    requires Elements(names) <= model.sets.Keys
    ensures SetReports(model, names) == [] <==>
            forall k :: k in Elements(names) && model.Live(k) ==> Known(model, model.sets[k].kinds, model.sets[k].sets)
  {
    if names != [] {
      var last := names[|names| - 1];
      Snoc(names);
      SetReportsNone(model, names[..|names| - 1]);
      ReportsNone(model, model.sets[last].kinds, model.sets[last].sets);
    }
  }

  /** Term by term in order: the unknown kinds of a live one, and then the names that are no live set. */
  lemma TermReportsEach(model: SetGraph, term: TermEntry, terms: seq<TermEntry>)
    ensures TermReports(model, []) == []
    ensures TermReports(model, [term] + terms) ==
      (if !term.deleted && Without(term.kinds, model.known) != []
       then [TermKinds(term.key, Without(term.kinds, model.known))] else [])
      + (if !term.deleted && model.NotLive(term.sets) != [] then [TermSets(term.key, model.NotLive(term.sets))] else [])
      + TermReports(model, terms)
  {
    TermReportsCons(model, term, terms);
  }

  lemma {:induction false} TermReportsCons(model: SetGraph, term: TermEntry, terms: seq<TermEntry>)
    ensures TermReports(model, [term] + terms) == TermReport(model, term) + TermReports(model, terms)
  {
    hide TermReport;
    var all, first := [term] + terms, TermReport(model, term);
    if terms == [] {
      assert all == [term] && [term][..0] == [];
      assert [] + first == first && first + [] == first;
    } else {
      var n := |terms| - 1;
      assert all[..|all| - 1] == [term] + terms[..n];
      TermReportsCons(model, term, terms[..n]);
      Regroup(first, TermReports(model, terms[..n]), TermReport(model, terms[n]));
    }
  }

  /** Set by set in order, the same. */
  lemma {:induction false} SetReportsEach(model: SetGraph, name: string, names: seq<string>)
    requires name in model.sets && Elements(names) <= model.sets.Keys
    ensures SetReports(model, []) == []
    ensures Elements([name] + names) <= model.sets.Keys
    ensures var entry := model.sets[name];
      SetReports(model, [name] + names) ==
        (if !entry.deleted && Without(entry.kinds, model.known) != []
         then [SetKinds(entry.key, Without(entry.kinds, model.known))] else [])
        + (if !entry.deleted && model.NotLive(entry.sets) != []
           then [SetSets(entry.key, model.NotLive(entry.sets))] else [])
        + SetReports(model, names)
  {
    var all, first := [name] + names, SetReport(model, model.sets[name]);
    if names == [] {
      assert all == [name] && [name][..0] == [] && [name][1..] == [];
      assert [] + first == first + [] == first;
    } else {
      var n := |names| - 1;
      Snoc(names);
      assert all[1..] == names;
      assert all[..|all| - 1] == [name] + names[..n];
      SetReportsEach(model, name, names[..n]);
      Regroup(first, SetReports(model, names[..n]), SetReport(model, model.sets[names[n]]));
    }
  }

  /** One problem for each cycle, naming for each node the key that its set is shown under. */
  lemma {:induction false} CycleReportsAre(model: SetGraph, cycles: seq<seq<string>>, i: nat, k: nat)
    requires forall c :: c in cycles ==> Elements(c) <= model.sets.Keys
    requires i < |cycles| && k < |cycles[i]|
    ensures |CycleReports(model, cycles)| == |cycles|
    ensures cycles[i] in cycles && cycles[i][k] in model.sets
    ensures var problem := CycleReports(model, cycles)[i];
      && problem.Cycle? && |problem.keys| == |cycles[i]|
      && problem.keys[k] == model.sets[cycles[i][k]].key
  {
    var n := |cycles| - 1;
    assert cycles[i] in cycles;
    InElements(cycles[i], cycles[i][k]);
    assert forall c :: c in cycles[..n] ==> c in cycles;
    CycleReportsLength(model, cycles);
    CycleReportsLength(model, cycles[..n]);
    if i < n {
      CycleReportsAre(model, cycles[..n], i, k);
    } else {
      ShownAt(model, cycles[n], k);
    }
  }

  lemma {:induction false} CycleReportsLength(model: SetGraph, cycles: seq<seq<string>>)
    requires forall c :: c in cycles ==> Elements(c) <= model.sets.Keys
    ensures |CycleReports(model, cycles)| == |cycles|
  {
    if cycles != [] {
      assert forall c :: c in cycles[..|cycles| - 1] ==> c in cycles;
      CycleReportsLength(model, cycles[..|cycles| - 1]);
    }
  }

  lemma {:induction false} ShownAt(model: SetGraph, nodes: seq<string>, k: nat)
    requires Elements(nodes) <= model.sets.Keys && k < |nodes|
    ensures nodes[k] in model.sets && Shown(model, nodes)[k] == model.sets[nodes[k]].key
  {
    if k > 0 {
      ShownAt(model, nodes[1..], k - 1);
    }
  }

  method ReportTerms(model: SetGraph, terms: seq<TermEntry>) returns (problems: seq<Problem>)
    ensures problems == TermReports(model, terms)
  {
    problems := [];
    for i := 0 to |terms|
      invariant problems == TermReports(model, terms[..i])
    {
      assert terms[..i + 1][..i] == terms[..i];
      problems := problems + TermReport(model, terms[i]);
    }
    assert terms[..|terms|] == terms;
  }

  method ReportSets(model: SetGraph, names: seq<string>) returns (problems: seq<Problem>)
    requires Elements(names) <= model.sets.Keys
    ensures problems == SetReports(model, names)
  {
    problems := [];
    for i := 0 to |names|
      invariant Elements(names[..i]) <= model.sets.Keys
      invariant problems == SetReports(model, names[..i])
    {
      InElements(names, names[i]);
      Slices(names, 0, i + 1);
      assert names[..i + 1][..i] == names[..i];
      problems := problems + SetReport(model, model.sets[names[i]]);
    }
    assert names[..|names|] == names;
  }

  method ReportCycles(model: SetGraph, cycles: seq<seq<string>>) returns (problems: seq<Problem>)
    requires forall c :: c in cycles ==> Elements(c) <= model.sets.Keys
    ensures problems == CycleReports(model, cycles)
  {
    problems := [];
    for i := 0 to |cycles|
      invariant problems == CycleReports(model, cycles[..i])
    {
      assert cycles[..i + 1][..i] == cycles[..i];
      problems := problems + [Cycle(Shown(model, cycles[i]))];
    }
    assert cycles[..|cycles|] == cycles;
  }

  /** Genuine cycles of live sets, no two through the same sets, every simple cycle's sets among them, and none
      exactly when there is none. */
  ghost predicate CyclesOf(model: SetGraph, cycles: seq<seq<string>>) {
    && (forall c :: c in cycles ==> SimpleCycle(model.Links(), c) && Elements(c) <= model.Links().Keys)
    && (forall i, j :: 0 <= i < j < |cycles| ==> Elements(cycles[i]) != Elements(cycles[j]))
    && (forall c :: SimpleCycle(model.Links(), c) ==> exists f :: f in cycles && Elements(f) == Elements(c))
    && (cycles == [] <==> Acyclic(model.Links()))
  }

  /** The problems are those of the terms, of the sets, and of the cycles, in this order. */
  ghost predicate ReportOf(model: SetGraph, terms: seq<TermEntry>, values: seq<string>, cycles: seq<seq<string>>,
                           problems: seq<Problem>)
    requires Elements(values) <= model.sets.Keys
  {
    && CyclesOf(model, cycles)
    && problems == TermReports(model, terms) + SetReports(model, values) + CycleReports(model, cycles)
  }

  /** Every live term and set names only what is known, and the sets nest without cycles. */
  ghost predicate Sound(model: SetGraph, terms: seq<TermEntry>) {
    && (forall t :: t in terms && !t.deleted ==> Known(model, t.kinds, t.sets))
    && (forall k :: model.Live(k) ==> Known(model, model.sets[k].kinds, model.sets[k].sets))
    && Acyclic(model.Links())
  }

  /** The report names each term and each set that names something unknown, then each cycle by the keys its
      sets are shown under; it is empty exactly when there is nothing to report. */
  method ComputeProblems(model: SetGraph, terms: seq<TermEntry>, values: seq<string>, sorted: seq<string>)
    returns (problems: seq<Problem>)
    requires Elements(values) == model.sets.Keys && Elements(sorted) == model.sets.Keys
    ensures exists cycles :: ReportOf(model, terms, values, cycles, problems)
    ensures problems == [] <==> Sound(model, terms)
  {
    var ofTerms := ReportTerms(model, terms);
    var ofSets := ReportSets(model, values);
    var found := FindSetCycles(model, sorted);
    var ofCycles := ReportCycles(model, found);
    problems := ofTerms + ofSets + ofCycles;
    assert ReportOf(model, terms, values, found, problems);
    NoProblemsIff(model, terms, values, found, problems);
  }

  lemma NoProblemsIff(model: SetGraph, terms: seq<TermEntry>, values: seq<string>, cycles: seq<seq<string>>,
                      problems: seq<Problem>)
    requires Elements(values) == model.sets.Keys && ReportOf(model, terms, values, cycles, problems)
    ensures problems == [] <==> Sound(model, terms)
  {
    TermReportsNone(model, terms);
    SetReportsNone(model, values);
  }

  /** The lookup of each node of a cycle among the sets: it never fails, the nodes being live sets. */
  function Shown(model: SetGraph, nodes: seq<string>): (keys: seq<string>)
    requires Elements(nodes) <= model.sets.Keys
    ensures |keys| == |nodes|
  {
    if nodes == [] then [] else [model.sets[nodes[0]].key] + Shown(model, nodes[1..])
  }
}
