/** The cue-sheet vocabulary as merged: named sets of kinds that nest other sets, and terms that name
    kinds and sets. From wing_parser/classifier/vocabulary.py and vocabulary_checks.py.

    Identity is folded identity; folding is a parameter. */
module NestedSets {
  import opened Results
  import opened Sequences
  import opened Graphs

  datatype SetEntry = SetEntry(key: string, caption: string, kinds: seq<string>, sets: seq<string>, origin: string,
                               shadowsDefault: bool, deleted: bool)

  datatype TermEntry = TermEntry(key: string, kinds: seq<string>, sets: seq<string>, ignore: bool, deleted: bool)

  function Folded(names: seq<string>, fold: string -> string): seq<string> {
    if names == [] then [] else [fold(names[0])] + Folded(names[1..], fold)
  }

  /** The members of `more` that are not in `kinds` yet, appended in order. */
  function AddNew(kinds: seq<string>, more: seq<string>): seq<string>
    decreases |more|
  {
    if more == [] then kinds
    else AddNew(if more[0] in Elements(kinds) then kinds else kinds + [more[0]], more[1..])
  }

  lemma {:induction false} AddNewIs(kinds: seq<string>, more: seq<string>)
    ensures Elements(AddNew(kinds, more)) == Elements(kinds) + Elements(more)
    ensures Distinct(kinds) ==> Distinct(AddNew(kinds, more))
    ensures kinds <= AddNew(kinds, more)
    decreases |more|
  {
    if more != [] {
      var next := if more[0] in Elements(kinds) then kinds else kinds + [more[0]];
      AddNewIs(next, more[1..]);
      One(more[0]);
      ElementsConcat(kinds, [more[0]]);
      DistinctConcat(kinds, [more[0]]);
    }
  }

  lemma {:induction false} AddNewSnoc(kinds: seq<string>, more: seq<string>, kind: string)
    ensures var before := AddNew(kinds, more);
      AddNew(kinds, more + [kind]) == if kind in Elements(before) then before else before + [kind]
    decreases |more|
  {
    if more == [] {
      assert [] + [kind] == [kind] && [kind][1..] == [];
    } else {
      assert (more + [kind])[1..] == more[1..] + [kind];
      AddNewSnoc(if more[0] in Elements(kinds) then kinds else kinds + [more[0]], more[1..], kind);
    }
  }

  /** What is appended is what is new, once each, in the order it was first seen. */
  lemma {:induction false} AddNewInOrder(kinds: seq<string>, more: seq<string>)
    ensures AddNew(kinds, more) == kinds + Without(FirstSeen(more), Elements(kinds))
    decreases |more|
  {
    if more == [] {
      assert kinds + [] == kinds;
    } else {
      var front, last := more[..|more| - 1], more[|more| - 1];
      assert more == front + [last];
      AddNewInOrder(kinds, front);
      AddNewSnoc(kinds, front, last);
      AddNewIs(kinds, front);
      FirstSeenMembers(front);
      WithoutEach(FirstSeen(front), last, Elements(kinds));
      var added := Without(FirstSeen(front), Elements(kinds));
      Regroup(kinds, added, [last]);
      assert added + [] == added;
    }
  }

  lemma {:induction false} FoldedEach(names: seq<string>, fold: string -> string)
    ensures |Folded(names, fold)| == |names|
    ensures forall i :: 0 <= i < |names| ==> Folded(names, fold)[i] == fold(names[i])
  {
    if names != [] {
      FoldedEach(names[1..], fold);
    }
  }

  /** The sets by folded identity, with the folding and the kinds a pattern can produce. */
  datatype SetGraph = SetGraph(sets: map<string, SetEntry>, fold: string -> string, known: set<string>) {
    predicate Live(k: string) {
      k in sets && !sets[k].deleted
    }

    /** The live sets and the folded names they nest. */
    function Links(): Graph<string> {
      map k | k in sets && !sets[k].deleted :: Folded(sets[k].sets, fold)
    }

    /** The kinds that a pattern can produce, in order. */
    function Producible(kinds: seq<string>): seq<string> {
      Without(kinds, Elements(kinds) - known)
    }

    lemma ProducibleAre(kinds: seq<string>)
      ensures Elements(Producible(kinds)) == Elements(kinds) * known
    {
      WithoutMembers(kinds, Elements(kinds) - known);
    }

    /** Each is kept in its place if it can be produced, and dropped otherwise. */
    lemma ProducibleEach(kinds: seq<string>, kind: string)
      ensures Producible([]) == []
      ensures Producible(kinds + [kind]) == Producible(kinds) + if kind in known then [kind] else []
    {
      Append(kinds, kind);
      WithoutEach(kinds, kind, Elements(kinds + [kind]) - known);
      WithoutAgrees(kinds, Elements(kinds + [kind]) - known, Elements(kinds) - known);
    }

    /** The graph: the sets that are there and not deleted, each with the folded names it nests. */
    lemma LinksAre(k: string)
      ensures k in Links() <==> k in sets && !sets[k].deleted
      ensures k in Links() ==>
        && |Links()[k]| == |sets[k].sets|
        && forall i :: 0 <= i < |sets[k].sets| ==> Links()[k][i] == fold(sets[k].sets[i])
    {
      if k in Links() { FoldedEach(sets[k].sets, fold); }
    }

    // ----- expansion

    /** Depth first, nested kinds before own ones, unknown kinds dropped; guarded by the sets on the
        current path alone. */
    function ExpandSet(key: string, visiting: set<string>): seq<string>
      decreases sets.Keys - visiting, 0, 0
    {
      var folded := fold(key);
      if folded !in sets || sets[folded].deleted || folded in visiting then []
      else AddNew(ExpandAll(sets[folded].sets, visiting + {folded}), Producible(sets[folded].kinds))
    }

    function ExpandAll(keys: seq<string>, visiting: set<string>): seq<string>
      decreases sets.Keys - visiting, 1, |keys|
    {
      if keys == [] then []
      else AddNew(ExpandAll(keys[..|keys| - 1], visiting), ExpandSet(keys[|keys| - 1], visiting))
    }

    /** A simple walk through live sets off the current path, from `k` to a set that names `kind`. */
    ghost predicate Supplies(p: seq<string>, k: string, visiting: set<string>, kind: string) {
      && Walk(Links(), p) && p[0] == k && Live(Last(p))
      && Distinct(p) && Elements(p) !! visiting
      && kind in known && kind in Elements(sets[Last(p)].kinds)
    }

    lemma {:induction false} ExpandSound(key: string, visiting: set<string>, kind: string) returns (p: seq<string>)
      requires kind in Elements(ExpandSet(key, visiting))
      ensures Supplies(p, fold(key), visiting, kind)
      decreases sets.Keys - visiting, 0, 0
    {
      var folded := fold(key);
      var entry := sets[folded];
      var nested := ExpandAll(entry.sets, visiting + {folded});
      AddNewIs(nested, Producible(entry.kinds));
      ProducibleAre(entry.kinds);
      if kind in Elements(nested) {
        var rest := ExpandAllSound(entry.sets, visiting + {folded}, kind);
        p := [folded] + rest;
      } else {
        p := [folded];
        One(folded);
      }
    }

    lemma {:induction false} ExpandAllSound(keys: seq<string>, visiting: set<string>,
                                            kind: string) returns (p: seq<string>)
      requires kind in Elements(ExpandAll(keys, visiting))
      ensures p != [] && p[0] in Elements(Folded(keys, fold)) && Supplies(p, p[0], visiting, kind)
      decreases sets.Keys - visiting, 1, |keys|
    {
      var front, last := keys[..|keys| - 1], keys[|keys| - 1];
      AddNewIs(ExpandAll(front, visiting), ExpandSet(last, visiting));
      FoldedSnoc(keys, fold);
      if kind in Elements(ExpandAll(front, visiting)) {
        p := ExpandAllSound(front, visiting, kind);
      } else {
        p := ExpandSound(last, visiting, kind);
      }
    }

    lemma {:induction false} ExpandComplete(key: string, visiting: set<string>, kind: string, p: seq<string>)
      requires Supplies(p, fold(key), visiting, kind)
      ensures kind in Elements(ExpandSet(key, visiting))
      decreases sets.Keys - visiting, 0, 0
    {
      var folded := fold(key);
      var entry := sets[folded];
      var nested := ExpandAll(entry.sets, visiting + {folded});
      AddNewIs(nested, Producible(entry.kinds));
      ProducibleAre(entry.kinds);
      if |p| > 1 {
        ExpandAllComplete(entry.sets, visiting + {folded}, kind, p[1..]);
      }
    }

    lemma {:induction false} ExpandAllComplete(keys: seq<string>, visiting: set<string>, kind: string, p: seq<string>)
      requires p != [] && p[0] in Elements(Folded(keys, fold)) && Supplies(p, p[0], visiting, kind)
      ensures kind in Elements(ExpandAll(keys, visiting))
      decreases sets.Keys - visiting, 1, |keys|
    {
      var front, last := keys[..|keys| - 1], keys[|keys| - 1];
      AddNewIs(ExpandAll(front, visiting), ExpandSet(last, visiting));
      FoldedSnoc(keys, fold);
      if p[0] == fold(last) {
        ExpandComplete(last, visiting, kind, p);
      } else {
        ExpandAllComplete(front, visiting, kind, p);
      }
    }

    lemma {:induction false} ExpandDistinct(key: string, visiting: set<string>)
      ensures Distinct(ExpandSet(key, visiting))
      decreases sets.Keys - visiting, 0, 0
    {
      var folded := fold(key);
      if folded in sets && !sets[folded].deleted && folded !in visiting {
        ExpandAllDistinct(sets[folded].sets, visiting + {folded});
        AddNewIs(ExpandAll(sets[folded].sets, visiting + {folded}), Producible(sets[folded].kinds));
      }
    }

    lemma {:induction false} ExpandAllDistinct(keys: seq<string>, visiting: set<string>)
      ensures Distinct(ExpandAll(keys, visiting))
      decreases sets.Keys - visiting, 1, |keys|
    {
      if keys != [] {
        ExpandAllDistinct(keys[..|keys| - 1], visiting);
        AddNewIs(ExpandAll(keys[..|keys| - 1], visiting), ExpandSet(keys[|keys| - 1], visiting));
      }
    }

    /** A live set reachable from `key` through live sets names this kind, and the kind is known. */
    ghost predicate Reachable(key: string, kind: string) {
      kind in known && exists n :: Live(n) && Reaches(Links(), fold(key), n) && kind in Elements(sets[n].kinds)
    }

    /** On every graph, cyclic ones included: no duplicates, and exactly the known kinds of the live sets
        reachable through live sets. */
    lemma ExpansionIsReachability(key: string)
      ensures Distinct(ExpandSet(key, {}))
      ensures forall kind :: kind in Elements(ExpandSet(key, {})) <==> Reachable(key, kind)
    {
      ExpandDistinct(key, {});
      forall kind
        ensures kind in Elements(ExpandSet(key, {})) <==> Reachable(key, kind)
      {
        if kind in Elements(ExpandSet(key, {})) {
          var p := ExpandSound(key, {}, kind);
          assert WalkTo(Links(), p, fold(key), Last(p));
          assert Live(Last(p)) && Reaches(Links(), fold(key), Last(p));
        }
        if Reachable(key, kind) {
          var n :| Live(n) && Reaches(Links(), fold(key), n) && kind in Elements(sets[n].kinds);
          var w :| WalkTo(Links(), w, fold(key), n);
          var p := Shorten(Links(), w);
          ExpandComplete(key, {}, kind, p);
        }
      }
    }

    /** Nested kinds come before own ones: the expansion is that of the nested sets, and then the set's own kinds
        that can be produced and that these did not bring, once each and in first-seen order. */
    lemma NestedLead(key: string)
      requires Live(fold(key))
      ensures var entry, nested := sets[fold(key)], ExpandAll(sets[fold(key)].sets, {fold(key)});
        ExpandSet(key, {}) == nested + Without(FirstSeen(Producible(entry.kinds)), Elements(nested))
    {
      var entry, visiting := sets[fold(key)], {} + {fold(key)};
      assert visiting == {fold(key)};
      AddNewInOrder(ExpandAll(entry.sets, visiting), Producible(entry.kinds));
    }

    /** The nested sets in their order: each adds, in the order of its own expansion, what those before it did not
        bring. */
    lemma NestedInOrder(keys: seq<string>, visiting: set<string>, n: nat)
      requires n < |keys|
      ensures ExpandAll([], visiting) == []
      ensures var before := ExpandAll(keys[..n], visiting);
        ExpandAll(keys[..n + 1], visiting) == before + Without(ExpandSet(keys[n], visiting), Elements(before))
    {
      assert keys[..n + 1][..n] == keys[..n];
      AddNewInOrder(ExpandAll(keys[..n], visiting), ExpandSet(keys[n], visiting));
      ExpandDistinct(keys[n], visiting);
      AlreadyDistinct(ExpandSet(keys[n], visiting));
    }

    // ----- terms with their sets expanded

    function WithSets(kinds: seq<string>, names: seq<string>): seq<string>
      decreases |names|
    {
      if names == [] then kinds else WithSets(AddNew(kinds, ExpandSet(names[0], {})), names[1..])
    }

    /** The live terms whose own kinds are all known, each with the kinds its sets bring. */
    function Effective(terms: seq<TermEntry>): seq<(TermEntry, seq<string>)> {
      if terms == [] then []
      else
        var t := terms[0];
        var here := if t.deleted || Without(t.kinds, known) != [] then [] else [(t, WithSets(t.kinds, t.sets))];
        here + Effective(terms[1..])
    }

    lemma {:induction false} WithSetsIs(kinds: seq<string>, names: seq<string>)
      ensures forall kind :: kind in Elements(WithSets(kinds, names)) <==>
                kind in Elements(kinds) || exists name :: name in Elements(names) && Reachable(name, kind)
      decreases |names|
    {
      if names != [] {
        var more := AddNew(kinds, ExpandSet(names[0], {}));
        AddNewIs(kinds, ExpandSet(names[0], {}));
        ExpansionIsReachability(names[0]);
        WithSetsIs(more, names[1..]);
        forall kind
          ensures kind in Elements(WithSets(kinds, names)) <==>
                    kind in Elements(kinds) || exists name :: name in Elements(names) && Reachable(name, kind)
        {
          assert (exists name :: name in Elements(names) && Reachable(name, kind)) <==>
                 Reachable(names[0], kind) || exists name :: name in Elements(names[1..]) && Reachable(name, kind);
        }
      }
    }

    /** The sets of a term in their order: each adds what its own kinds and the sets before did not bring. */
    lemma {:induction false} WithSetsInOrder(kinds: seq<string>, names: seq<string>, name: string)
      ensures WithSets(kinds, []) == kinds
      ensures var before := WithSets(kinds, names);
        WithSets(kinds, names + [name]) == before + Without(ExpandSet(name, {}), Elements(before))
      decreases |names|
    {
      if names == [] {
        assert [] + [name] == [name] && [name][1..] == [];
        AddNewInOrder(kinds, ExpandSet(name, {}));
        ExpandDistinct(name, {});
        AlreadyDistinct(ExpandSet(name, {}));
      } else {
        assert (names + [name])[1..] == names[1..] + [name];
        WithSetsInOrder(AddNew(kinds, ExpandSet(names[0], {})), names[1..], name);
      }
    }

    lemma {:induction false} WithSetsKnown(kinds: seq<string>, names: seq<string>)
      requires Elements(kinds) <= known
      ensures Elements(WithSets(kinds, names)) <= known
      decreases |names|
    {
      if names != [] {
        AddNewIs(kinds, ExpandSet(names[0], {}));
        ExpansionIsReachability(names[0]);
        WithSetsKnown(AddNew(kinds, ExpandSet(names[0], {})), names[1..]);
      }
    }

    /** The visible terms whose own kinds can all be produced, in order. */
    function Accepted(terms: seq<TermEntry>): seq<TermEntry> {
      if terms == [] then []
      else (if !terms[0].deleted && Elements(terms[0].kinds) <= known then [terms[0]] else []) + Accepted(terms[1..])
    }

    /** Each is kept in its place, or passed over. */
    lemma {:induction false} AcceptedEach(terms: seq<TermEntry>, term: TermEntry)
      ensures Accepted([]) == []
      ensures Accepted(terms + [term]) ==
              Accepted(terms)
              + if !term.deleted && (forall kind :: kind in Elements(term.kinds) ==> kind in known) then [term] else []
    {
      var last := if !term.deleted && Elements(term.kinds) <= known then [term] else [];
      if terms == [] {
        assert [] + [term] == [term] && [term][1..] == [] && last + [] == last && [] + last == last;
      } else {
        assert (terms + [term])[1..] == terms[1..] + [term];
        AcceptedEach(terms[1..], term);
        var first := if !terms[0].deleted && Elements(terms[0].kinds) <= known then [terms[0]] else [];
        Regroup(first, Accepted(terms[1..]), last);
      }
    }

    /** What the matcher gets of a term: its own kinds and those its sets reach, none of them unknown. */
    ghost predicate Served(term: TermEntry, kinds: seq<string>) {
      && Elements(kinds) <= known
      && forall kind :: kind in Elements(kinds) <==>
           kind in Elements(term.kinds) || exists name :: name in Elements(term.sets) && Reachable(name, kind)
    }

    /** The matcher gets exactly the accepted terms, in order and each once, and each with exactly its own kinds and
        those its sets reach. */
    lemma {:induction false} EffectiveIs(terms: seq<TermEntry>)
      ensures |Effective(terms)| == |Accepted(terms)|
      ensures forall i :: 0 <= i < |Effective(terms)| ==>
        && Effective(terms)[i].0 == Accepted(terms)[i] && Served(Accepted(terms)[i], Effective(terms)[i].1)
        && Effective(terms)[i].1 == WithSets(Accepted(terms)[i].kinds, Accepted(terms)[i].sets)
    {
      if terms != [] {
        EffectiveIs(terms[1..]);
        var t := terms[0];
        WithSetsIs(t.kinds, t.sets);
        WithoutMembers(t.kinds, known);
        NoElements(Without(t.kinds, known));
        if Elements(t.kinds) <= known {
          WithSetsKnown(t.kinds, t.sets);
        }
      }
    }

    /** The names whose folded identity is not a live set. */
    function NotLive(names: seq<string>): seq<string> {
      if names == [] then [] else (if Live(fold(names[0])) then [] else [names[0]]) + NotLive(names[1..])
    }

    /** Name by name, in order. */
    lemma {:induction false} NotLiveEach(names: seq<string>, name: string)
      ensures NotLive([]) == []
      ensures NotLive(names + [name]) ==
              NotLive(names) + if fold(name) in sets && !sets[fold(name)].deleted then [] else [name]
    {
      var last := if Live(fold(name)) then [] else [name];
      if names == [] {
        assert [] + [name] == [name] && [name][1..] == [] && last + [] == last && [] + last == last;
      } else {
        assert (names + [name])[1..] == names[1..] + [name];
        NotLiveEach(names[1..], name);
        Regroup(if Live(fold(names[0])) then [] else [names[0]], NotLive(names[1..]), last);
      }
    }

    // ----- the cycle check before a write

    /** The path from `target` round to `target` that the check would name, if the walk finds one. */
    function FindPath(target: string, current: string, path: seq<string>, seen: set<string>): Option<seq<string>>
      decreases sets.Keys - seen, 0, 0
    {
      if current == target then Some(path + [current])
      else if current in seen || current !in sets || sets[current].deleted then None
      else FindPathAll(target, sets[current].sets, path + [current], seen + {current})
    }

    function FindPathAll(target: string, names: seq<string>, path: seq<string>, seen: set<string>): Option<seq<string>>
      decreases sets.Keys - seen, 1, |names|
    {
      if names == [] then None
      else
        var first := FindPath(target, fold(names[0]), path, seen);
        if first.Some? then first else FindPathAll(target, names[1..], path, seen)
    }

    /** The cycle that `key` with the given nested sets would close, in folded identities, or none. */
    function CheckCycle(key: string, nested: seq<string>): Option<seq<string>> {
      FindPathAll(fold(key), nested, [fold(key)], {})
    }

    lemma {:induction false} FindPathSound(target: string, current: string, path: seq<string>, seen: set<string>)
      returns (p: seq<string>)
      requires FindPath(target, current, path, seen).Some?
      ensures WalkTo(Links(), p, current, target)
      ensures FindPath(target, current, path, seen).value == path + p
      decreases sets.Keys - seen, 0, 0
    {
      if current == target {
        p := [current];
      } else {
        var rest := FindPathAllSound(target, sets[current].sets, path + [current], seen + {current});
        p := [current] + rest;
      }
    }

    lemma {:induction false} FindPathAllSound(target: string, names: seq<string>, path: seq<string>, seen: set<string>)
      returns (p: seq<string>)
      requires FindPathAll(target, names, path, seen).Some?
      ensures p != [] && p[0] in Elements(Folded(names, fold)) && WalkTo(Links(), p, p[0], target)
      ensures FindPathAll(target, names, path, seen).value == path + p
      decreases sets.Keys - seen, 1, |names|
    {
      if FindPath(target, fold(names[0]), path, seen).Some? {
        p := FindPathSound(target, fold(names[0]), path, seen);
      } else {
        p := FindPathAllSound(target, names[1..], path, seen);
      }
    }

    lemma {:induction false} FindPathComplete(target: string, current: string, path: seq<string>,
                                              seen: set<string>, p: seq<string>)
      requires WalkTo(Links(), p, current, target) && Distinct(p) && Elements(p) !! seen
      ensures FindPath(target, current, path, seen).Some?
      decreases sets.Keys - seen, 0, 0
    {
      if current != target {
        FindPathAllComplete(target, sets[current].sets, path + [current], seen + {current}, p[1..]);
      }
    }

    lemma {:induction false} FindPathAllComplete(target: string, names: seq<string>, path: seq<string>,
                                                 seen: set<string>,
                                                 p: seq<string>)
      requires p != [] && p[0] in Elements(Folded(names, fold))
      requires WalkTo(Links(), p, p[0], target) && Distinct(p) && Elements(p) !! seen
      ensures FindPathAll(target, names, path, seen).Some?
      decreases sets.Keys - seen, 1, |names|
    {
      if p[0] == fold(names[0]) {
        FindPathComplete(target, fold(names[0]), path, seen, p);
      } else {
        FindPathAllComplete(target, names[1..], path, seen, p);
      }
    }

    /** The check refuses exactly when a proposed nested set reaches `key` through live sets, whatever
        cycles there are elsewhere; and the path it names is a genuine cycle through `key`. */
    lemma CheckCycleIs(key: string, nested: seq<string>)
      ensures CheckCycle(key, nested).Some? <==>
              exists y :: y in Elements(Folded(nested, fold)) && Reaches(Links(), y, fold(key))
      ensures CheckCycle(key, nested).Some? ==>
        var c := CheckCycle(key, nested).value;
        && |c| > 1 && c[0] == Last(c) == fold(key)
        && c[1] in Elements(Folded(nested, fold)) && Walk(Links(), c[1..])
    {
      var target := fold(key);
      if CheckCycle(key, nested).Some? {
        var p := FindPathAllSound(target, nested, [target], {});
        assert ([target] + p)[1..] == p;
        assert Reaches(Links(), p[0], target);
      }
      if y :| y in Elements(Folded(nested, fold)) && Reaches(Links(), y, target) {
        var w :| WalkTo(Links(), w, y, target);
        var p := Shorten(Links(), w);
        FindPathAllComplete(target, nested, [target], {}, p);
      }
    }

    /** A set that passes the check keeps an acyclic graph acyclic, a revived tombstone included; one that
        does not pass would close a cycle. */
    lemma PutKeepsAcyclicIff(key: string, entry: SetEntry)
      requires Acyclic(Links()) && !entry.deleted
      ensures Acyclic(SetGraph(sets[fold(key) := entry], fold, known).Links()) <==> CheckCycle(key, entry.sets).None?
    {
      var after := SetGraph(sets[fold(key) := entry], fold, known);
      assert after.Links() == Links()[fold(key) := Folded(entry.sets, fold)];
      UpdateAcyclicIff(Links(), fold(key), Folded(entry.sets, fold));
      CheckCycleIs(key, entry.sets);
    }

    /** Deleting a set, to a tombstone or outright, keeps an acyclic graph acyclic. */
    lemma DeleteKeepsAcyclic(k: string, tombstone: SetEntry)
      requires Acyclic(Links()) && tombstone.deleted
      ensures Acyclic(SetGraph(sets[k := tombstone], fold, known).Links())
      ensures Acyclic(SetGraph(sets - {k}, fold, known).Links())
    {
      LinksBuried(k, tombstone);
      LinksRemoved(k);
      RemoveKeepsAcyclic(Links(), k);
    }

    lemma LinksBuried(k: string, tombstone: SetEntry)
      requires tombstone.deleted
      ensures SetGraph(sets[k := tombstone], fold, known).Links() == Links() - {k}
    {
    }

    lemma LinksRemoved(k: string)
      ensures SetGraph(sets - {k}, fold, known).Links() == Links() - {k}
    {
    }
  }

  lemma {:induction false} FoldedSnoc(names: seq<string>, fold: string -> string)
    requires names != []
    ensures Elements(Folded(names, fold)) == Elements(Folded(names[..|names| - 1], fold)) + {fold(names[|names| - 1])}
  {
    if |names| > 1 {
      FoldedSnoc(names[1..], fold);
      assert names[1..][..|names| - 2] == names[..|names| - 1][1..];
    }
  }
}
