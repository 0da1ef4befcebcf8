/** Shipped defaults overlaid by a person's raw edits, and the writes to those edits:
    wing_parser/classifier/vocabulary_store.py and the class of wing_parser/classifier/vocabulary.py.

    The parsed document is the input: a section is a dict in document order, keyed by what was typed. */
module VocabularyStore {
  import opened Results
  import opened Sequences
  import opened Graphs
  import opened NestedSets

  // ----- sections and merging, the same for sets and for terms

  type Section<R> = seq<(string, R)>

  /** How raw entries are read: `parse` fails on a malformed one, `shadow` gives an override the key the
      entry it replaces is shown under. */
  datatype Reader<!R, !E> = Reader(fold: string -> string, parse: (string, R) -> Option<E>, deleted: E -> bool,
                                   shadow: (E, E) -> E)

  /** The section without every spelling of `key`. */
  function PopMatching<R>(section: Section<R>, fold: string -> string, key: string): Section<R> {
    if section == [] then []
    else if fold(section[0].0) == fold(key) then PopMatching(section[1..], fold, key)
    else [section[0]] + PopMatching(section[1..], fold, key)
  }

  /** Defaults, then each raw entry in document order at its folded identity. */
  function Merge<R, E>(defaults: map<string, E>, section: Section<R>, reader: Reader<R, E>): (m: map<string, E>)
    ensures defaults.Keys <= m.Keys
  {
    if section == [] then defaults
    else
      var before := Merge(defaults, section[..|section| - 1], reader);
      var (key, raw) := section[|section| - 1];
      match reader.parse(key, raw)
      case None => before
      case Some(e) => before[reader.fold(key) := Placed(defaults, before, reader, key, e)]
  }

  function Placed<R, E>(defaults: map<string, E>, current: map<string, E>, reader: Reader<R, E>, key: string, e: E): E
    requires defaults.Keys <= current.Keys
  {
    if !reader.deleted(e) && reader.fold(key) in defaults then reader.shadow(e, current[reader.fold(key)]) else e
  }

  /** What the merged map holds at one identity. */
  function At<E>(m: map<string, E>, k: string): Option<E> {
    if k in m then Some(m[k]) else None
  }

  /** Popping a key puts the default back at its identity, or nothing, and changes nothing elsewhere,
      whatever spellings were there. */
  lemma {:induction false} PopIs<R, E>(defaults: map<string, E>, section: Section<R>, reader: Reader<R, E>,
                                       key: string, k: string)
    ensures At(Merge(defaults, PopMatching(section, reader.fold, key), reader), k) ==
            if k == reader.fold(key) then At(defaults, k) else At(Merge(defaults, section, reader), k)
  {
    if section != [] {
      var front, last := section[..|section| - 1], section[|section| - 1];
      assert section == front + [last];
      PopSnoc(front, last, reader.fold, key);
      PopIs(defaults, front, reader, key, k);
      PopIs(defaults, front, reader, key, reader.fold(last.0));
      if reader.fold(last.0) == reader.fold(key) {
        assert PopMatching(section, reader.fold, key) == PopMatching(front, reader.fold, key);
      } else {
        MergeSnoc(defaults, PopMatching(front, reader.fold, key), last, reader);
      }
      MergeSnoc(defaults, front, last, reader);
    }
  }

  lemma MergeSnoc<R, E>(defaults: map<string, E>, front: Section<R>, last: (string, R), reader: Reader<R, E>)
    ensures Merge(defaults, front + [last], reader) ==
      var before, e := Merge(defaults, front, reader), reader.parse(last.0, last.1);
      if e.None? then before else before[reader.fold(last.0) := Placed(defaults, before, reader, last.0, e.value)]
  {
    assert (front + [last])[..|front|] == front;
  }

  lemma {:induction false} PopSnoc<R>(front: Section<R>, last: (string, R), fold: string -> string, key: string)
    ensures PopMatching(front + [last], fold, key) ==
            PopMatching(front, fold, key) + if fold(last.0) == fold(key) then [] else [last]
  {
    if front == [] {
      assert front + [last] == [last];
      assert [last][1..] == [];
    } else {
      assert (front + [last])[1..] == front[1..] + [last];
      PopSnoc(front[1..], last, fold, key);
    }
  }

  /** A reset: the merged map changes at the folded key alone, to the default or to nothing. */
  lemma ResetIs<R, E>(defaults: map<string, E>, section: Section<R>, reader: Reader<R, E>, key: string)
    ensures var f := reader.fold(key);
      var before := Merge(defaults, section, reader);
      var after := Merge(defaults, PopMatching(section, reader.fold, key), reader);
      after == if f in defaults then before[f := defaults[f]] else before - {f}
  {
    var f := reader.fold(key);
    var before := Merge(defaults, section, reader);
    var after := Merge(defaults, PopMatching(section, reader.fold, key), reader);
    var want := if f in defaults then before[f := defaults[f]] else before - {f};
    forall k
      ensures At(after, k) == At(want, k)
    {
      PopIs(defaults, section, reader, key, k);
    }
    SameMap(after, want);
  }

  lemma SameMap<E>(m: map<string, E>, n: map<string, E>)
    requires forall k :: At(m, k) == At(n, k)
    ensures m == n
  {
    forall k
      ensures k in m <==> k in n
      ensures k in m ==> m[k] == n[k]
    {
      assert At(m, k) == At(n, k);
    }
  }

  /** A write: the merged map changes at the folded key alone, to the entry written; one that replaces a
      default is shown under the default's own key. */
  lemma WriteIs<R, E>(defaults: map<string, E>, section: Section<R>, reader: Reader<R, E>, key: string, raw: R, e: E)
    requires reader.parse(key, raw) == Some(e)
    ensures var f := reader.fold(key);
      var before := Merge(defaults, section, reader);
      var after := Merge(defaults, PopMatching(section, reader.fold, key) + [(key, raw)], reader);
      after == before[f := if !reader.deleted(e) && f in defaults then reader.shadow(e, defaults[f]) else e]
  {
    var f := reader.fold(key);
    var popped := PopMatching(section, reader.fold, key);
    MergeSnoc(defaults, popped, (key, raw), reader);
    ResetIs(defaults, section, reader, key);
    var before, reset := Merge(defaults, section, reader), Merge(defaults, popped, reader);
    var placed := Placed(defaults, reset, reader, key, e);
    assert reset[f := placed] == before[f := placed];
  }

  /** The entry is read, and lands at the identity. */
  ghost predicate LandsAt<R, E>(reader: Reader<R, E>, entry: (string, R), k: string) {
    reader.fold(entry.0) == k && reader.parse(entry.0, entry.1).Some?
  }

  /** The i-th entry is the last to land there. */
  ghost predicate LandsLast<R, E>(section: Section<R>, reader: Reader<R, E>, k: string, i: nat) {
    && i < |section| && LandsAt(reader, section[i], k)
    && forall j :: i < j < |section| ==> !LandsAt(reader, section[j], k)
  }

  /** At each identity the last entry read decides, over a default shown under the key of what it replaces; where none
      lands the default stays. */
  lemma {:induction false} MergeIs<R, E>(defaults: map<string, E>, section: Section<R>, reader: Reader<R, E>,
                                         k: string, i: nat)
    ensures (forall j :: 0 <= j < |section| ==> !LandsAt(reader, section[j], k)) ==>
              At(Merge(defaults, section, reader), k) == At(defaults, k)
    ensures LandsLast(section, reader, k, i) ==>
      var e, before := reader.parse(section[i].0, section[i].1).value, Merge(defaults, section[..i], reader);
      At(Merge(defaults, section, reader), k) ==
        Some(if !reader.deleted(e) && k in defaults then reader.shadow(e, before[k]) else e)
    decreases |section|
  {
    hide Placed;
    if section != [] {
      var n := |section| - 1;
      MergeIs(defaults, section[..n], reader, k, i);
      LastLands(defaults, section, reader, k);
      if i < n { assert section[..n][..i] == section[..i]; }
    }
  }

  lemma LastLands<R, E>(defaults: map<string, E>, section: Section<R>, reader: Reader<R, E>, k: string)
    requires section != []
    ensures var last, before := section[|section| - 1], Merge(defaults, section[..|section| - 1], reader);
      At(Merge(defaults, section, reader), k) ==
        if !LandsAt(reader, last, k) then At(before, k)
        else
          var e := reader.parse(last.0, last.1).value;
          Some(if !reader.deleted(e) && k in defaults then reader.shadow(e, before[k]) else e)
  {
  }

  // ----- raw sets

  datatype RawList = Absent | Text(text: string) | Items(items: seq<string>)

  datatype RawSet =
    | NotMapping
    | Mapping(deleted: bool, caption: Option<string>, kinds: RawList, sets: RawList, origin: Option<string>)

  function Listed(raw: RawList): seq<string> {
    if raw.Items? then raw.items else []
  }

  function Or(value: Option<string>, other: string): string {
    if value.Some? then value.value else other
  }

  /** A tombstone wins over a malformed list; a text where a list belongs is malformed. */
  function SetFromUser(key: string, raw: RawSet): Option<SetEntry> {
    if raw.NotMapping? then None
    else if raw.deleted then Some(Tombstone(key))
    else if raw.kinds.Text? || raw.sets.Text? then None
    else Some(SetEntry(key, Or(raw.caption, key), Listed(raw.kinds), Listed(raw.sets), Or(raw.origin, "manual"),
                       false, false))
  }

  function Tombstone(key: string): SetEntry {
    SetEntry(key, "", [], [], "manual", false, true)
  }

  /** What a person's entry is read as: a tombstone whatever else it says, nothing when it is no mapping or gives a text
      for a list, and otherwise the set it describes, named by its key and of manual origin unless it says so. */
  lemma RawSetIs(key: string, raw: RawSet)
    ensures raw.Mapping? && raw.deleted ==>
      SetFromUser(key, raw) == Some(SetEntry(key, "", [], [], "manual", false, true))
    ensures SetFromUser(key, raw).None? <==>
      raw.NotMapping? || (!raw.deleted && (raw.kinds.Text? || raw.sets.Text?))
    ensures raw.Mapping? && !raw.deleted && SetFromUser(key, raw).Some? ==>
      var entry := SetFromUser(key, raw).value;
      && entry.key == key && !entry.deleted && !entry.shadowsDefault
      && entry.kinds == (match raw.kinds case Items(items) => items case _ => [])
      && entry.sets == (match raw.sets case Items(items) => items case _ => [])
      && entry.caption == (match raw.caption case Some(caption) => caption case None => key)
      && entry.origin == (match raw.origin case Some(origin) => origin case None => "manual")
  {
  }

  function Shadowing(e: SetEntry, current: SetEntry): SetEntry {
    e.(key := current.key, shadowsDefault := true)
  }

  function SetReader(fold: string -> string): Reader<RawSet, SetEntry> {
    Reader(fold, SetFromUser, (e: SetEntry) => e.deleted, Shadowing)
  }

  datatype Refusal = UnknownKinds(kinds: seq<string>) | UnknownSets(sets: seq<string>) | Cycle(path: seq<string>)

  // ----- the vocabulary and its writes

  class Vocabulary {
    const defaults: map<string, SetEntry>
    const fold: string -> string
    const known: set<string>
    var section: Section<RawSet>
    var sets: map<string, SetEntry>

    /** The sets shown are always those merged from what is stored. */
    ghost predicate Valid()
      reads this
    {
      && sets == Merge(defaults, section, SetReader(fold))
      && forall k :: k in defaults ==> !defaults[k].deleted
    }

    function Model(): SetGraph
      reads this
    {
      SetGraph(sets, fold, known)
    }

    constructor (defaults: map<string, SetEntry>, fold: string -> string, known: set<string>, section: Section<RawSet>)
      requires forall k :: k in defaults ==> !defaults[k].deleted
      ensures Valid()
      ensures this.defaults == defaults && this.fold == fold && this.known == known && this.section == section
    {
      this.defaults := defaults;
      this.fold := fold;
      this.known := known;
      this.section := section;
      this.sets := Merge(defaults, section, SetReader(fold));
    }

    /** What `PutSet` refuses first: an unknown kind, an unknown set, a cycle. */
    function Refused(key: string, kinds: seq<string>, nested: seq<string>): Option<Refusal>
      reads this
    {
      if Without(kinds, known) != [] then Some(UnknownKinds(Without(kinds, known)))
      else if Model().NotLive(nested) != [] then Some(UnknownSets(Model().NotLive(nested)))
      else
        var cycle := Model().CheckCycle(key, nested);
        if cycle.Some? then Some(Cycle(cycle.value)) else None
    }

    /** Every refusal at once; a cycle is looked for only among known names. */
    function DryRun(key: string, kinds: seq<string>, nested: seq<string>): seq<Refusal>
      reads this
    {
      var names :=
        (if Without(kinds, known) == [] then [] else [UnknownKinds(Without(kinds, known))])
        + if Model().NotLive(nested) == [] then [] else [UnknownSets(Model().NotLive(nested))];
      if names != [] then names
      else
        var cycle := Model().CheckCycle(key, nested);
        if cycle.Some? then [Cycle(cycle.value)] else []
    }

    /** The dry run is empty exactly when the write would pass, and leads with what it would raise. */
    lemma DryRunAgrees(key: string, kinds: seq<string>, nested: seq<string>)
      ensures DryRun(key, kinds, nested) == [] <==> Refused(key, kinds, nested).None?
      ensures Refused(key, kinds, nested).Some? ==> DryRun(key, kinds, nested)[0] == Refused(key, kinds, nested).value
    {
    }

    /** Every name stands for a live set. */
    ghost predicate AllLive(nested: seq<string>)
      reads this
    {
      forall i :: 0 <= i < |nested| ==> fold(nested[i]) in sets && !sets[fold(nested[i])].deleted
    }

    lemma {:induction false} NotLiveIff(nested: seq<string>)
      ensures Model().NotLive(nested) == [] <==> AllLive(nested)
    {
      if nested != [] {
        NotLiveIff(nested[1..]);
        assert forall i :: 1 <= i < |nested| ==> nested[i] == nested[1..][i - 1];
      }
    }

    /** The refusals and when each comes: unknown kinds first, then names of no live set, then a cycle that the write
        would close. */
    lemma RefusedIs(key: string, kinds: seq<string>, nested: seq<string>)
      ensures var refusal := Refused(key, kinds, nested);
        && (!(Elements(kinds) <= known) ==> refusal == Some(UnknownKinds(Without(kinds, known))))
        && (Elements(kinds) <= known && !AllLive(nested) ==> refusal == Some(UnknownSets(Model().NotLive(nested))))
        && (Elements(kinds) <= known && AllLive(nested) ==>
              (refusal.Some? <==>
                 exists y :: y in Elements(Folded(nested, fold)) && Reaches(Model().Links(), y, fold(key)))
              && (refusal.Some? ==>
                    refusal.value.Cycle? && |refusal.value.path| > 1
                    && refusal.value.path[0] == Last(refusal.value.path) == fold(key)
                    && Walk(Model().Links(), refusal.value.path[1..])))
    {
      NotLiveIff(nested);
      WithoutMembers(kinds, known);
      NoElements(Without(kinds, known));
      Model().CheckCycleIs(key, nested);
    }

    /** The dry run names all unknown kinds and all names of no live set, and a cycle when there are none of these. */
    lemma DryRunIs(key: string, kinds: seq<string>, nested: seq<string>)
      ensures var unknown, missing := Without(kinds, known), Model().NotLive(nested);
        DryRun(key, kinds, nested) ==
          if unknown != [] && missing != [] then [UnknownKinds(unknown), UnknownSets(missing)]
          else if unknown != [] then [UnknownKinds(unknown)]
          else if missing != [] then [UnknownSets(missing)]
          else match Model().CheckCycle(key, nested) case Some(path) => [Cycle(path)] case None => []
    {
    }

    /** A passing write changes the merged sets at the folded key alone and keeps them acyclic, a revived
        tombstone included; a refused one changes nothing. */
    method PutSet(key: string, caption: string, kinds: seq<string>, nested: seq<string>, origin: string)
      returns (refusal: Option<Refusal>)
      requires Valid()
      modifies this
      ensures Valid() && refusal == old(Refused(key, kinds, nested))
      ensures refusal.Some? ==> section == old(section) && sets == old(sets)
      ensures refusal.None? ==>
        var shown := if fold(key) in defaults then defaults[fold(key)].key else key;
        sets == old(sets)[fold(key) := SetEntry(shown, caption, kinds, nested, origin, fold(key) in defaults, false)]
      ensures old(Acyclic(Model().Links())) ==> Acyclic(Model().Links())
    {
      refusal := Refused(key, kinds, nested);
      if refusal.Some? { return; }
      ghost var before := Model();
      var raw := Mapping(false, Some(caption), Items(kinds), Items(nested), Some(origin));
      WriteIs(defaults, section, SetReader(fold), key, raw, SetFromUser(key, raw).value);
      section := PopMatching(section, fold, key);
      section := section + [(key, raw)];
      sets := Merge(defaults, section, SetReader(fold));
      if Acyclic(before.Links()) {
        before.PutKeepsAcyclicIff(key, sets[fold(key)]);
      }
    }

    /** A default leaves a tombstone behind, decided from the shipped keys, so deleting twice revives
        nothing; any other entry is gone. */
    method DeleteSet(key: string)
      requires Valid()
      modifies this
      ensures Valid()
      ensures sets == if fold(key) in defaults then old(sets)[fold(key) := Tombstone(key)] else old(sets) - {fold(key)}
      ensures old(Acyclic(Model().Links())) ==> Acyclic(Model().Links())
    {
      ghost var before := Model();
      if fold(key) in defaults {
        var raw := Mapping(true, None, Absent, Absent, None);
        WriteIs(defaults, section, SetReader(fold), key, raw, Tombstone(key));
        section := PopMatching(section, fold, key);
        section := section + [(key, raw)];
      } else {
        ResetIs(defaults, section, SetReader(fold), key);
        section := PopMatching(section, fold, key);
      }
      sets := Merge(defaults, section, SetReader(fold));
      if Acyclic(before.Links()) {
        before.DeleteKeepsAcyclic(fold(key), Tombstone(key));
      }
    }

    /** The default shows through again, or nothing does. No check is made: the sets stay acyclic exactly
        when the check would have passed for the default's own nested sets. */
    method ResetSet(key: string)
      requires Valid()
      modifies this
      ensures Valid()
      ensures sets ==
              if fold(key) in defaults then old(sets)[fold(key) := defaults[fold(key)]] else old(sets) - {fold(key)}
      ensures old(Acyclic(Model().Links())) ==>
        (Acyclic(Model().Links()) <==>
           fold(key) !in defaults || old(Model().CheckCycle(key, defaults[fold(key)].sets)).None?)
    {
      ghost var before := Model();
      ResetIs(defaults, section, SetReader(fold), key);
      section := PopMatching(section, fold, key);
      sets := Merge(defaults, section, SetReader(fold));
      if Acyclic(before.Links()) {
        if fold(key) in defaults {
          before.PutKeepsAcyclicIff(key, defaults[fold(key)]);
        } else {
          before.DeleteKeepsAcyclic(fold(key), Tombstone(key));
        }
      }
    }
  }

  // ----- a reset that closes a cycle

  function Plain(key: string, nested: seq<string>): SetEntry {
    SetEntry(key, key, [], nested, "default", false, false)
  }

  /** A set that nests nothing closes no cycle, and one that nests only such a set closes none either. */
  lemma NothingNested(model: SetGraph, key: string)
    ensures model.CheckCycle(key, []).None?
  {
  }

  lemma NothingBelow(model: SetGraph, key: string, nested: string)
    requires model.fold(key) != model.fold(nested) && model.Live(model.fold(nested))
    requires model.sets[model.fold(nested)].sets == []
    ensures model.CheckCycle(key, [nested]).None?
  {
    var target, next := model.fold(key), model.fold(nested);
    assert [nested][1..] == [];
    assert model.FindPathAll(target, [], [target] + [next], {} + {next}).None?;
    assert model.FindPath(target, next, [target], {}).None?;
    assert model.FindPathAll(target, [], [target], {}).None?;
  }

  lemma StraightBack(model: SetGraph, key: string, nested: string)
    requires model.fold(key) != model.fold(nested) && model.Live(model.fold(nested))
    requires model.sets[model.fold(nested)].sets == [key]
    ensures model.CheckCycle(key, [nested]).Some?
  {
    var target, next := model.fold(key), model.fold(nested);
    assert model.FindPath(target, target, [target] + [next], {} + {next}).Some?;
    assert model.FindPathAll(target, [key], [target] + [next], {} + {next}).Some?;
    assert model.FindPath(target, next, [target], {}).Some?;
  }

  const SHIPPED := map["a" := Plain("a", ["b"]), "b" := Plain("b", [])]

  /** The shipped sets, a nesting b, are acyclic. */
  lemma ShippedAreAcyclic(fold: string -> string)
    requires fold("a") == "a" && fold("b") == "b"
    ensures Acyclic(SetGraph(SHIPPED, fold, {}).Links())
  {
    var none := SetGraph(map[], fold, {});
    var one := SetGraph(map["b" := Plain("b", [])], fold, {});
    NothingNested(none, "b");
    none.PutKeepsAcyclicIff("b", Plain("b", []));
    assert none.sets["b" := Plain("b", [])] == one.sets;
    NothingBelow(one, "a", "b");
    one.PutKeepsAcyclicIff("a", Plain("a", ["b"]));
    assert one.sets["a" := Plain("a", ["b"])] == SHIPPED;
  }

  /** The shipped entry after an edit through the program. */
  function Edited(key: string, nested: seq<string>): SetEntry {
    SetEntry(key, key, [], nested, "manual", true, false)
  }

  /** A freshly loaded vocabulary, edited so that a nests nothing any more: the edit is accepted. */
  method FirstEdit(fold: string -> string) returns (vocabulary: Vocabulary, refusal: Option<Refusal>)
    requires fold("a") == "a" && fold("b") == "b"
    ensures fresh(vocabulary) && vocabulary.Valid() && vocabulary.defaults == SHIPPED && vocabulary.fold == fold
    ensures refusal.None? && vocabulary.known == {}
    ensures vocabulary.sets == SHIPPED["a" := Edited("a", [])]
    ensures Acyclic(vocabulary.Model().Links())
  {
    vocabulary := new Vocabulary(SHIPPED, fold, {}, []);
    assert vocabulary.sets == SHIPPED;
    ShippedAreAcyclic(fold);
    NothingNested(vocabulary.Model(), "a");
    refusal := vocabulary.PutSet("a", "a", [], [], "manual");
  }

  lemma SecondPasses(model: SetGraph)
    requires model.sets == SHIPPED["a" := Edited("a", [])] && model.fold("a") == "a" && model.fold("b") == "b"
    ensures model.NotLive(["a"]) == [] && model.CheckCycle("b", ["a"]).None?
    ensures model.sets["b" := Edited("b", ["a"])] == map["a" := Edited("a", []), "b" := Edited("b", ["a"])]
  {
    NothingBelow(model, "b", "a");
    assert ["a"][1..] == [];
  }

  /** A second edit, by which b nests a, is accepted too. */
  method SecondEdit(vocabulary: Vocabulary) returns (refusal: Option<Refusal>)
    requires vocabulary.Valid() && vocabulary.defaults == SHIPPED
    requires vocabulary.fold("a") == "a" && vocabulary.fold("b") == "b"
    requires vocabulary.sets == SHIPPED["a" := Edited("a", [])] && Acyclic(vocabulary.Model().Links())
    modifies vocabulary
    ensures vocabulary.Valid() && refusal.None?
    ensures vocabulary.sets == map["a" := Edited("a", []), "b" := Edited("b", ["a"])]
    ensures Acyclic(vocabulary.Model().Links())
  {
    SecondPasses(vocabulary.Model());
    refusal := vocabulary.PutSet("b", "b", [], ["a"], "manual");
  }

  /** Resetting a after these edits brings its nesting of b back, and with it a cycle where there was none. */
  method ResetCanCloseACycle(vocabulary: Vocabulary)
    requires vocabulary.Valid() && vocabulary.defaults == SHIPPED
    requires vocabulary.fold("a") == "a" && vocabulary.fold("b") == "b"
    requires vocabulary.sets == map["a" := Edited("a", []), "b" := Edited("b", ["a"])]
    requires Acyclic(vocabulary.Model().Links())
    modifies vocabulary
    ensures vocabulary.Valid() && vocabulary.sets == old(vocabulary.sets)["a" := Plain("a", ["b"])]
    ensures !Acyclic(vocabulary.Model().Links())
  {
    StraightBack(vocabulary.Model(), "a", "b");
    vocabulary.ResetSet("a");
  }
}
