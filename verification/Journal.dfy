/** The edit journal: patches held beside a document that is never touched, and replayed on a copy of it
    (wing_parser/edit/journal.py, writer.py, repairs.py, wing_parser/ui/session.py). */
module Journal {
  import opened Results
  import opened Trees
  import opened Strings
  import opened Dicts
  import opened Documents

  /** `before` is what the document held when the patch was made; `after` is a plain value. */
  datatype Patch<V> = Patch(path: string, before: Tree<V>, after: V, because: string, caption: string)

  // ----- replaying

  /** The document with every patch written, in order; nothing when a patch finds no key. */
  ghost function Replayed<V>(document: Tree<V>, patches: seq<Patch<V>>): Option<Tree<V>> {
    if patches == [] then Some(document)
    else
      var earlier, last := Replayed(document, patches[..|patches| - 1]), patches[|patches| - 1];
      if earlier.None? then None
      else
        var written := Written(earlier.value, last.path, Leaf(last.after));
        if written.Err? then None else Some(written.value)
  }

  /** Each `before` is what the patched document held at that point. */
  ghost predicate Truthful<V>(document: Tree<V>, patches: seq<Patch<V>>) {
    patches == [] ||
    var earlier, last := patches[..|patches| - 1], patches[|patches| - 1];
    && Truthful(document, earlier) && Replayed(document, earlier).Some?
    && At(Replayed(document, earlier).value, Segments(last.path)) == Some(last.before)
  }

  lemma TruthfulReplays<V>(document: Tree<V>, patches: seq<Patch<V>>)
    requires Truthful(document, patches)
    ensures Replayed(document, patches).Some?
  {
    if patches != [] {
      var last := patches[|patches| - 1];
      ReadIsAt(Replayed(document, patches[..|patches| - 1]).value, last.path, Leaf(last.after));
    }
  }

  lemma {:induction false} PrefixReplays<V>(document: Tree<V>, patches: seq<Patch<V>>, n: nat)
    requires n <= |patches| && Replayed(document, patches).Some?
    ensures Replayed(document, patches[..n]).Some?
  {
    if n < |patches| {
      PrefixReplays(document, patches[..|patches| - 1], n);
      assert patches[..|patches| - 1][..n] == patches[..n];
    } else {
      assert patches[..n] == patches;
    }
  }

  lemma NextPatch<V>(document: Tree<V>, patches: seq<Patch<V>>, i: nat, sofar: Tree<V>)
    requires i < |patches| && Replayed(document, patches[..i]) == Some(sofar)
    ensures var written := Written(sofar, patches[i].path, Leaf(patches[i].after));
      if written.Err? then Replayed(document, patches).None?
      else Replayed(document, patches[..i + 1]) == Some(written.value)
  {
    assert patches[..i + 1][..i] == patches[..i];
    if Replayed(document, patches).Some? {
      PrefixReplays(document, patches, i + 1);
    }
  }

  /** One more patch, read from the document as it now stands. */
  lemma OneMorePatch<V>(document: Tree<V>, patches: seq<Patch<V>>, patch: Patch<V>)
    requires Truthful(document, patches) && Replayed(document, patches).Some?
    requires ReadAt(Replayed(document, patches).value, patch.path) == Ok(patch.before)
    ensures Truthful(document, patches + [patch]) && Replayed(document, patches + [patch]).Some?
    ensures Written(Replayed(document, patches).value, patch.path, Leaf(patch.after)) ==
            Ok(Replayed(document, patches + [patch]).value)
  {
    assert (patches + [patch])[..|patches|] == patches;
    ReadIsAt(Replayed(document, patches).value, patch.path, Leaf(patch.after));
  }

  /** The recorded values written back, last patch first. */
  ghost function Reverted<V>(document: Tree<V>, patches: seq<Patch<V>>): Option<Tree<V>>
    decreases |patches|
  {
    if patches == [] then Some(document)
    else
      var last := patches[|patches| - 1];
      var written := Written(document, last.path, last.before);
      if written.Err? then None else Reverted(written.value, patches[..|patches| - 1])
  }

  /** Writing the `before` values back in reverse order turns the patched document into the original. */
  lemma {:induction false} RevertRestores<V>(document: Tree<V>, patches: seq<Patch<V>>)
    requires Truthful(document, patches)
    ensures Replayed(document, patches).Some? && Reverted(Replayed(document, patches).value, patches) == Some(document)
  {
    TruthfulReplays(document, patches);
    if patches != [] {
      var earlier, last := patches[..|patches| - 1], patches[|patches| - 1];
      WriteBack(Replayed(document, earlier).value, last.path, Leaf(last.after));
      RevertRestores(document, earlier);
    }
  }

  /** No patch ever makes a key. */
  lemma {:induction false} NoKeyIsMade<V>(document: Tree<V>, patches: seq<Patch<V>>, p: Path)
    requires Truthful(document, patches) && Replayed(document, patches).Some?
    requires At(Replayed(document, patches).value, p).Some?
    ensures At(document, p).Some?
  {
    if patches != [] {
      var earlier, last := patches[..|patches| - 1], patches[|patches| - 1];
      var before := Replayed(document, earlier).value;
      ReadIsAt(before, last.path, Leaf(last.after));
      NoNewKey(before, Segments(last.path), last.after, p);
      NoKeyIsMade(document, earlier, p);
    }
  }

  // ----- the journal and the copy it is replayed on

  class EditJournal<V> {
    var entries: seq<Patch<V>>

    constructor ()
      ensures entries == []
    {
      entries := [];
    }

    method Append(patch: Patch<V>)
      modifies this
      ensures entries == old(entries) + [patch]
    {
      entries := entries + [patch];
    }

    /** The last patch, dropped; with none there is nothing to drop, and no failure. */
    method Undo() returns (patch: Option<Patch<V>>)
      modifies this
      ensures patch.None? <==> old(entries) == []
      ensures old(entries) == [] ==> entries == []
      ensures patch.Some? ==> old(entries) == entries + [patch.value]
    {
      if entries == [] {
        return None;
      }
      patch := Some(entries[|entries| - 1]);
      entries := entries[..|entries| - 1];
    }
  }

  /** `applied`: a deep copy with every patch written; the document itself is not touched. */
  method Applied<V>(root: DictNode<V>, patches: seq<Patch<V>>, ghost world: seq<DictNode<V>>)
    returns (patched: Option<DictNode<V>>, ghost copies: seq<DictNode<V>>)
    requires Dicts.Valid(world) && root == world[0]
    ensures patched.Some? <==> Replayed(Value(world), patches).Some?
    ensures patched.Some? ==>
      && Dicts.Valid(copies) && patched.value == copies[0]
      && Some(Value(copies)) == Replayed(Value(world), patches)
    ensures forall d :: d in Members(copies) ==> fresh(d)
  {
    WiredIs(world, |world|);
    var copy;
    copy, copies := DeepCopy(root, world);
    var ok := WriteAll(copy, patches, copies);
    Untouched(world);
    patched := if ok then Some(copy) else None;
  }

  /** Every patch written in place, in order; it stops at the first that finds no key. */
  method WriteAll<V>(root: DictNode<V>, patches: seq<Patch<V>>, ghost world: seq<DictNode<V>>) returns (ok: bool)
    requires Dicts.Valid(world) && root == world[0]
    modifies Members(world)
    ensures Dicts.Valid(world)
    ensures ok <==> Replayed(old(Value(world)), patches).Some?
    ensures ok ==> Replayed(old(Value(world)), patches) == Some(Value(world))
  {
    ghost var document := Value(world);
    assert patches[..0] == [];
    for i := 0 to |patches|
      invariant Dicts.Valid(world)
      invariant Replayed(document, patches[..i]) == Some(Value(world))
    {
      NextPatch(document, patches, i, Value(world));
      var written := Write(root, patches[i].path, patches[i].after, world);
      if written.Err? {
        return false;
      }
    }
    assert patches[..|patches|] == patches;
    return true;
  }

  // ----- where a patch comes from

  datatype Finding = Finding(ruleId: string, target: string, id: string)

  /** A declared repair toggles what is there, or sets it. */
  datatype Repair<V> = Toggle(path: string, caption: string) | SetTo(path: string, value: V, caption: string)

  /** The names at the even places, each with what follows it. */
  function Pairs(segments: Path): map<string, string> {
    if |segments| < 2 then map[] else map[segments[0] := segments[1]] + Pairs(segments[2..])
  }

  function PartsOf(target: string): map<string, string> {
    Pairs(Segments(target))
  }

  /** The names and numbers that a target alternates. */
  ghost function Alternating(parts: seq<(string, string)>): Path {
    if parts == [] then [] else [parts[0].0, parts[0].1] + Alternating(parts[1..])
  }

  lemma {:induction false} AlternatingFree(parts: seq<(string, string)>)
    requires forall i :: 0 <= i < |parts| ==> FreeOf(parts[i].0, '.') && FreeOf(parts[i].1, '.')
    ensures forall k :: 0 <= k < |Alternating(parts)| ==> FreeOf(Alternating(parts)[k], '.')
  {
    if parts != [] {
      AlternatingFree(parts[1..]);
      assert forall k :: 2 <= k < |Alternating(parts)| ==> Alternating(parts)[k] == Alternating(parts[1..])[k - 2];
    }
  }

  lemma {:induction false} PairsOfAlternating(parts: seq<(string, string)>, i: nat)
    requires i < |parts| && forall j :: i < j < |parts| ==> parts[j].0 != parts[i].0
    ensures parts[i].0 in Pairs(Alternating(parts)) && Pairs(Alternating(parts))[parts[i].0] == parts[i].1
    ensures Pairs(Alternating(parts)).Keys == set j | 0 <= j < |parts| :: parts[j].0
    decreases |parts|
  {
    assert Alternating(parts)[2..] == Alternating(parts[1..]);
    PairKeys(parts);
    PairKeys(parts[1..]);
    if i > 0 {
      PairsOfAlternating(parts[1..], i - 1);
    }
  }

  lemma {:induction false} PairKeys(parts: seq<(string, string)>)
    ensures Pairs(Alternating(parts)).Keys == set j | 0 <= j < |parts| :: parts[j].0
  {
    if parts != [] {
      PairKeys(parts[1..]);
      assert Alternating(parts)[2..] == Alternating(parts[1..]);
      assert forall j :: 1 <= j < |parts| ==> parts[j] == parts[1..][j - 1];
      assert forall j :: 0 <= j < |parts[1..]| ==> parts[1..][j] == parts[j + 1];
    }
  }

  /** A target's parts are found under their names, the last of equal names winning. */
  lemma PartsOfTarget(parts: seq<(string, string)>, i: nat)
    requires i < |parts| && forall j :: i < j < |parts| ==> parts[j].0 != parts[i].0
    requires forall j :: 0 <= j < |parts| ==> FreeOf(parts[j].0, '.') && FreeOf(parts[j].1, '.')
    ensures var found := PartsOf(Join(Alternating(parts), '.'));
      parts[i].0 in found && found[parts[i].0] == parts[i].1
  {
    AlternatingFree(parts);
    SplitJoin(Alternating(parts), '.');
    PairsOfAlternating(parts, i);
  }

  datatype Proposal<V> = NotDeclared | NoKey | Proposed(patch: Patch<V>)

  /** Fills the names of a template's fields in, or fails on a field it does not know. */
  type Format = (string, map<string, string>) -> Option<string>

  /** The template cannot be filled from the target, or leads nowhere in the document. */
  ghost predicate Unfillable<V>(finding: Finding, repair: Repair<V>, format: Format, document: Tree<V>) {
    var path := format(repair.path, PartsOf(finding.target));
    path.None? || At(document, Segments(path.value)).None?
  }

  /** The patch is the one the repair declares for the finding, given what it replaces. */
  ghost predicate Declares<V>(finding: Finding, repair: Repair<V>, format: Format, negate: Tree<V> -> V,
                              patch: Patch<V>) {
    && format(repair.path, PartsOf(finding.target)) == Some(patch.path)
    && patch.after == (if repair.Toggle? then negate(patch.before) else repair.value)
    && patch.because == finding.id && patch.caption == repair.caption + " (" + finding.target + ")"
  }

  /** `patch_for`: the declared repair of a finding as a patch, with `before` read from the document given.
      `format` fills a path template, `negate` is the language's `not`. */
  method PatchFor<V>(finding: Finding, repairs: map<string, Repair<V>>, format: Format, negate: Tree<V> -> V,
                     root: DictNode<V>, ghost world: seq<DictNode<V>>)
    returns (r: Proposal<V>)
    requires Dicts.Valid(world) && root == world[0]
    ensures r.NotDeclared? <==> finding.ruleId !in repairs
    ensures r.NoKey? <==>
              finding.ruleId in repairs && Unfillable(finding, repairs[finding.ruleId], format, Value(world))
    ensures r.Proposed? ==>
      && ReadAt(Value(world), r.patch.path) == Ok(r.patch.before)
      && Declares(finding, repairs[finding.ruleId], format, negate, r.patch)
  {
    if finding.ruleId !in repairs {
      return NotDeclared;
    }
    var repair := repairs[finding.ruleId];
    var path := format(repair.path, PartsOf(finding.target));
    if path.None? {
      return NoKey;
    }
    var before := ReadValue(root, path.value, world);
    if before.Err? {
      return NoKey;
    }
    var after := if repair.Toggle? then negate(before.value) else repair.value;
    r := Proposed(Patch(path.value, before.value, after, finding.id, repair.caption + " (" + finding.target + ")"));
  }

  /** A read whose result is kept as a value. */
  method ReadValue<V>(root: DictNode<V>, path: string, ghost world: seq<DictNode<V>>) returns (r: Found<Tree<V>>)
    requires Dicts.Valid(world) && root == world[0]
    ensures r == ReadAt(Value(world), path)
    ensures r.Err? <==> At(Value(world), Segments(path)).None?
  {
    ReadIsAt(Value(world), path, Value(world));
    var slot := Read(root, path, world);
    if slot.Err? {
      return Err(slot.error);
    }
    match slot.value {
      case Held(v) => r := Ok(Leaf(v));
      case Nested(d) =>
        var t := Freeze(d, world);
        r := Ok(t);
    }
  }

  lemma NothingPatched<V>(document: Tree<V>)
    ensures Truthful(document, []) && Replayed(document, []) == Some(document)
  {
  }

  // ----- the session

  datatype Repaired = Done | Undeclared | Missing

  /** A document, its journal, and what is derived from the two. `derive` stands for rebuilding the scene and
      running the advisory on the patched document. */
  class Session<V, S> {
    const original: DictNode<V>
    const derive: Tree<V> -> S
    const journal: EditJournal<V>
    ghost const world: seq<DictNode<V>>
    var scene: S

    /** The document as patched so far. */
    ghost function Current(): Tree<V>
      requires Dicts.Valid(world) && Replayed(Value(world), journal.entries).Some?
      reads this, journal, world
    {
      Replayed(Value(world), journal.entries).value
    }

    /** The journal replays on the untouched original, every `before` is true, and the scene is current. */
    ghost predicate Valid()
      reads this, journal, world
    {
      && Dicts.Valid(world) && original == world[0]
      && Truthful(Value(world), journal.entries) && Replayed(Value(world), journal.entries).Some?
      && scene == derive(Current())
    }

    constructor (document: DictNode<V>, derive: Tree<V> -> S, ghost world: seq<DictNode<V>>)
      requires Dicts.Valid(world) && document == world[0]
      ensures Valid() && this.world == world && this.derive == derive && fresh(journal)
      ensures journal.entries == [] && Current() == Value(world)
    {
      RootStack(world);
      var whole := Freeze(document, world);
      this.world, this.original, this.derive := world, document, derive;
      scene := derive(whole);
      journal := new EditJournal();
      new;
      NothingPatched(Value(world));
    }

    /** `_document`. */
    method Document() returns (document: DictNode<V>, ghost copies: seq<DictNode<V>>)
      requires Dicts.Valid(world) && original == world[0] && Replayed(Value(world), journal.entries).Some?
      ensures Dicts.Valid(copies) && document == copies[0] && Value(copies) == Current()
      ensures forall d :: d in Members(copies) ==> fresh(d)
    {
      var patched;
      patched, copies := Applied(original, journal.entries, world);
      document := patched.value;
    }

    /** The patched document as a value. */
    method Whole() returns (whole: Tree<V>)
      requires Dicts.Valid(world) && original == world[0] && Replayed(Value(world), journal.entries).Some?
      ensures whole == Current()
    {
      var document;
      ghost var copies;
      document, copies := Document();
      RootStack(copies);
      whole := Freeze(document, copies);
    }

    method Derive()
      requires Dicts.Valid(world) && original == world[0]
      requires Truthful(Value(world), journal.entries) && Replayed(Value(world), journal.entries).Some?
      modifies this`scene
      ensures Valid()
    {
      var whole := Whole();
      scene := derive(whole);
    }

    /** A patch read from the current document joins the journal. */
    method Record(patch: Patch<V>)
      requires Valid() && ReadAt(Current(), patch.path) == Ok(patch.before)
      modifies this`scene, journal
      ensures Valid() && journal.entries == old(journal.entries) + [patch]
      ensures Written(old(Current()), patch.path, Leaf(patch.after)) == Ok(Current())
    {
      OneMorePatch(Value(world), journal.entries, patch);
      journal.Append(patch);
      Derive();
    }

    /** Applies the declared repair of a finding. `before` is what the patched document held. */
    method Repair(finding: Finding, repairs: map<string, Repair<V>>, format: Format, negate: Tree<V> -> V)
      returns (r: Repaired)
      requires Valid()
      modifies this`scene, journal
      ensures Valid()
      ensures r.Undeclared? <==> finding.ruleId !in repairs
      ensures r.Missing? <==>
                finding.ruleId in repairs && Unfillable(finding, repairs[finding.ruleId], format, old(Current()))
      ensures !r.Done? ==> journal.entries == old(journal.entries) && scene == old(scene)
      ensures r.Done? ==>
        && journal.entries != [] && journal.entries[..|journal.entries| - 1] == old(journal.entries)
        && var patch := journal.entries[|journal.entries| - 1];
        && Declares(finding, repairs[finding.ruleId], format, negate, patch)
        && ReadAt(old(Current()), patch.path) == Ok(patch.before)
        && Written(old(Current()), patch.path, Leaf(patch.after)) == Ok(Current())
    {
      var document;
      ghost var copies;
      document, copies := Document();
      var proposal := PatchFor(finding, repairs, format, negate, document, copies);
      match proposal {
        case NotDeclared => r := Undeclared;
        case NoKey => r := Missing;
        case Proposed(patch) =>
          Record(patch);
          r := Done;
      }
    }

    /** Moves one leaf outside the repair table. */
    method RecordValue(path: string, value: V, caption: string, because: string) returns (patch: Option<Patch<V>>)
      requires Valid()
      modifies this`scene, journal
      ensures Valid()
      ensures patch.Some? <==> At(old(Current()), Segments(path)).Some?
      ensures patch.None? ==> journal.entries == old(journal.entries) && scene == old(scene)
      ensures patch.Some? ==>
        && patch.value.path == path && patch.value.after == value
        && patch.value.caption == caption && patch.value.because == because
        && At(old(Current()), Segments(path)) == Some(patch.value.before)
        && journal.entries == old(journal.entries) + [patch.value]
        && Written(old(Current()), path, Leaf(value)) == Ok(Current())
    {
      var document;
      ghost var copies;
      document, copies := Document();
      var before := ReadValue(document, path, copies);
      ReadIsAt(Current(), path, Leaf(value));
      if before.Err? {
        return None;
      }
      patch := Some(Patch(path, before.value, value, because, caption));
      Record(patch.value);
    }

    /** Drops the last patch; the document is again exactly what it was before that patch. */
    method Undo() returns (undone: bool)
      requires Valid()
      modifies this`scene, journal
      ensures Valid() && (undone <==> old(journal.entries) != [])
      ensures !undone ==> journal.entries == old(journal.entries) && scene == old(scene)
      ensures undone ==>
        && journal.entries == old(journal.entries)[..|old(journal.entries)| - 1]
        && var patch := old(journal.entries)[|old(journal.entries)| - 1];
        && Written(Current(), patch.path, Leaf(patch.after)) == Ok(old(Current()))
        && Written(old(Current()), patch.path, patch.before) == Ok(Current())
    {
      hide Written, Graft, At, TreeAt;
      ghost var entries := journal.entries;
      var patch := journal.Undo();
      if patch.None? {
        return false;
      }
      assert entries[..|entries| - 1] == journal.entries;
      WriteBack(Replayed(Value(world), journal.entries).value, patch.value.path, Leaf(patch.value.after));
      Derive();
      return true;
    }

    /** Re-runs the derivation; nothing changes. */
    method Reanalyse()
      requires Valid()
      modifies this`scene
      ensures Valid() && scene == old(scene)
    {
      Derive();
    }
  }
}
