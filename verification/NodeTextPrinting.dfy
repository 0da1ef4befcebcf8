/** Writing node text: every way the documented grammar allows of listing a tree's leaves parses back to the
    tree. */
module NodeTextPrinting {
  import opened Results
  import opened Trees
  import opened Strings
  import opened NodeText

  /** One assignment of a listing: how many keys of the cursor it keeps, and whether its value is quoted. */
  datatype Field = Field(path: Path, value: string, quoted: bool, keep: nat)

  ghost predicate CleanKey(key: string) {
    key != "" && FreeOf(key, '.') && FreeOf(key, '=') && FreeOf(key, ',') && FreeOf(key, '\'')
  }

  ghost predicate CleanField(f: Field) {
    && f.path != [] && (forall k :: 0 <= k < |f.path| ==> CleanKey(f.path[k]))
    && FreeOf(f.value, '\'') && (!f.quoted ==> FreeOf(f.value, ','))
  }

  function Home(path: Path): Path
    requires path != []
  {
    path[..|path| - 1]
  }

  ghost predicate Fits(at: Path, f: Field)
    requires f.path != []
  {
    f.keep <= |at| && f.keep < |f.path| && at[..f.keep] == f.path[..f.keep]
  }

  /** The listing may be written from the cursor `at`. */
  ghost predicate Writable(at: Path, fields: seq<Field>)
    decreases |fields|
  {
    fields == [] || (CleanField(fields[0]) && Fits(at, fields[0]) && Writable(Home(fields[0].path), fields[1..]))
  }

  function Raw(f: Field): string {
    if f.quoted then ['\''] + f.value + ['\''] else f.value
  }

  ghost function TokenOf(at: Path, f: Field): string
    requires f.path != [] && Fits(at, f)
  {
    Repeat('.', |at| - f.keep) + (Join(f.path[f.keep..], '.') + ['='] + Raw(f))
  }

  ghost function Tokens(at: Path, fields: seq<Field>): seq<string>
    requires Writable(at, fields)
    decreases |fields|
  {
    if fields == [] then [] else [TokenOf(at, fields[0])] + Tokens(Home(fields[0].path), fields[1..])
  }

  ghost function EndsAt(at: Path, fields: seq<Field>): Path
    requires Writable(at, fields)
    decreases |fields|
  {
    if fields == [] then at else EndsAt(Home(fields[0].path), fields[1..])
  }

  ghost function Items(fields: seq<Field>): seq<(Path, string)> {
    seq(|fields|, i requires 0 <= i < |fields| => (fields[i].path, fields[i].value))
  }

  /** How the text ends: with the last assignment, or with a token of that many dots, the empty one being a
      trailing comma. */
  datatype Ending = Bare | Dots(count: nat)

  ghost predicate Ends(at: Path, fields: seq<Field>, ending: Ending)
    requires Writable(at, fields)
  {
    if ending.Bare? then fields != [] else ending.count <= |EndsAt(at, fields)|
  }

  function EndTokens(ending: Ending): seq<string> {
    if ending.Bare? then [] else [Repeat('.', ending.count)]
  }

  ghost function Print(fields: seq<Field>, ending: Ending): string
    requires Writable([], fields)
  {
    Join(Tokens([], fields) + EndTokens(ending), ',')
  }

  // ----- the pieces read back

  lemma {:induction false} SealedAfterPlain(a: string, b: string, quoted: bool)
    requires FreeOf(a, '\'') && (quoted || FreeOf(a, ','))
    ensures SealedFrom(a + b, quoted) == SealedFrom(b, quoted)
  {
    if a == [] {
      assert a + b == b;
    } else {
      assert (a + b)[1..] == a[1..] + b;
      SealedAfterPlain(a[1..], b, quoted);
    }
  }

  lemma RawIsSealed(f: Field)
    requires CleanField(f)
    ensures SealedFrom(Raw(f), false) && Unquote(Raw(f)) == Ok(f.value)
  {
    if f.quoted {
      var rest := f.value + ['\''];
      SealedAfterPlain(f.value, ['\''], true);
      assert ['\''][1..] == [];
      assert Raw(f) == ['\''] + rest && (['\''] + rest)[1..] == rest;
      assert Raw(f)[1..|Raw(f)| - 1] == f.value;
    } else {
      SealedAfterPlain(f.value, "", false);
      assert f.value + "" == f.value;
    }
  }

  lemma {:induction false} JoinFree(parts: seq<string>, sep: char, c: char)
    requires c != sep && forall k :: 0 <= k < |parts| ==> FreeOf(parts[k], c)
    ensures FreeOf(Join(parts, sep), c)
  {
    if |parts| > 1 {
      JoinFree(parts[1..], sep, c);
    }
  }

  lemma JoinStarts(parts: seq<string>, sep: char)
    requires parts != [] && parts[0] != ""
    ensures Join(parts, sep) != "" && Join(parts, sep)[0] == parts[0][0]
  {
  }

  lemma KeysRead(keys: Path)
    requires keys != [] && forall k :: 0 <= k < |keys| ==> CleanKey(keys[k])
    ensures var text := Join(keys, '.');
      && text != "" && text[0] != '.'
      && FreeOf(text, '=') && FreeOf(text, '\'') && FreeOf(text, ',')
      && Split(text, '.') == keys && "" !in keys
  {
    JoinStarts(keys, '.');
    JoinFree(keys, '.', '=');
    JoinFree(keys, '.', '\'');
    JoinFree(keys, '.', ',');
    SplitJoin(keys, '.');
    assert CleanKey(keys[0]);
  }

  lemma TokenIsSealed(at: Path, f: Field)
    requires CleanField(f) && Fits(at, f)
    ensures SealedFrom(TokenOf(at, f), false)
  {
    var dots, keys := Repeat('.', |at| - f.keep), Join(f.path[f.keep..], '.');
    KeysRead(f.path[f.keep..]);
    RawIsSealed(f);
    SealedAfterPlain(keys + ['='], Raw(f), false);
    SealedAfterPlain(dots, keys + ['='] + Raw(f), false);
  }

  /** A written token performs its assignment and leaves the cursor in the directory of its path. */
  lemma StepWritten(s: State, f: Field, last: bool)
    requires CleanField(f) && Fits(s.at, f) && Put(s.tree, f.path, f.value).Some?
    ensures Step(s, TokenOf(s.at, f), last) == Ok(State(Put(s.tree, f.path, f.value).value, Home(f.path)))
  {
    TokenReads(|s.at| - f.keep, f.path[f.keep..], Raw(f));
    StepReads(s, TokenOf(s.at, f), last, |s.at| - f.keep, f.path[f.keep..], Raw(f));
    AssignWritten(s, f);
  }

  lemma TokenReads(pops: nat, keys: Path, raw: string)
    requires keys != [] && forall k :: 0 <= k < |keys| ==> CleanKey(keys[k])
    ensures var text := Join(keys, '.');
      var rest := text + ['='] + raw;
      var token := Repeat('.', pops) + rest;
      && Leading(token, '.') == pops && token[pops..] == rest && rest != ""
      && Find(rest, '=') == |text| < |rest| && Split(rest[..|text|], '.') == keys && "" !in keys
      && rest[|text| + 1..] == raw
  {
    var text := Join(keys, '.');
    var rest := text + ['='] + raw;
    KeysRead(keys);
    assert rest[0] == text[0];
    LeadingIs('.', pops, rest);
    FindIs(text, '=', raw);
    assert rest[..|text|] == text;
  }

  lemma StepReads(s: State, token: string, last: bool, pops: nat, keys: Path, raw: string)
    requires keys != [] && Leading(token, '.') == pops <= |s.at| && token[pops..] != ""
    requires var rest := token[pops..];
      var equals := Find(rest, '=');
      equals < |rest| && Split(rest[..equals], '.') == keys && "" !in keys && rest[equals + 1..] == raw
    ensures Step(s, token, last) == AssignBelow(State(s.tree, s.at[..|s.at| - pops]), keys, raw)
  {
  }

  lemma AssignWritten(s: State, f: Field)
    requires CleanField(f) && Fits(s.at, f) && Put(s.tree, f.path, f.value).Some?
    ensures AssignBelow(State(s.tree, s.at[..f.keep]), f.path[f.keep..], Raw(f)) ==
            Ok(State(Put(s.tree, f.path, f.value).value, Home(f.path)))
  {
    RawIsSealed(f);
    assert s.at[..f.keep] + f.path[f.keep..] == f.path;
    PutFailsAlike(s.tree, f.path, "", f.value);
  }

  lemma StepDots(s: State, count: nat)
    requires count <= |s.at|
    ensures Step(s, Repeat('.', count), true) == Ok(State(s.tree, s.at[..|s.at| - count]))
  {
    LeadingIs('.', count, "");
    assert Repeat('.', count) + "" == Repeat('.', count);
    assert s.at[..|s.at|] == s.at;
  }

  // ----- whole texts

  lemma {:induction false} PutAllFromFirst<V>(t: Tree<V>, items: seq<(Path, V)>)
    requires items != [] && forall i :: 0 <= i < |items| ==> items[i].0 != []
    ensures PutAll(t, items) ==
            var first := Put(t, items[0].0, items[0].1);
            if first.None? then None else PutAll(first.value, items[1..])
  {
    var n := |items| - 1;
    if n == 0 {
      assert items[..0] == [] && items[1..] == [];
      assert PutAll(t, items[..0]) == Some(t);
    } else {
      PutAllFromFirst(t, items[..n]);
      assert items[..n][1..] == items[1..][..n - 1];
      assert items[1..][n - 1] == items[n];
    }
  }

  lemma {:induction false} WrittenPaths(at: Path, fields: seq<Field>)
    requires Writable(at, fields)
    ensures forall i :: 0 <= i < |fields| ==> fields[i].path != []
    decreases |fields|
  {
    if fields != [] {
      WrittenPaths(Home(fields[0].path), fields[1..]);
      assert forall i :: 1 <= i < |fields| ==> fields[i] == fields[1..][i - 1];
    }
  }

  lemma FirstToken(at: Path, fields: seq<Field>, ending: Ending)
    requires Writable(at, fields) && fields != []
    ensures var tokens := Tokens(at, fields) + EndTokens(ending);
      && tokens != [] && tokens[0] == TokenOf(at, fields[0])
      && tokens[1..] == Tokens(Home(fields[0].path), fields[1..]) + EndTokens(ending)
  {
    Uncons(TokenOf(at, fields[0]), Tokens(Home(fields[0].path), fields[1..]), EndTokens(ending));
  }

  lemma Uncons<T>(x: T, xs: seq<T>, ys: seq<T>)
    ensures var all := [x] + xs + ys;
      all != [] && all[0] == x && all[1..] == xs + ys
  {
  }

  lemma OneStep(s: State, tokens: seq<string>, next: State)
    requires tokens != [] && Step(s, tokens[0], |tokens| == 1) == Ok(next)
    ensures Steps(s, tokens) == Steps(next, tokens[1..])
  {
  }

  lemma StepsEnd(s: State, ending: Ending)
    requires ending.Dots? ==> ending.count <= |s.at|
    ensures Steps(s, EndTokens(ending)).Ok? && Steps(s, EndTokens(ending)).value.tree == s.tree
  {
    if ending.Dots? {
      StepDots(s, ending.count);
      OneStep(s, EndTokens(ending), State(s.tree, s.at[..|s.at| - ending.count]));
    }
  }

  lemma {:induction false} StepsWritten(s: State, fields: seq<Field>, ending: Ending)
    requires Writable(s.at, fields) && (ending.Dots? ==> ending.count <= |EndsAt(s.at, fields)|)
    requires forall i :: 0 <= i < |fields| ==> fields[i].path != []
    requires PutAll(s.tree, Items(fields)).Some?
    ensures var r := Steps(s, Tokens(s.at, fields) + EndTokens(ending));
      r.Ok? && r.value.tree == PutAll(s.tree, Items(fields)).value
    decreases |fields|
  {
    if fields == [] {
      assert Tokens(s.at, fields) + EndTokens(ending) == EndTokens(ending);
      StepsEnd(s, ending);
    } else {
      var f, rest, tokens := fields[0], fields[1..], Tokens(s.at, fields) + EndTokens(ending);
      assert Items(fields)[1..] == Items(rest);
      PutAllFromFirst(s.tree, Items(fields));
      var next := State(Put(s.tree, f.path, f.value).value, Home(f.path));
      FirstToken(s.at, fields, ending);
      StepWritten(s, f, |tokens| == 1);
      OneStep(s, tokens, next);
      StepsWritten(next, rest, ending);
    }
  }

  lemma {:induction false} TokensAreSealed(at: Path, fields: seq<Field>, ending: Ending)
    requires Writable(at, fields)
    ensures AllSealed(Tokens(at, fields) + EndTokens(ending))
    decreases |fields|
  {
    if fields == [] {
      assert Tokens(at, fields) + EndTokens(ending) == EndTokens(ending);
      if ending.Dots? {
        SealedAfterPlain(Repeat('.', ending.count), "", false);
        assert Repeat('.', ending.count) + "" == Repeat('.', ending.count);
        assert EndTokens(ending)[1..] == [];
      }
    } else {
      TokenIsSealed(at, fields[0]);
      TokensAreSealed(Home(fields[0].path), fields[1..], ending);
      FirstToken(at, fields, ending);
    }
  }

  /** The parser undoes every such printer: any tree whose inner directories are not empty, its leaves listed
      in any order, climbing no less than needed, values quoted at will where they need not be, and ended in
      any of the ways the grammar allows. */
  lemma ParsePrint(t: Tree<string>, fields: seq<Field>, ending: Ending)
    requires t.Dir? && Compact(t)
    requires Writable([], fields) && Ends([], fields, ending)
    requires Lists(t, Table(Items(fields)))
    ensures var meaning := Meaning(Print(fields, ending));
      meaning.Ok? && meaning.value.tree == t
  {
    WrittenPaths([], fields);
    Rebuild(t, Items(fields));
    StepsWritten(State(Empty(), []), fields, ending);
    TokensAreSealed([], fields, ending);
    CutJoin(Tokens([], fields) + EndTokens(ending));
  }

  /** All the tree asks of its keys and values. */
  ghost predicate Printable(t: Tree<string>) {
    forall p {:trigger LeafAt(t, p)} :: LeafAt(t, p).Some? ==>
      FreeOf(LeafAt(t, p).value, '\'') && forall k :: 0 <= k < |p| ==> CleanKey(p[k])
  }

  /** Every such tree has a listing, so the round trip speaks of all of them. */
  lemma PrintExists(t: Tree<string>) returns (fields: seq<Field>)
    requires t.Dir? && Printable(t)
    ensures Writable([], fields) && Lists(t, Table(Items(fields)))
  {
    var items := Listing(t);
    fields := seq(|items|, i requires 0 <= i < |items| => Field(items[i].0, items[i].1, true, 0));
    assert Items(fields) == items;
    forall i | 0 <= i < |fields|
      ensures CleanField(fields[i]) && fields[i].keep == 0
    {
      assert LeafAt(t, items[i].0) == Some(items[i].1);
    }
    FromAnywhere([], fields);
  }

  lemma {:induction false} FromAnywhere(at: Path, fields: seq<Field>)
    requires forall i :: 0 <= i < |fields| ==> CleanField(fields[i]) && fields[i].keep == 0
    ensures Writable(at, fields)
    decreases |fields|
  {
    if fields != [] {
      FromAnywhere(Home(fields[0].path), fields[1..]);
    }
  }
}
