/** The node-text grammar of wing_parser/net/nodetext.py: the body of a dump reply. */
module NodeText {
  import opened Results
  import opened Trees
  import opened Strings
  import opened Dicts

  datatype Error = UnterminatedQuote | EmptyAssignment | PopsPastRoot | NoEquals | MalformedKey | AlreadyLeaf

  // ----- cutting the text into tokens

  function Flip(quoted: bool, c: char): bool {
    if c == '\'' then !quoted else quoted
  }

  function Cut(text: string, quoted: bool): (tokens: seq<string>)
    ensures tokens != []
  {
    if text == [] then [""]
    else
      var rest := Cut(text[1..], Flip(quoted, text[0]));
      if text[0] == ',' && !quoted then [""] + rest else [[text[0]] + rest[0]] + rest[1..]
  }

  /** Whether the text ends inside a quoted value. */
  function EndsQuoted(text: string, quoted: bool): bool {
    if text == [] then quoted else EndsQuoted(text[1..], Flip(quoted, text[0]))
  }

  function SplitTopLevel(text: string): Result<seq<string>, Error> {
    if EndsQuoted(text, false) then Err(UnterminatedQuote) else Ok(Cut(text, false))
  }

  function Glue(tokens: seq<string>, current: string, rest: seq<string>): seq<string>
    requires rest != []
  {
    tokens + [current + rest[0]] + rest[1..]
  }

  method SplitTopLevelTokens(text: string) returns (r: Result<seq<string>, Error>)
    ensures r == SplitTopLevel(text)
  {
    var tokens, current, quoted := [], "", false;
    GlueNothing(Cut(text, false));
    assert text[0..] == text;
    for i := 0 to |text|
      invariant Glue(tokens, current, Cut(text[i..], quoted)) == Cut(text, false)
      invariant EndsQuoted(text[i..], quoted) == EndsQuoted(text, false)
    {
      var c := text[i];
      assert text[i..][1..] == text[i + 1..];
      GlueStep(tokens, current, c, Cut(text[i + 1..], Flip(quoted, c)));
      if c == '\'' {
        quoted := !quoted;
        current := current + [c];
      } else if c == ',' && !quoted {
        tokens := tokens + [current];
        current := "";
      } else {
        current := current + [c];
      }
    }
    if quoted {
      return Err(UnterminatedQuote);
    }
    assert text[|text|..] == [];
    assert current + "" == current && tokens + [current] + [] == tokens + [current];
    return Ok(tokens + [current]);
  }

  lemma GlueNothing(rest: seq<string>)
    requires rest != []
    ensures Glue([], "", rest) == rest
  {
    assert "" + rest[0] == rest[0];
  }

  lemma GlueStep(tokens: seq<string>, current: string, c: char, rest: seq<string>)
    requires rest != []
    ensures Glue(tokens, current, [""] + rest) == Glue(tokens + [current], "", rest)
    ensures Glue(tokens, current, [[c] + rest[0]] + rest[1..]) == Glue(tokens, current + [c], rest)
  {
    assert current + "" == current && "" + rest[0] == rest[0];
    assert ([""] + rest)[1..] == rest && [rest[0]] + rest[1..] == rest;
    assert current + ([c] + rest[0]) == current + [c] + rest[0];
    assert ([[c] + rest[0]] + rest[1..])[1..] == rest[1..];
  }

  /** The number of quote characters. */
  function Quotes(text: string): nat {
    if text == [] then 0 else (if text[0] == '\'' then 1 else 0) + Quotes(text[1..])
  }

  /** The quotes pair off, and an odd number of them stands before each comma. */
  ghost predicate Sealed(token: string) {
    && Quotes(token) % 2 == 0
    && forall k :: 0 <= k < |token| && token[k] == ',' ==> Quotes(token[..k]) % 2 == 1
  }

  /** The same, read from the front with the state of the scanner. */
  predicate SealedFrom(token: string, quoted: bool) {
    if token == [] then !quoted
    else (token[0] == ',' ==> quoted) && SealedFrom(token[1..], Flip(quoted, token[0]))
  }

  ghost predicate CommasQuoted(token: string, quoted: bool) {
    forall k :: 0 <= k < |token| && token[k] == ',' ==> (Quotes(token[..k]) % 2 == 1) != quoted
  }

  lemma {:induction false} SealedFromIs(token: string, quoted: bool)
    ensures SealedFrom(token, quoted) <==> (Quotes(token) % 2 == 1) == quoted && CommasQuoted(token, quoted)
  {
    if token != [] {
      var rest, flipped := token[1..], Flip(quoted, token[0]);
      SealedFromIs(rest, flipped);
      forall k | 0 <= k < |rest|
        ensures Quotes(token[..k + 1]) == (if token[0] == '\'' then 1 else 0) + Quotes(rest[..k])
      {
        assert token[..k + 1][1..] == rest[..k];
      }
      assert token[..0] == [];
      if CommasQuoted(token, quoted) {
        forall k | 0 <= k < |rest| && rest[k] == ','
          ensures (Quotes(rest[..k]) % 2 == 1) != flipped
        {
          assert token[k + 1] == ',';
        }
      }
      if CommasQuoted(rest, flipped) && (token[0] == ',' ==> quoted) {
        forall k | 0 <= k < |token| && token[k] == ','
          ensures (Quotes(token[..k]) % 2 == 1) != quoted
        {
          if k > 0 { assert rest[k - 1] == ','; }
        }
      }
    }
  }

  lemma SealedIs(token: string)
    ensures SealedFrom(token, false) <==> Sealed(token)
  {
    SealedFromIs(token, false);
  }

  predicate AllSealed(tokens: seq<string>) {
    tokens == [] || (SealedFrom(tokens[0], false) && AllSealed(tokens[1..]))
  }

  lemma {:induction false} AllSealedIs(tokens: seq<string>)
    ensures AllSealed(tokens) <==> forall k :: 0 <= k < |tokens| ==> Sealed(tokens[k])
  {
    if tokens != [] {
      SealedIs(tokens[0]);
      AllSealedIs(tokens[1..]);
      assert forall k :: 0 <= k < |tokens[1..]| ==> tokens[1..][k] == tokens[k + 1];
    }
  }

  /** Cutting leaves every token sealed and loses nothing. */
  lemma {:induction false} CutIs(text: string, quoted: bool)
    requires !EndsQuoted(text, quoted)
    ensures Join(Cut(text, quoted), ',') == text
    ensures SealedFrom(Cut(text, quoted)[0], quoted) && AllSealed(Cut(text, quoted)[1..])
  {
    if text != [] {
      var c := text[0];
      var rest := Cut(text[1..], Flip(quoted, c));
      CutIs(text[1..], Flip(quoted, c));
      if c == ',' && !quoted {
        JoinCons("", rest, ',');
        assert "" + [','] + text[1..] == text;
        assert ([""] + rest)[1..] == rest;
      } else {
        JoinLonger(c, rest, ',');
        var first := [c] + rest[0];
        assert first[1..] == rest[0];
        assert ([first] + rest[1..])[1..] == rest[1..];
      }
    }
  }

  lemma {:induction false} CutHead(head: string, quoted: bool, rest: string)
    requires SealedFrom(head, quoted)
    ensures Cut(head + [','] + rest, quoted) == [head] + Cut(rest, false)
    ensures EndsQuoted(head + [','] + rest, quoted) == EndsQuoted(rest, false)
  {
    var text := head + [','] + rest;
    if head == [] {
      assert text[1..] == rest;
    } else {
      var below := head[1..] + [','] + rest;
      assert text[1..] == below;
      CutHead(head[1..], Flip(quoted, head[0]), rest);
      assert ([head[1..]] + Cut(rest, false))[1..] == Cut(rest, false);
      assert [head[0]] + head[1..] == head;
    }
  }

  lemma {:induction false} CutOne(token: string, quoted: bool)
    requires SealedFrom(token, quoted)
    ensures Cut(token, quoted) == [token] && !EndsQuoted(token, quoted)
  {
    if token != [] {
      CutOne(token[1..], Flip(quoted, token[0]));
      assert [token[0]] + token[1..] == token;
    }
  }

  lemma {:induction false} CutJoin(tokens: seq<string>)
    requires tokens != [] && AllSealed(tokens)
    ensures SplitTopLevel(Join(tokens, ',')) == Ok(tokens)
  {
    if |tokens| == 1 {
      CutOne(tokens[0], false);
      assert tokens == [tokens[0]];
    } else {
      CutJoin(tokens[1..]);
      CutHead(tokens[0], false, Join(tokens[1..], ','));
      assert [tokens[0]] + tokens[1..] == tokens;
    }
  }

  /** The tokens are the one way to write the text as sealed pieces joined by commas; it is refused exactly
      when there is none. */
  lemma TokensIff(text: string, tokens: seq<string>)
    ensures SplitTopLevel(text) == Ok(tokens) <==>
      tokens != [] && Join(tokens, ',') == text && forall k :: 0 <= k < |tokens| ==> Sealed(tokens[k])
    ensures SplitTopLevel(text).Err? <==> Quotes(text) % 2 == 1
  {
    AllSealedIs(tokens);
    if SplitTopLevel(text) == Ok(tokens) {
      CutIs(text, false);
    }
    if tokens != [] && Join(tokens, ',') == text && AllSealed(tokens) {
      CutJoin(tokens);
    }
    EndsQuotedIs(text, false);
  }

  lemma {:induction false} EndsQuotedIs(text: string, quoted: bool)
    ensures EndsQuoted(text, quoted) <==> (Quotes(text) % 2 == 1) != quoted
  {
    if text != [] {
      EndsQuotedIs(text[1..], Flip(quoted, text[0]));
    }
  }

  // ----- what a text means

  function Unquote(raw: string): Result<string, Error> {
    if raw == [] || raw[0] != '\'' then Ok(raw)
    else if |raw| < 2 || raw[|raw| - 1] != '\'' then Err(UnterminatedQuote)
    else Ok(raw[1..|raw| - 1])
  }

  datatype State = State(tree: Tree<string>, at: Path)

  /** Down the keys from the cursor, and an assignment under the last of them. */
  function AssignBelow(s: State, keys: Path, raw: string): Result<State, Error>
    requires keys != []
  {
    var value := Unquote(raw);
    var path := s.at + keys;
    if Put(s.tree, path, "").None? then Err(AlreadyLeaf)
    else if value.Err? then Err(value.error)
    else
      PutFailsAlike(s.tree, path, "", value.value);
      Ok(State(Put(s.tree, path, value.value).value, path[..|path| - 1]))
  }

  /** One token: leading dots climb, the key path descends from there and its last key is assigned. */
  function Step(s: State, token: string, last: bool): Result<State, Error> {
    var pops := Leading(token, '.');
    var stripped := token[pops..];
    if token == "" then (if last then Ok(s) else Err(EmptyAssignment))
    else if pops > |s.at| then Err(PopsPastRoot)
    else
      var climbed := State(s.tree, s.at[..|s.at| - pops]);
      if stripped == "" then Ok(climbed) else Assignment(climbed, stripped)
  }

  /** `key.path=value`, from the cursor. */
  function Assignment(s: State, text: string): Result<State, Error> {
    var equals := Find(text, '=');
    if equals == |text| then Err(NoEquals)
    else
      var keys := Split(text[..equals], '.');
      if "" in keys then Err(MalformedKey) else AssignBelow(s, keys, text[equals + 1..])
  }

  /** What a token does, by its shape: so many dots, and a rest that does not start with one. */
  lemma StepIs(s: State, token: string, last: bool, pops: nat, rest: string)
    requires token == Repeat('.', pops) + rest && (rest == "" || rest[0] != '.')
    ensures token == "" ==> Step(s, token, last) == if last then Ok(s) else Err(EmptyAssignment)
    ensures token != "" && pops > |s.at| ==> Step(s, token, last) == Err(PopsPastRoot)
    ensures token != "" && pops <= |s.at| ==>
      Step(s, token, last) == if rest == "" then Ok(State(s.tree, s.at[..|s.at| - pops]))
                              else Assignment(State(s.tree, s.at[..|s.at| - pops]), rest)
  {
    LeadingIs('.', pops, rest);
  }

  /** The value as written, or without the quotes around it. */
  ghost predicate Unquoted(raw: string, value: string) {
    if raw != [] && raw[0] == '\'' then raw == ['\''] + value + ['\''] else value == raw
  }

  /** What follows the dots: keys divided by dots, and after the first equals sign the value for the last of them. The
      cursor is left where that stands. */
  lemma AssignmentIs(s: State, keys: seq<string>, raw: string, value: string)
    requires keys != [] && forall k :: 0 <= k < |keys| ==> FreeOf(keys[k], '.')
    requires FreeOf(Join(keys, '.'), '=')
    ensures var result := Assignment(s, Join(keys, '.') + ['='] + raw);
      if "" in keys then result == Err(MalformedKey)
      else if Put(s.tree, s.at + keys, value).None? then result == Err(AlreadyLeaf)
      else if Unquoted(raw, value) then
        result == Ok(State(Put(s.tree, s.at + keys, value).value, s.at + keys[..|keys| - 1]))
      else raw != [] && raw[0] == '\'' && (|raw| < 2 || raw[|raw| - 1] != '\'') ==> result == Err(UnterminatedQuote)
    ensures FreeOf(raw, '=') ==> Assignment(s, raw) == Err(NoEquals)
  {
    if FreeOf(raw, '=') { NoEqualsIs(s, raw); }
    hide AssignBelow, Assignment, Put;
    AssignmentSplits(s, keys, raw);
    AssignBelowIs(s, keys, raw, value);
  }

  lemma AssignmentSplits(s: State, keys: seq<string>, raw: string)
    requires keys != [] && forall k :: 0 <= k < |keys| ==> FreeOf(keys[k], '.')
    requires FreeOf(Join(keys, '.'), '=')
    ensures Assignment(s, Join(keys, '.') + ['='] + raw) ==
            if "" in keys then Err(MalformedKey) else AssignBelow(s, keys, raw)
  {
    hide AssignBelow, Join, Split, Find;
    var head := Join(keys, '.');
    FindIs(head, '=', raw);
    SplitJoin(keys, '.');
    assert (head + ['='] + raw)[..|head|] == head && (head + ['='] + raw)[|head| + 1..] == raw;
  }

  lemma NoEqualsIs(s: State, text: string)
    requires FreeOf(text, '=')
    ensures Assignment(s, text) == Err(NoEquals)
  {
  }

  lemma AssignBelowIs(s: State, keys: seq<string>, raw: string, value: string)
    requires keys != []
    ensures var result := AssignBelow(s, keys, raw);
      if Put(s.tree, s.at + keys, value).None? then result == Err(AlreadyLeaf)
      else if Unquoted(raw, value) then
        result == Ok(State(Put(s.tree, s.at + keys, value).value, s.at + keys[..|keys| - 1]))
      else raw != [] && raw[0] == '\'' && (|raw| < 2 || raw[|raw| - 1] != '\'') ==> result == Err(UnterminatedQuote)
  {
    hide Put;
    var path := s.at + keys;
    PutFailsAlike(s.tree, path, "", value);
    assert path[..|path| - 1] == s.at + keys[..|keys| - 1];
    if raw != [] && raw[0] == '\'' && Unquoted(raw, value) {
      assert raw[1..|raw| - 1] == value;
    }
  }

  /** These states lead one to the other by the tokens; only the last token may be empty. */
  ghost predicate Leads(states: seq<State>, tokens: seq<string>, k: nat)
    requires k < |tokens| && k + 1 < |states|
  {
    Step(states[k], tokens[k], k == |tokens| - 1) == Ok(states[k + 1])
  }

  /** The tokens are taken one after the other, up to the first that fails. */
  lemma {:induction false} StepsTrace(s: State, tokens: seq<string>) returns (states: seq<State>)
    ensures 1 <= |states| <= |tokens| + 1 && states[0] == s
    ensures forall k :: 0 <= k < |states| - 1 ==> Leads(states, tokens, k)
    ensures var n := |states| - 1;
      if n == |tokens| then Steps(s, tokens) == Ok(states[n])
      else Step(states[n], tokens[n], n == |tokens| - 1).Err?
           && Steps(s, tokens) == Step(states[n], tokens[n], n == |tokens| - 1)
    decreases |tokens|
  {
    hide Step;
    if tokens == [] {
      states := [s];
    } else {
      var next := Step(s, tokens[0], |tokens| == 1);
      if next.Err? {
        states := [s];
      } else {
        var rest := StepsTrace(next.value, tokens[1..]);
        states := [s] + rest;
        forall k | 0 <= k < |states| - 1
          ensures Leads(states, tokens, k)
        {
          if k > 0 { assert Leads(rest, tokens[1..], k - 1); }
        }
      }
    }
  }

  lemma PutFailsAlike<V>(t: Tree<V>, p: Path, v: V, v': V)
    requires p != []
    ensures Put(t, p, v).None? <==> Put(t, p, v').None?
  {
    PutFailsIffBlocked(t, p, v);
    PutFailsIffBlocked(t, p, v');
  }

  function Steps(s: State, tokens: seq<string>): Result<State, Error>
    decreases |tokens|
  {
    if tokens == [] then Ok(s)
    else
      var next := Step(s, tokens[0], |tokens| == 1);
      if next.Err? then next else Steps(next.value, tokens[1..])
  }

  function Meaning(text: string): Result<State, Error> {
    var tokens := SplitTopLevel(text);
    if tokens.Err? then Err(tokens.error) else Steps(State(Empty(), []), tokens.value)
  }

  // ----- the parser

  /** Parses into dictionaries that a stack of references points into. The stack holds the chain from the
      root to the cursor at every token, so the dictionaries stand for exactly the tree of the meaning. */
  method ParseNodeText(text: string) returns (r: Result<DictNode<string>, Error>, ghost world: seq<DictNode<string>>)
    ensures Meaning(text).Err? ==> r == Err(Meaning(text).error)
    ensures Meaning(text).Ok? ==>
      r.Ok? && Valid(world) && r.value == world[0] && Value(world) == Meaning(text).value.tree
  {
    var stack;
    stack, world := Start();
    var tree := stack[0];
    var cut := SplitTopLevelTokens(text);
    if cut.Err? {
      return Err(cut.error), world;
    }
    var failure;
    failure, stack, world := ParseTokens(cut.value, stack, world);
    if failure.Some? {
      return Err(failure.value), world;
    }
    return Ok(tree), world;
  }

  method ParseTokens(tokens: seq<string>, stack: seq<DictNode<string>>, ghost world: seq<DictNode<string>>)
    returns (failure: Option<Error>, stack': seq<DictNode<string>>, ghost world': seq<DictNode<string>>)
    requires Stacked(world, stack)
    modifies Members(world)
    ensures Grown(world, world') && forall d :: d in Members(world') ==> d in Members(world) || fresh(d)
    ensures var end := Steps(State(old(Value(world)), old(Cursor(world, stack))), tokens);
      if end.Err? then failure == Some(end.error)
      else failure == None && Stacked(world', stack') && Value(world') == end.value.tree
  {
    ghost var s := State(Value(world), Cursor(world, stack));
    ghost var end := Steps(s, tokens);
    assert tokens[0..] == tokens;
    failure, stack', world' := None, stack, world;
    for i := 0 to |tokens|
      invariant Grown(world, world') && forall d :: d in Members(world') ==> d in Members(world) || fresh(d)
      invariant Stacked(world', stack') && Value(world') == s.tree && Cursor(world', stack') == s.at
      invariant Steps(s, tokens[i..]) == end && failure == None
    {
      assert tokens[i..][0] == tokens[i] && tokens[i..][1..] == tokens[i + 1..];
      failure, stack', world', s := ParseToken(tokens[i], i == |tokens| - 1, stack', world', s);
      if failure.Some? {
        return;
      }
    }
    assert tokens[|tokens|..] == [];
  }

  lemma ClimbedTo<V>(world: seq<DictNode<V>>, stack: seq<DictNode<V>>, pops: nat)
    requires Stacked(world, stack) && pops < |stack|
    ensures var top := if pops > 0 then stack[..|stack| - pops] else stack;
      && Stacked(world, top) && |Cursor(world, stack)| == |stack| - 1
      && Cursor(world, top) == Cursor(world, stack)[..|stack| - 1 - pops]
  {
    Pop(world, stack, pops);
    assert stack[..|stack|] == stack;
  }

  /** What a token does once its dots are climbed. */
  lemma StepBelow(s: State, token: string, last: bool, pops: nat, stripped: string)
    requires token != "" && pops == Leading(token, '.') <= |s.at| && stripped == token[pops..]
    ensures var climbed := State(s.tree, s.at[..|s.at| - pops]);
      Step(s, token, last) == if stripped == "" then Ok(climbed) else Assignment(climbed, stripped)
  {
  }

  /** One pass of the token loop. */
  method ParseToken(token: string, last: bool, stack: seq<DictNode<string>>, ghost world: seq<DictNode<string>>,
                    ghost s: State)
    returns (failure: Option<Error>, stack': seq<DictNode<string>>, ghost world': seq<DictNode<string>>,
             ghost s': State)
    requires Stacked(world, stack) && Value(world) == s.tree && Cursor(world, stack) == s.at
    modifies Members(world)
    ensures Grown(world, world') && forall d :: d in Members(world') ==> d in Members(world) || fresh(d)
    ensures Step(s, token, last).Err? ==> failure == Some(Step(s, token, last).error)
    ensures Step(s, token, last).Ok? ==>
      && failure == None && s' == Step(s, token, last).value
      && Stacked(world', stack') && Value(world') == s'.tree && Cursor(world', stack') == s'.at
  {
    failure, stack', world', s' := None, stack, world, s;
    if token == "" {
      if !last { failure := Some(EmptyAssignment); }
      return;
    }
    var pops := Leading(token, '.');
    var stripped := token[pops..];
    CursorLength(world, stack);
    if pops > 0 {
      if pops >= |stack| {
        failure := Some(PopsPastRoot);
        return;
      }
      stack' := stack[..|stack| - pops];
    }
    ClimbedTo(world, stack, pops);
    s' := State(s.tree, s.at[..|s.at| - pops]);
    StepBelow(s, token, last, pops, stripped);
    if stripped == "" {
      return;
    }
    failure, stack', world', s' := ParseAssignment(stripped, stack', world, s');
  }

  /** The token without its dots. */
  method ParseAssignment(text: string, stack: seq<DictNode<string>>, ghost world: seq<DictNode<string>>, ghost s: State)
    returns (failure: Option<Error>, stack': seq<DictNode<string>>, ghost world': seq<DictNode<string>>,
             ghost s': State)
    requires Stacked(world, stack) && Value(world) == s.tree && Cursor(world, stack) == s.at
    modifies Members(world)
    ensures Grown(world, world') && forall d :: d in Members(world') ==> d in Members(world) || fresh(d)
    ensures Assignment(s, text).Err? ==> failure == Some(Assignment(s, text).error)
    ensures Assignment(s, text).Ok? ==>
      && failure == None && s' == Assignment(s, text).value
      && Stacked(world', stack') && Value(world') == s'.tree && Cursor(world', stack') == s'.at
  {
    failure, stack', world', s' := None, stack, world, s;
    var equals := Find(text, '=');
    if equals == |text| {
      failure := Some(NoEquals);
      return;
    }
    var keys := Split(text[..equals], '.');
    if "" in keys {
      failure := Some(MalformedKey);
      return;
    }
    failure, stack', world', s' := AssignAt(keys, text[equals + 1..], stack, world, s);
  }

  /** The rest of the token: down the keys, and the assignment at the end. */
  method AssignAt(keys: seq<string>, raw: string, stack: seq<DictNode<string>>, ghost world: seq<DictNode<string>>,
                  ghost s: State)
    returns (failure: Option<Error>, stack': seq<DictNode<string>>, ghost world': seq<DictNode<string>>,
             ghost s': State)
    requires keys != [] && Stacked(world, stack) && Value(world) == s.tree && Cursor(world, stack) == s.at
    modifies Members(world)
    ensures Grown(world, world') && forall d :: d in Members(world') ==> d in Members(world) || fresh(d)
    ensures AssignBelow(s, keys, raw).Err? ==> failure == Some(AssignBelow(s, keys, raw).error)
    ensures AssignBelow(s, keys, raw).Ok? ==>
      && failure == None && s' == AssignBelow(s, keys, raw).value
      && Stacked(world', stack') && Value(world') == s'.tree && Cursor(world', stack') == s'.at
  {
    var value, n := Unquote(raw), |keys| - 1;
    ghost var v := if value.Ok? then value.value else "";
    PutFailsAlike(s.tree, s.at + keys, "", v);
    var ok;
    s' := s;
    ok, stack', world' := Descend(keys, stack, world, s, v);
    if !ok {
      failure := Some(AlreadyLeaf);
      return;
    }
    if value.Err? {
      failure := Some(value.error);
      return;
    }
    MemberAt(world', stack'[|stack'| - 1].id);
    Next(s.at, keys, n);
    Assign(stack'[|stack'| - 1], keys[n], value.value, stack', world');
    failure, s' := None, State(Value(world'), s.at + keys[..n]);
  }

  /** The loop over all keys but the last; what the assignment of `v` would build from there is what it would
      have built from the start, and it fails only where that fails. */
  method Descend(keys: seq<string>, stack: seq<DictNode<string>>, ghost world: seq<DictNode<string>>,
                 ghost s: State, ghost v: string)
    returns (ok: bool, stack': seq<DictNode<string>>, ghost world': seq<DictNode<string>>)
    requires keys != [] && Stacked(world, stack) && Value(world) == s.tree && Cursor(world, stack) == s.at
    modifies Members(world)
    ensures Grown(world, world') && forall d :: d in Members(world') ==> d in Members(world) || fresh(d)
    ensures ok <==> Put(s.tree, s.at + keys, v).Some?
    ensures ok ==> Stacked(world', stack') && Cursor(world', stack') == s.at + keys[..|keys| - 1]
    ensures ok ==> Put(Value(world'), s.at + keys, v) == Put(s.tree, s.at + keys, v)
  {
    var n := |keys| - 1;
    ok, stack', world' := true, stack, world;
    for i := 0 to n
      invariant Grown(world, world') && forall d :: d in Members(world') ==> d in Members(world) || fresh(d)
      invariant Stacked(world', stack') && Cursor(world', stack') == s.at + keys[..i]
      invariant Put(Value(world'), s.at + keys, v) == Put(s.tree, s.at + keys, v)
    {
      Next(s.at, keys, i);
      MemberAt(world', stack'[|stack'| - 1].id);
      var child;
      ok, child, world' := Into(stack'[|stack'| - 1], keys[i], stack', world', keys[i + 1..],
                                s.at + keys, v);
      if !ok {
        return;
      }
      stack' := stack' + [child];
    }
    ok := true;
    Next(s.at, keys, n);
    CursorLength(world', stack');
    PutHere(Value(world'), s.at + keys[..n], keys[n], v);
  }

  lemma Next(at: Path, keys: Path, i: nat)
    requires i < |keys|
    ensures at + keys[..i] + ([keys[i]] + keys[i + 1..]) == at + keys
    ensures at + keys[..i] + [keys[i]] == at + keys[..i + 1]
    ensures i == |keys| - 1 ==> at + keys[..i] + [keys[i]] == at + keys
    ensures i == |keys| - 1 ==> (at + keys)[..|at + keys| - 1] == at + keys[..i]
  {
  }
}
