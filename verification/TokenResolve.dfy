/** Which word of a closed vocabulary a typed token stands for: wing_parser/showcontext/vocabulary.py.

    What counts as white space and how a letter is lowered are the language's tables; they are parameters. */
module TokenResolve {
  import opened EditDistance

  const MIN_REPAIR_LENGTH := 4

  // ----- normalising

  function Separators(): seq<char> {
    ['-', '_', ' ', '\t']
  }

  function Mapped(s: string, f: char -> char): (r: string)
    ensures |r| == |s| && forall i :: 0 <= i < |s| ==> r[i] == f(s[i])
  {
    seq(|s|, i requires 0 <= i < |s| => f(s[i]))
  }

  function StripLeft(s: string, drop: char -> bool): string {
    if s != [] && drop(s[0]) then StripLeft(s[1..], drop) else s
  }

  function StripRight(s: string, drop: char -> bool): string {
    if s != [] && drop(s[|s| - 1]) then StripRight(s[..|s| - 1], drop) else s
  }

  function Strip(s: string, drop: char -> bool): string {
    StripRight(StripLeft(s, drop), drop)
  }

  function IsDot(): char -> bool {
    c => c == '.'
  }

  function Replacing(separator: char): char -> char {
    c => if c == separator then '.' else c
  }

  function Dotted(): char -> char {
    c => if c in Separators() then '.' else c
  }

  /** Left to right, each pair of dots not yet used becomes one dot. */
  function ReplacePairs(s: string): (r: string)
    ensures |r| <= |s|
  {
    if |s| < 2 then s
    else if s[0] == '.' && s[1] == '.' then ['.'] + ReplacePairs(s[2..])
    else [s[0]] + ReplacePairs(s[1..])
  }

  predicate HasPair(s: string) {
    |s| > 1 && ((s[0] == '.' && s[1] == '.') || HasPair(s[1..]))
  }

  /** Every run of dots becomes one dot. */
  function Collapse(s: string): string {
    if s == [] then []
    else
      var rest := Collapse(s[1..]);
      if s[0] == '.' && rest != [] && rest[0] == '.' then rest else [s[0]] + rest
  }

  function Normal(token: string, lower: char -> char, isSpace: char -> bool): string {
    Strip(Collapse(Mapped(Mapped(Strip(token, isSpace), lower), Dotted())), IsDot())
  }

  lemma {:induction false} CollapseStarts(s: string)
    ensures Collapse(s) == [] <==> s == []
    ensures s != [] ==> Collapse(s)[0] == s[0]
  {
    if s != [] {
      CollapseStarts(s[1..]);
    }
  }

  lemma {:induction false} CollapsePairs(s: string)
    ensures Collapse(ReplacePairs(s)) == Collapse(s)
  {
    if |s| >= 2 {
      CollapseStarts(s[1..]);
      if s[0] == '.' && s[1] == '.' {
        CollapsePairs(s[2..]);
        assert s[1..][1..] == s[2..];
        assert (['.'] + ReplacePairs(s[2..]))[1..] == ReplacePairs(s[2..]);
      } else {
        CollapsePairs(s[1..]);
        assert ([s[0]] + ReplacePairs(s[1..]))[1..] == ReplacePairs(s[1..]);
      }
    }
  }

  lemma {:induction false} HasPairIff(s: string)
    ensures HasPair(s) <==> exists i :: 0 < i < |s| && s[i - 1] == s[i] == '.'
  {
    if |s| > 1 {
      HasPairIff(s[1..]);
      if i :| 0 < i < |s[1..]| && s[1..][i - 1] == s[1..][i] == '.' {
        assert s[i + 1 - 1] == s[i + 1] == '.';
      }
      if i :| 1 < i < |s| && s[i - 1] == s[i] == '.' {
        assert s[1..][i - 1 - 1] == s[1..][i - 1] == '.';
      }
    }
  }

  /** What collapsing is: taking one of two neighbouring dots away makes no difference, wherever they stand; and a text
      without such a pair stays as it is. */
  lemma {:induction false} CollapseIs(before: string, after: string)
    ensures Collapse(before + ['.', '.'] + after) == Collapse(before + ['.'] + after)
    ensures !HasPair(before) ==> Collapse(before) == before
  {
    CollapseOf(before);
    if before == [] {
      assert [] + ['.', '.'] + after == ['.', '.'] + after && [] + ['.'] + after == ['.'] + after;
      assert (['.', '.'] + after)[1..] == ['.'] + after;
      CollapseStarts(['.'] + after);
    } else {
      assert (before + ['.', '.'] + after)[1..] == before[1..] + ['.', '.'] + after;
      assert (before + ['.'] + after)[1..] == before[1..] + ['.'] + after;
      CollapseIs(before[1..], after);
    }
  }

  lemma {:induction false} PairsShrink(s: string)
    ensures HasPair(s) ==> |ReplacePairs(s)| < |s|
  {
    if |s| >= 2 && !(s[0] == '.' && s[1] == '.') {
      PairsShrink(s[1..]);
    }
  }

  lemma {:induction false} CollapseOf(s: string)
    ensures !HasPair(Collapse(s))
    ensures !HasPair(s) ==> Collapse(s) == s
    ensures forall c :: c in Collapse(s) ==> c in s
  {
    if s != [] {
      CollapseOf(s[1..]);
      CollapseStarts(s[1..]);
      var rest := Collapse(s[1..]);
      assert ([s[0]] + rest)[1..] == rest;
    }
  }

  lemma {:induction false} NoPairAfter(s: string, i: nat)
    requires i <= |s| && !HasPair(s)
    ensures !HasPair(s[i..])
  {
    if i == 0 {
      assert s[0..] == s;
    } else {
      assert s[1..][i - 1..] == s[i..];
      NoPairAfter(s[1..], i - 1);
    }
  }

  lemma {:induction false} NoPairBefore(s: string, j: nat)
    requires j <= |s| && !HasPair(s)
    ensures !HasPair(s[..j])
  {
    if j > 1 {
      assert s[..j][1..] == s[1..][..j - 1];
      NoPairBefore(s[1..], j - 1);
    }
  }

  lemma {:induction false} StripLeftOf(s: string, drop: char -> bool)
    ensures var r := StripLeft(s, drop);
      && |r| <= |s| && r == s[|s| - |r|..] && All(s[..|s| - |r|], drop)
      && (r != [] ==> !drop(r[0]))
      && (r == s <==> s == [] || !drop(s[0]))
  {
    if s != [] && drop(s[0]) {
      StripLeftOf(s[1..], drop);
      var n := |s| - |StripLeft(s, drop)|;
      assert s[..n] == [s[0]] + s[1..][..n - 1];
    }
  }

  lemma {:induction false} StripRightOf(s: string, drop: char -> bool)
    ensures var r := StripRight(s, drop);
      && |r| <= |s| && r == s[..|r|] && All(s[|r|..], drop)
      && (r != [] ==> !drop(r[|r| - 1]))
      && (r == s <==> s == [] || !drop(s[|s| - 1]))
  {
    if s != [] && drop(s[|s| - 1]) {
      StripRightOf(s[..|s| - 1], drop);
      var n := |StripRight(s, drop)|;
      assert s[n..] == s[..|s| - 1][n..] + [s[|s| - 1]];
    }
  }

  predicate CleanEdges(s: string, drop: char -> bool) {
    s != [] ==> !drop(s[0]) && !drop(s[|s| - 1])
  }

  predicate All(s: string, drop: char -> bool) {
    forall i :: 0 <= i < |s| ==> drop(s[i])
  }

  /** A slice of `s` with clean edges, and nothing but dropped characters around it; all of `s` exactly when its edges
      are clean. */
  lemma StripOf(s: string, drop: char -> bool) returns (i: nat)
    ensures var r := Strip(s, drop);
      && i + |r| <= |s| && r == s[i..i + |r|]
      && All(s[..i], drop) && All(s[i + |r|..], drop)
      && CleanEdges(r, drop)
      && (r == s <==> CleanEdges(s, drop))
  {
    var left := StripLeft(s, drop);
    StripLeftOf(s, drop);
    StripRightOf(left, drop);
    i := |s| - |left|;
    var r := StripRight(left, drop);
    assert r == left[..|r|] == s[i..i + |r|];
    assert s[i + |r|..] == left[|r|..];
    if r != [] {
      assert r[0] == left[0];
    }
    if CleanEdges(s, drop) && s != [] {
      assert left == s && left[|left| - 1] == s[|s| - 1];
    }
  }

  /** Stripping takes the dropped characters at both ends and no other. */
  lemma StripSplits(s: string, drop: char -> bool) returns (left: string, right: string)
    ensures s == left + Strip(s, drop) + right && All(left, drop) && All(right, drop)
    ensures CleanEdges(Strip(s, drop), drop)
  {
    var i := StripOf(s, drop);
    left, right := s[..i], s[i + |Strip(s, drop)|..];
  }

  lemma {:induction false} StripLeftPast(edge: string, s: string, drop: char -> bool)
    requires All(edge, drop)
    ensures StripLeft(edge + s, drop) == StripLeft(s, drop)
  {
    if edge == [] {
      assert edge + s == s;
    } else {
      assert (edge + s)[1..] == edge[1..] + s;
      StripLeftPast(edge[1..], s, drop);
    }
  }

  lemma {:induction false} StripRightPast(s: string, edge: string, drop: char -> bool)
    requires All(edge, drop)
    ensures StripRight(s + edge, drop) == StripRight(s, drop)
  {
    if edge == [] {
      assert s + edge == s;
    } else {
      assert (s + edge)[..|s + edge| - 1] == s + edge[..|edge| - 1];
      StripRightPast(s, edge[..|edge| - 1], drop);
    }
  }

  lemma {:induction false} StripLeftShort(s: string, edge: string, drop: char -> bool)
    requires All(edge, drop)
    ensures StripLeft(s + edge, drop) == if StripLeft(s, drop) == [] then [] else StripLeft(s, drop) + edge
  {
    if s == [] {
      assert s + edge == edge + [];
      StripLeftPast(edge, [], drop);
    } else {
      assert (s + edge)[1..] == s[1..] + edge;
      StripLeftShort(s[1..], edge, drop);
    }
  }

  /** Dropped characters added at the edges make no difference. */
  lemma StripPast(before: string, s: string, after: string, drop: char -> bool)
    requires All(before, drop) && All(after, drop)
    ensures Strip(before + s + after, drop) == Strip(s, drop)
  {
    assert before + s + after == before + (s + after);
    StripLeftPast(before, s + after, drop);
    StripLeftShort(s, after, drop);
    StripRightPast(StripLeft(s, drop), after, drop);
  }

  /** White space around a token changes nothing. */
  lemma NormalPast(before: string, token: string, after: string, lower: char -> char, isSpace: char -> bool)
    requires All(before, isSpace) && All(after, isSpace)
    ensures Normal(before + token + after, lower, isSpace) == Normal(token, lower, isSpace)
  {
    StripPast(before, token, after, isSpace);
  }

  /** The separators are gone, the dots single and inside. */
  ghost predicate Canonical(s: string) {
    && (forall c :: c in s ==> c != '-' && c != '_' && c != ' ' && c != '\t')
    && !HasPair(s)
    && CleanEdges(s, IsDot())
  }

  lemma NormalIsCanonical(token: string, lower: char -> char, isSpace: char -> bool)
    ensures Canonical(Normal(token, lower, isSpace))
  {
    var dotted := Mapped(Mapped(Strip(token, isSpace), lower), Dotted());
    CollapseOf(dotted);
    var collapsed := Collapse(dotted);
    var i := StripOf(collapsed, IsDot());
    var r := Strip(collapsed, IsDot());
    assert r == collapsed[i..][..|r|];
    NoPairAfter(collapsed, i);
    NoPairBefore(collapsed[i..], |r|);
    forall c | c in r
      ensures c != '-' && c != '_' && c != ' ' && c != '\t'
    {
      assert c in collapsed && c in dotted;
      var k :| 0 <= k < |dotted| && dotted[k] == c;
    }
  }

  /** The second pass changes nothing exactly when the first left no white space at the edges. */
  lemma AgainIffClean(token: string, lower: char -> char, isSpace: char -> bool)
    requires forall c :: lower(lower(c)) == lower(c)
    requires lower('.') == '.'
    ensures var once := Normal(token, lower, isSpace);
      Normal(once, lower, isSpace) == once <==> CleanEdges(once, isSpace)
  {
    var once := Normal(token, lower, isSpace);
    if CleanEdges(once, isSpace) {
      CleanStays(token, lower, isSpace);
    } else {
      UncleanShrinks(once, lower, isSpace);
    }
  }

  lemma CleanStays(token: string, lower: char -> char, isSpace: char -> bool)
    requires forall c :: lower(lower(c)) == lower(c)
    requires lower('.') == '.'
    requires CleanEdges(Normal(token, lower, isSpace), isSpace)
    ensures Normal(Normal(token, lower, isSpace), lower, isSpace) == Normal(token, lower, isSpace)
  {
    var once := Normal(token, lower, isSpace);
    NormalIsCanonical(token, lower, isSpace);
    var i := StripOf(once, isSpace);
    Lowered(token, lower, isSpace);
    assert forall k :: 0 <= k < |once| ==> once[k] in once;
    assert Mapped(Mapped(once, lower), Dotted()) == once;
    CollapseOf(once);
    var k := StripOf(once, IsDot());
  }

  lemma UncleanShrinks(once: string, lower: char -> char, isSpace: char -> bool)
    requires !CleanEdges(once, isSpace)
    ensures |Normal(once, lower, isSpace)| < |once|
  {
    var i := StripOf(once, isSpace);
    var mapped := Mapped(Mapped(Strip(once, isSpace), lower), Dotted());
    CollapseLength(mapped);
    var j := StripOf(Collapse(mapped), IsDot());
  }

  lemma {:induction false} CollapseLength(s: string)
    ensures |Collapse(s)| <= |s|
  {
    if s != [] {
      CollapseLength(s[1..]);
    }
  }

  lemma Lowered(token: string, lower: char -> char, isSpace: char -> bool)
    requires forall c :: lower(lower(c)) == lower(c)
    requires lower('.') == '.'
    ensures forall c :: c in Normal(token, lower, isSpace) ==> lower(c) == c
  {
    var lowered := Mapped(Strip(token, isSpace), lower);
    var dotted := Mapped(lowered, Dotted());
    CollapseOf(dotted);
    var i := StripOf(Collapse(dotted), IsDot());
    assert forall c :: c in dotted ==> lower(c) == c;
  }

  // ----- what the edges of the result come from

  /** The characters that the normal form turns into a dot. */
  function BecomesDot(lower: char -> char): char -> bool {
    c => lower(c) == '.' || lower(c) == '-' || lower(c) == '_' || lower(c) == ' ' || lower(c) == '\t'
  }

  /** The token without the white space at its edges, and then without what becomes a dot there. */
  function Core(token: string, lower: char -> char, isSpace: char -> bool): string {
    Strip(Strip(token, isSpace), BecomesDot(lower))
  }

  function Normalised(lower: char -> char): char -> char {
    c => if BecomesDot(lower)(c) then '.' else lower(c)
  }

  lemma {:induction false} StripLeftMapped(s: string, lower: char -> char)
    ensures StripLeft(Mapped(s, Normalised(lower)), IsDot()) ==
            Mapped(StripLeft(s, BecomesDot(lower)), Normalised(lower))
  {
    if s != [] {
      assert Mapped(s, Normalised(lower))[1..] == Mapped(s[1..], Normalised(lower));
      StripLeftMapped(s[1..], lower);
    }
  }

  lemma {:induction false} StripRightMapped(s: string, lower: char -> char)
    ensures StripRight(Mapped(s, Normalised(lower)), IsDot()) ==
            Mapped(StripRight(s, BecomesDot(lower)), Normalised(lower))
  {
    if s != [] {
      assert Mapped(s, Normalised(lower))[..|s| - 1] == Mapped(s[..|s| - 1], Normalised(lower));
      StripRightMapped(s[..|s| - 1], lower);
    }
  }

  lemma {:induction false} CollapseSnoc(s: string)
    requires s != []
    ensures var n := |s| - 1;
      Collapse(s) == Collapse(s[..n]) + if s[n] == '.' && n > 0 && s[n - 1] == '.' then [] else [s[n]]
    ensures Collapse(s) != [] && Collapse(s)[|Collapse(s)| - 1] == s[|s| - 1]
  {
    var n := |s| - 1;
    if n == 0 {
      assert s[..0] == [] && s[1..] == [];
    } else {
      CollapseSnoc(s[1..]);
      CollapseStarts(s[1..]);
      CollapseStarts(s[1..n]);
      assert s[1..][..n - 1] == s[1..n] == s[..n][1..];
      assert s[1..][n - 1] == s[n];
    }
  }

  lemma {:induction false} CollapseStripLeft(s: string)
    ensures StripLeft(Collapse(s), IsDot()) == Collapse(StripLeft(s, IsDot()))
  {
    if s != [] {
      CollapseStarts(s);
      CollapseStripLeft(s[1..]);
      var rest := Collapse(s[1..]);
      assert (['.'] + rest)[1..] == rest;
    }
  }

  lemma {:induction false} CollapseStripRight(s: string)
    ensures StripRight(Collapse(s), IsDot()) == Collapse(StripRight(s, IsDot()))
  {
    if s != [] {
      var front := s[..|s| - 1];
      CollapseSnoc(s);
      CollapseStripRight(front);
      assert Collapse(front) + [] == Collapse(front);
      assert (Collapse(front) + [s[|s| - 1]])[..|Collapse(front)|] == Collapse(front);
    }
  }

  /** The normal form is the core, mapped and collapsed: collapsing and stripping dots commute. */
  lemma NormalOfCore(token: string, lower: char -> char, isSpace: char -> bool)
    ensures Normal(token, lower, isSpace) == Collapse(Mapped(Core(token, lower, isSpace), Normalised(lower)))
  {
    var stripped := Strip(token, isSpace);
    var mapped := Mapped(stripped, Normalised(lower));
    assert Mapped(Mapped(stripped, lower), Dotted()) == mapped;
    StripLeftMapped(stripped, lower);
    StripRightMapped(StripLeft(stripped, BecomesDot(lower)), lower);
    CollapseStripLeft(mapped);
    CollapseStripRight(StripLeft(mapped, IsDot()));
  }

  /** The edges of the normal form are the lowered edges of the core. */
  lemma EdgesOfCore(token: string, lower: char -> char, isSpace: char -> bool)
    ensures var once, core := Normal(token, lower, isSpace), Core(token, lower, isSpace);
      && (once == [] <==> core == [])
      && (core != [] ==> once[0] == lower(core[0]) && once[|once| - 1] == lower(core[|core| - 1]))
      && CleanEdges(core, BecomesDot(lower))
  {
    var core := Core(token, lower, isSpace);
    var i := StripOf(Strip(token, isSpace), BecomesDot(lower));
    NormalOfCore(token, lower, isSpace);
    var mapped := Mapped(core, Normalised(lower));
    CollapseStarts(mapped);
    if core != [] {
      CollapseSnoc(mapped);
    }
  }

  /** Normalising twice changes nothing exactly when no edge of the core is lowered to white space. */
  lemma NormalTwice(token: string, lower: char -> char, isSpace: char -> bool)
    requires forall c :: lower(lower(c)) == lower(c)
    requires lower('.') == '.'
    ensures var once, core := Normal(token, lower, isSpace), Core(token, lower, isSpace);
      Normal(once, lower, isSpace) == once <==>
        core == [] || (!isSpace(lower(core[0])) && !isSpace(lower(core[|core| - 1])))
  {
    AgainIffClean(token, lower, isSpace);
    EdgesOfCore(token, lower, isSpace);
  }

  /** So it is idempotent on every token when all white space is separators. */
  lemma NormalTwiceOnSeparators(token: string, lower: char -> char, isSpace: char -> bool)
    requires forall c :: lower(lower(c)) == lower(c)
    requires lower('.') == '.'
    requires forall c :: isSpace(c) ==> c == '-' || c == '_' || c == ' ' || c == '\t'
    ensures Normal(Normal(token, lower, isSpace), lower, isSpace) == Normal(token, lower, isSpace)
  {
    NormalTwice(token, lower, isSpace);
    EdgesOfCore(token, lower, isSpace);
  }

  lemma {:induction false} WithoutDots(s: string)
    requires forall i :: 0 <= i < |s| ==> s[i] != '.'
    ensures Collapse(s) == s
  {
    if s != [] {
      WithoutDots(s[1..]);
    }
  }

  /** A dot ahead of a text that keeps its characters: normalising takes the dot away and no more. */
  lemma DotAhead(rest: string, lower: char -> char, isSpace: char -> bool)
    requires rest != [] && !isSpace('.') && !isSpace(rest[|rest| - 1])
    requires lower('.') == '.' && forall k :: 0 <= k < |rest| ==> Normalised(lower)(rest[k]) == rest[k] != '.'
    ensures Core(['.'] + rest, lower, isSpace) == rest && Normal(['.'] + rest, lower, isSpace) == rest
  {
    CoreOfDotAhead(rest, lower, isSpace);
    NormalOfCore(['.'] + rest, lower, isSpace);
    assert Mapped(rest, Normalised(lower)) == rest;
    WithoutDots(rest);
  }

  lemma CoreOfDotAhead(rest: string, lower: char -> char, isSpace: char -> bool)
    requires rest != [] && !isSpace('.') && !isSpace(rest[|rest| - 1])
    requires lower('.') == '.' && forall k :: 0 <= k < |rest| ==> Normalised(lower)(rest[k]) == rest[k] != '.'
    ensures Core(['.'] + rest, lower, isSpace) == rest
  {
    hide Strip;
    var drop := BecomesDot(lower);
    var i := StripOf(['.'] + rest, isSpace);
    assert !drop(rest[0]) && !drop(rest[|rest| - 1]);
    assert ['.'] + rest + [] == ['.'] + rest;
    StripPast(['.'], rest, [], drop);
    var j := StripOf(rest, drop);
  }

  /** A dot ahead of a line break: the first pass uncovers the line break, the second strips it. */
  lemma NormalTwiceCanDiffer()
    ensures var isSpace := c => c == ' ' || c == '\t' || c == '\n';
      var once := Normal(".\nabc", c => c, isSpace);
      once == "\nabc" && Normal(once, c => c, isSpace) != once
  {
    var lower: char -> char := c => c;
    var isSpace := c => c == ' ' || c == '\t' || c == '\n';
    DotAhead("\nabc", lower, isSpace);
    assert ".\nabc" == ['.'] + "\nabc";
    NormalTwice(".\nabc", lower, isSpace);
  }

  method Normalise(token: string, lower: char -> char, isSpace: char -> bool) returns (cleaned: string)
    ensures cleaned == Normal(token, lower, isSpace)
  {
    cleaned := Mapped(Strip(token, isSpace), lower);
    ghost var lowered := cleaned;
    var separators := Separators();
    for i := 0 to |separators|
      invariant |cleaned| == |lowered|
      invariant forall k :: 0 <= k < |lowered| ==>
                  cleaned[k] == if lowered[k] in separators[..i] then '.' else lowered[k]
    {
      cleaned := Mapped(cleaned, Replacing(separators[i]));
    }
    assert cleaned == Mapped(lowered, Dotted());
    ghost var dotted := cleaned;
    while HasPair(cleaned)
      invariant Collapse(cleaned) == Collapse(dotted)
      decreases |cleaned|
    {
      PairsShrink(cleaned);
      CollapsePairs(cleaned);
      cleaned := ReplacePairs(cleaned);
    }
    CollapseOf(cleaned);
    cleaned := Strip(cleaned, IsDot());
  }

  // ----- resolving

  datatype Resolution = Exact(value: string) | Repaired(value: string) | Ambiguous(near: seq<string>) | Unknown

  /** The words of the vocabulary one edit away, in the vocabulary's order. */
  ghost function Near(cleaned: string, vocabulary: seq<string>): seq<string> {
    if vocabulary == [] then []
    else
      var last := vocabulary[|vocabulary| - 1];
      Near(cleaned, vocabulary[..|vocabulary| - 1]) + if OneEdit(cleaned, last) then [last] else []
  }

  // ----- naming a tie

  /** The order of Python's strings. */
  predicate AtMost(v: string, w: string) {
    v == [] || (w != [] && (v[0] < w[0] || (v[0] == w[0] && AtMost(v[1..], w[1..]))))
  }

  lemma {:induction false} AtMostIsOrder(u: string, v: string, w: string)
    ensures AtMost(u, v) || AtMost(v, u)
    ensures AtMost(u, v) && AtMost(v, w) ==> AtMost(u, w)
  {
    if u != [] && v != [] {
      AtMostIsOrder(u[1..], v[1..], if w == [] then [] else w[1..]);
    }
  }

  ghost predicate InOrder(words: seq<string>) {
    forall i, j :: 0 <= i < j < |words| ==> AtMost(words[i], words[j])
  }

  /** One word more in its place. */
  method Insert(words: seq<string>, word: string) returns (more: seq<string>)
    requires InOrder(words)
    ensures InOrder(more) && multiset(more) == multiset(words) + multiset{word}
  {
    var k := |words|;
    while k > 0 && !AtMost(words[k - 1], word)
      invariant 0 <= k <= |words| && forall j :: k <= j < |words| ==> AtMost(word, words[j])
    {
      AtMostIsOrder(words[k - 1], word, word);
      k := k - 1;
    }
    assert words == words[..k] + words[k..];
    forall i | 0 <= i < k
      ensures AtMost(words[i], word)
    {
      AtMostIsOrder(words[i], words[k - 1], word);
      AtMostIsOrder(words[i], words[i], words[i]);
    }
    more := words[..k] + [word] + words[k..];
  }

  method SortWords(words: seq<string>) returns (sorted: seq<string>)
    ensures InOrder(sorted) && multiset(sorted) == multiset(words)
  {
    sorted := [];
    for i := 0 to |words|
      invariant InOrder(sorted) && multiset(sorted) == multiset(words[..i])
    {
      assert words[..i + 1] == words[..i] + [words[i]];
      sorted := Insert(sorted, words[i]);
    }
    assert words[..|words|] == words;
  }

  /** A member of the vocabulary is taken as it is; any other token of four characters or more is repaired exactly when
      one word alone is a single edit away, and refused otherwise, a tie with its words in order. */
  ghost predicate Resolves(cleaned: string, vocabulary: seq<string>, r: Resolution) {
    var near := Near(cleaned, vocabulary);
    if cleaned in vocabulary then r == Exact(cleaned)
    else if |cleaned| < 4 || |near| == 0 then r == Unknown
    else if |near| == 1 then r == Repaired(near[0])
    else r.Ambiguous? && InOrder(r.near) && multiset(r.near) == multiset(near)
  }

  method Resolve(token: string, vocabulary: seq<string>, lower: char -> char, isSpace: char -> bool)
    returns (cleaned: string, r: Resolution)
    ensures cleaned == Normal(token, lower, isSpace)
    ensures Resolves(cleaned, vocabulary, r)
  {
    hide Normal, OneEdit, IsDistance;
    cleaned := Normalise(token, lower, isSpace);
    if cleaned in vocabulary {
      return cleaned, Exact(cleaned);
    }
    if |cleaned| >= MIN_REPAIR_LENGTH {
      var near := [];
      for i := 0 to |vocabulary|
        invariant near == Near(cleaned, vocabulary[..i])
      {
        var d := Levenshtein(cleaned, vocabulary[i]);
        DistanceOneIffOneEdit(cleaned, vocabulary[i]);
        DistanceOne(cleaned, vocabulary[i], d);
        assert vocabulary[..i + 1][..i] == vocabulary[..i];
        if d == 1 {
          near := near + [vocabulary[i]];
        }
      }
      assert vocabulary[..|vocabulary|] == vocabulary;
      var sorted := SortWords(near);
      assert |sorted| == |multiset(sorted)| == |near|;
      if |sorted| == 1 {
        assert sorted[0] in multiset(near);
        return cleaned, Repaired(sorted[0]);
      }
      if |sorted| > 1 {
        return cleaned, Ambiguous(sorted);
      }
    }
    r := Unknown;
  }

  /** White space around a token changes neither its normal form nor what it resolves to. */
  lemma ResolvesPast(before: string, token: string, after: string, vocabulary: seq<string>, lower: char -> char,
                     isSpace: char -> bool, r: Resolution)
    requires All(before, isSpace) && All(after, isSpace)
    ensures Resolves(Normal(before + token + after, lower, isSpace), vocabulary, r) <==>
            Resolves(Normal(token, lower, isSpace), vocabulary, r)
  {
    NormalPast(before, token, after, lower, isSpace);
  }

  lemma DistanceOne(a: string, b: string, d: nat)
    requires IsDistance(a, b, d)
    ensures IsDistance(a, b, 1) <==> d == 1
  {
    if IsDistance(a, b, 1) {
      DistanceIsUnique(a, b, d, 1);
    }
  }

  /** `Near` lists the words one edit away, a word once for each place it has in the vocabulary. */
  lemma {:induction false} NearIs(cleaned: string, vocabulary: seq<string>)
    ensures forall w :: multiset(Near(cleaned, vocabulary))[w] ==
                        if OneEdit(cleaned, w) then multiset(vocabulary)[w] else 0
  {
    if vocabulary != [] {
      var front, last := vocabulary[..|vocabulary| - 1], vocabulary[|vocabulary| - 1];
      NearIs(cleaned, front);
      assert vocabulary == front + [last];
    }
  }

  /** The argument for repairing at radius 1: when no two words of the vocabulary are one edit apart, a
      word mistyped by one edit is never taken for another word. It is repaired to the word that was
      meant, refused as a tie that names it, or refused as too short. */
  lemma SingleErrorIsDetected(word: string, cleaned: string, vocabulary: seq<string>)
    requires word in vocabulary && OneEdit(word, cleaned)
    requires forall v, w :: v in vocabulary && w in vocabulary ==> !OneEdit(v, w)
    ensures cleaned !in vocabulary && word in Near(cleaned, vocabulary)
    ensures |Near(cleaned, vocabulary)| == 1 ==> Near(cleaned, vocabulary)[0] == word
  {
    DistanceOneIffOneEdit(word, cleaned);
    DistanceLaws(word, cleaned, 1);
    DistanceOneIffOneEdit(cleaned, word);
    NearIs(cleaned, vocabulary);
    assert multiset(Near(cleaned, vocabulary))[word] > 0;
  }
}
