/** The few string operations the text formats rest on. */
module Strings {

  ghost predicate FreeOf(text: string, c: char) {
    forall k :: 0 <= k < |text| ==> text[k] != c
  }

  /** `text.split(sep)`. */
  function Split(text: string, sep: char): (parts: seq<string>)
    ensures parts != []
  {
    if text == [] then [""]
    else
      var rest := Split(text[1..], sep);
      if text[0] == sep then [""] + rest else [[text[0]] + rest[0]] + rest[1..]
  }

  /** `sep.join(parts)`. */
  function Join(parts: seq<string>, sep: char): string {
    if parts == [] then ""
    else if |parts| == 1 then parts[0]
    else parts[0] + [sep] + Join(parts[1..], sep)
  }

  lemma JoinCons(head: string, rest: seq<string>, sep: char)
    requires rest != []
    ensures Join([head] + rest, sep) == head + [sep] + Join(rest, sep)
  {
    assert ([head] + rest)[1..] == rest;
  }

  lemma JoinLonger(c: char, parts: seq<string>, sep: char)
    requires parts != []
    ensures Join([[c] + parts[0]] + parts[1..], sep) == [c] + Join(parts, sep)
  {
    var longer := [[c] + parts[0]] + parts[1..];
    assert longer[1..] == parts[1..];
    if |parts| > 1 {
      assert ([c] + parts[0]) + [sep] + Join(parts[1..], sep) == [c] + (parts[0] + [sep] + Join(parts[1..], sep));
    }
  }

  lemma {:induction false} SplitHead(head: string, rest: string, sep: char)
    requires FreeOf(head, sep)
    ensures Split(head + [sep] + rest, sep) == [head] + Split(rest, sep)
  {
    var text := head + [sep] + rest;
    if head == [] {
      assert text[1..] == rest;
    } else {
      var below := head[1..] + [sep] + rest;
      assert text[1..] == below;
      SplitHead(head[1..], rest, sep);
      assert Split(below, sep)[1..] == Split(rest, sep);
      assert [head[0]] + head[1..] == head;
    }
  }

  lemma {:induction false} SplitFree(text: string, sep: char)
    requires FreeOf(text, sep)
    ensures Split(text, sep) == [text]
  {
    if text != [] {
      SplitFree(text[1..], sep);
      assert [text[0]] + text[1..] == text;
    }
  }

  lemma {:induction false} SplitJoin(parts: seq<string>, sep: char)
    requires parts != [] && forall k :: 0 <= k < |parts| ==> FreeOf(parts[k], sep)
    ensures Split(Join(parts, sep), sep) == parts
  {
    if |parts| == 1 {
      SplitFree(parts[0], sep);
    } else {
      SplitJoin(parts[1..], sep);
      SplitHead(parts[0], Join(parts[1..], sep), sep);
    }
  }

  lemma {:induction false} JoinSplit(text: string, sep: char)
    ensures Join(Split(text, sep), sep) == text
  {
    if text != [] {
      var rest := Split(text[1..], sep);
      JoinSplit(text[1..], sep);
      if text[0] == sep {
        JoinCons("", rest, sep);
        assert "" + [sep] + text[1..] == text;
      } else {
        JoinLonger(text[0], rest, sep);
      }
    }
  }

  /** The first place of `c`, or the length. */
  function Find(text: string, c: char): (n: nat)
    ensures n <= |text| && FreeOf(text[..n], c) && (n < |text| ==> text[n] == c)
  {
    if text == [] || text[0] == c then 0 else 1 + Find(text[1..], c)
  }

  lemma {:induction false} FindIs(head: string, c: char, rest: string)
    requires FreeOf(head, c)
    ensures Find(head + [c] + rest, c) == |head|
  {
    if head != [] {
      assert (head + [c] + rest)[1..] == head[1..] + [c] + rest;
      FindIs(head[1..], c, rest);
    }
  }

  function Repeat(c: char, n: nat): (text: string)
    ensures |text| == n && forall k :: 0 <= k < n ==> text[k] == c
  {
    if n == 0 then "" else [c] + Repeat(c, n - 1)
  }

  /** How many copies of `c` the text starts with. */
  function Leading(text: string, c: char): (n: nat)
    ensures n <= |text| && (n < |text| ==> text[n] != c)
  {
    if text != [] && text[0] == c then 1 + Leading(text[1..], c) else 0
  }

  lemma {:induction false} LeadingIs(c: char, n: nat, rest: string)
    requires rest == [] || rest[0] != c
    ensures Leading(Repeat(c, n) + rest, c) == n && (Repeat(c, n) + rest)[n..] == rest
    decreases n
  {
    if n == 0 {
      assert Repeat(c, 0) + rest == rest;
    } else {
      LeadingIs(c, n - 1, rest);
      assert (Repeat(c, n) + rest)[1..] == Repeat(c, n - 1) + rest;
    }
  }
}
