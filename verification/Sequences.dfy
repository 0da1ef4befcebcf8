/** Facts about plain sequences that several components share. */
module Sequences {

  function Elements<T(==)>(xs: seq<T>): set<T> {
    if xs == [] then {} else {xs[0]} + Elements(xs[1..])
  }

  lemma {:induction false} InElements<T>(xs: seq<T>, x: T)
    ensures x in Elements(xs) <==> x in xs
  {
    if xs != [] {
      InElements(xs[1..], x);
      assert xs == [xs[0]] + xs[1..];
    }
  }

  lemma {:induction false} ElementsConcat<T>(xs: seq<T>, ys: seq<T>)
    ensures Elements(xs + ys) == Elements(xs) + Elements(ys)
  {
    if xs == [] {
      assert xs + ys == ys;
    } else {
      assert (xs + ys)[1..] == xs[1..] + ys;
      ElementsConcat(xs[1..], ys);
    }
  }

  lemma NoElements<T>(xs: seq<T>)
    ensures Elements(xs) == {} <==> xs == []
  {
  }

  predicate Distinct<T(==)>(xs: seq<T>) {
    xs != [] ==> xs[0] !in Elements(xs[1..]) && Distinct(xs[1..])
  }

  lemma {:induction false} DistinctConcat<T>(xs: seq<T>, ys: seq<T>)
    ensures Distinct(xs + ys) <==> Distinct(xs) && Distinct(ys) && Elements(xs) !! Elements(ys)
  {
    if xs == [] {
      assert xs + ys == ys;
    } else {
      assert (xs + ys)[1..] == xs[1..] + ys;
      DistinctConcat(xs[1..], ys);
      ElementsConcat(xs[1..], ys);
    }
  }

  lemma One<T>(x: T)
    ensures Elements([x]) == {x} && Distinct([x])
  {
    assert [x][1..] == [];
  }

  lemma Append<T>(xs: seq<T>, x: T)
    ensures Elements(xs + [x]) == Elements(xs) + {x}
    ensures Distinct(xs + [x]) <==> Distinct(xs) && x !in Elements(xs)
  {
    One(x);
    DistinctConcat(xs, [x]);
    ElementsConcat(xs, [x]);
  }

  lemma Snoc<T>(xs: seq<T>)
    requires xs != []
    ensures Elements(xs) == Elements(xs[..|xs| - 1]) + {xs[|xs| - 1]}
    ensures Distinct(xs) ==> Distinct(xs[..|xs| - 1]) && xs[|xs| - 1] !in Elements(xs[..|xs| - 1])
  {
    var earlier, last := xs[..|xs| - 1], [xs[|xs| - 1]];
    assert xs == earlier + last;
    One(xs[|xs| - 1]);
    ElementsConcat(earlier, last);
    DistinctConcat(earlier, last);
  }

  lemma Parts<T>(p: seq<T>, m: seq<T>, t: seq<T>)
    ensures Elements(p + m) == Elements(p) + Elements(m)
    ensures Elements(p + m) <= Elements(p + m + t)
    ensures Distinct(p + m + t) ==> Distinct(m) && Elements(p) !! Elements(m)
  {
    ElementsConcat(p, m);
    ElementsConcat(p + m, t);
    DistinctConcat(p + m, t);
    DistinctConcat(p, m);
  }

  /** A prefix of `xs` and the slice that follows it. */
  lemma Slices<T>(xs: seq<T>, i: nat, j: nat)
    requires i <= j <= |xs|
    ensures xs[..j] == xs[..i] + xs[i..j]
    ensures Elements(xs[..j]) == Elements(xs[..i]) + Elements(xs[i..j])
    ensures Elements(xs[..j]) <= Elements(xs)
    ensures Distinct(xs) ==> Distinct(xs[i..j]) && Elements(xs[..i]) !! Elements(xs[i..j])
  {
    var p, m, t := xs[..i], xs[i..j], xs[j..];
    assert xs[..j] == p + m;
    assert xs == p + m + t;
    Parts(p, m, t);
  }

  lemma {:induction false} DistinctIndices<T>(xs: seq<T>)
    ensures Distinct(xs) <==> forall i, j :: 0 <= i < j < |xs| ==> xs[i] != xs[j]
  {
    if xs != [] {
      var rest := xs[1..];
      DistinctIndices(rest);
      InElements(rest, xs[0]);
      assert forall k :: 0 <= k < |rest| ==> rest[k] == xs[k + 1];
      if xs[0] in rest {
        var k :| 0 <= k < |rest| && rest[k] == xs[0];
        assert xs[0] == xs[k + 1];
      }
      if !Distinct(rest) {
        var i, j :| 0 <= i < j < |rest| && rest[i] == rest[j];
        assert xs[i + 1] == xs[j + 1];
      }
    }
  }

  /** The input without repetitions, first occurrences kept in order. */
  function FirstSeen<T(==)>(xs: seq<T>): seq<T> {
    if xs == [] then []
    else
      var before := FirstSeen(xs[..|xs| - 1]);
      if xs[|xs| - 1] in Elements(before) then before else before + [xs[|xs| - 1]]
  }

  lemma {:induction false} FirstSeenMembers<T>(xs: seq<T>)
    ensures Distinct(FirstSeen(xs)) && Elements(FirstSeen(xs)) == Elements(xs)
  {
    if xs != [] {
      var before, last := xs[..|xs| - 1], xs[|xs| - 1];
      FirstSeenMembers(before);
      assert xs == before + [last];
      ElementsConcat(before, [last]);
      ElementsConcat(FirstSeen(before), [last]);
      DistinctConcat(FirstSeen(before), [last]);
    }
  }

  lemma {:induction false} AlreadyDistinct<A>(xs: seq<A>)
    requires Distinct(xs)
    ensures FirstSeen(xs) == xs
  {
    if xs != [] {
      Snoc(xs);
      AlreadyDistinct(xs[..|xs| - 1]);
    }
  }

  /** The member at this place stands at none before it. */
  ghost predicate FirstAt<T(!new)>(xs: seq<T>, i: nat) {
    i < |xs| && forall k :: 0 <= k < i ==> xs[k] != xs[i]
  }

  /** Members keep the order of their first occurrences. */
  lemma {:induction false} FirstSeenOrder<T(!new)>(xs: seq<T>, i: nat, j: nat) returns (p: nat, q: nat)
    requires FirstAt(xs, i) && FirstAt(xs, j) && i < j
    ensures p < q < |FirstSeen(xs)| && FirstSeen(xs)[p] == xs[i] && FirstSeen(xs)[q] == xs[j]
    decreases |xs|
  {
    var before, last := xs[..|xs| - 1], xs[|xs| - 1];
    FirstSeenMembers(before);
    InElements(before, last);
    if j < |before| {
      assert FirstAt(before, i) && FirstAt(before, j);
      p, q := FirstSeenOrder(before, i, j);
    } else {
      assert before[i] == xs[i];
      InElements(before, xs[i]);
      InElements(FirstSeen(before), xs[i]);
      p :| 0 <= p < |FirstSeen(before)| && FirstSeen(before)[p] == xs[i];
      q := |FirstSeen(before)|;
    }
  }

  /** The members of `xs` outside `gone`, in their order. */
  function Without<T(==)>(xs: seq<T>, gone: set<T>): seq<T> {
    if xs == [] then []
    else if xs[0] in gone then Without(xs[1..], gone)
    else [xs[0]] + Without(xs[1..], gone)
  }

  lemma {:induction false} WithoutMembers<T>(xs: seq<T>, gone: set<T>)
    ensures Elements(Without(xs, gone)) == Elements(xs) - gone
    ensures Distinct(xs) ==> Distinct(Without(xs, gone))
  {
    if xs != [] {
      WithoutMembers(xs[1..], gone);
    }
  }

  lemma {:induction false} WithoutConcat<T>(xs: seq<T>, ys: seq<T>, gone: set<T>)
    ensures Without(xs + ys, gone) == Without(xs, gone) + Without(ys, gone)
  {
    if xs == [] {
      assert xs + ys == ys;
    } else {
      assert (xs + ys)[1..] == xs[1..] + ys;
      WithoutConcat(xs[1..], ys, gone);
    }
  }

  /** Each member is kept in its place, or is gone. */
  lemma WithoutEach<T>(xs: seq<T>, x: T, gone: set<T>)
    ensures Without([], gone) == []
    ensures Without(xs + [x], gone) == Without(xs, gone) + (if x in gone then [] else [x])
  {
    WithoutConcat(xs, [x], gone);
  }

  lemma {:induction false} WithoutAgrees<T>(xs: seq<T>, gone: set<T>, gone': set<T>)
    requires Elements(xs) * gone == Elements(xs) * gone'
    ensures Without(xs, gone) == Without(xs, gone')
  {
    if xs != [] {
      assert xs[0] in gone <==> xs[0] in Elements(xs) * gone;
      assert xs[0] in gone' <==> xs[0] in Elements(xs) * gone';
      var rest := Elements(xs[1..]);
      assert rest * gone == rest * (Elements(xs) * gone);
      assert rest * gone' == rest * (Elements(xs) * gone');
      WithoutAgrees(xs[1..], gone, gone');
    }
  }

  lemma {:induction false} WithoutTwice<T>(xs: seq<T>, gone: set<T>, gone': set<T>)
    ensures Without(Without(xs, gone), gone') == Without(xs, gone + gone')
  {
    if xs != [] {
      WithoutTwice(xs[1..], gone, gone');
    }
  }

  lemma {:induction false} WithoutNone<T>(xs: seq<T>, gone: set<T>)
    requires Elements(xs) !! gone
    ensures Without(xs, gone) == xs
  {
    if xs != [] {
      WithoutNone(xs[1..], gone);
    }
  }

  /** The members of `xs` inside `keep`, in their order. */
  ghost function Within<T>(xs: seq<T>, keep: iset<T>): (r: seq<T>)
    ensures |r| <= |xs|
  {
    if xs == [] then []
    else if xs[0] in keep then [xs[0]] + Within(xs[1..], keep)
    else Within(xs[1..], keep)
  }

  lemma {:induction false} WithinMembers<T>(xs: seq<T>, keep: iset<T>, x: T)
    ensures x in Elements(Within(xs, keep)) <==> x in Elements(xs) && x in keep
  {
    if xs != [] {
      WithinMembers(xs[1..], keep, x);
    }
  }

  lemma {:induction false} WithinConcat<T>(xs: seq<T>, ys: seq<T>, keep: iset<T>)
    ensures Within(xs + ys, keep) == Within(xs, keep) + Within(ys, keep)
  {
    if xs == [] {
      assert xs + ys == ys;
    } else {
      assert (xs + ys)[1..] == xs[1..] + ys;
      WithinConcat(xs[1..], ys, keep);
    }
  }

  lemma {:induction false} WithinAll<T>(xs: seq<T>, keep: iset<T>)
    ensures Within(xs, keep) == xs <==> |Within(xs, keep)| == |xs|
    ensures Within(xs, keep) == xs <==> forall x :: x in Elements(xs) ==> x in keep
  {
    if xs != [] {
      WithinAll(xs[1..], keep);
    }
  }

  lemma Regroup<T>(xs: seq<T>, ys: seq<T>, zs: seq<T>)
    ensures (xs + ys) + zs == xs + (ys + zs)
    ensures ys == [] ==> ys + zs == zs
  {
  }
}
