/** Python's ordering of strings (character by character on code points, a proper prefix first)
    and `sorted` over the distinct keys of a dictionary. */
module Ordering {

  /** `a < b` on Python strings. */
  predicate Below(a: string, b: string)
    decreases |a|
  {
    if |a| == 0 then |b| > 0
    else if |b| == 0 then false
    else a[0] < b[0] || (a[0] == b[0] && Below(a[1..], b[1..]))
  }

  lemma {:induction false} BelowIrreflexive(a: string)
    ensures !Below(a, a)
    decreases |a|
  {
    if |a| > 0 {
      BelowIrreflexive(a[1..]);
    }
  }

  lemma {:induction false} BelowTransitive(a: string, b: string, c: string)
    requires Below(a, b) && Below(b, c)
    ensures Below(a, c)
    decreases |a|
  {
    if |a| > 0 && a[0] == b[0] && b[0] == c[0] {
      BelowTransitive(a[1..], b[1..], c[1..]);
    }
  }

  lemma {:induction false} BelowTotal(a: string, b: string)
    ensures a == b || Below(a, b) || Below(b, a)
    decreases |a|
  {
    if |a| > 0 && |b| > 0 && a[0] == b[0] {
      BelowTotal(a[1..], b[1..]);
      if a[1..] == b[1..] {
        assert a == [a[0]] + a[1..] && b == [b[0]] + b[1..];
      }
    }
  }

  lemma BelowAsymmetric(a: string, b: string)
    requires Below(a, b)
    ensures !Below(b, a)
  {
    if Below(b, a) {
      BelowTransitive(a, b, a);
      BelowIrreflexive(a);
    }
  }

  /** The strings a list holds. */
  function Elems(xs: seq<string>): set<string> {
    set x | x in xs
  }

  lemma ElemsEmpty(xs: seq<string>)
    ensures Elems(xs) == {} <==> xs == []
  {
    if xs != [] {
      assert xs[0] in Elems(xs);
    }
  }

  /** Each string strictly below the next one: sorted, and no string twice. */
  predicate StrictlySorted(xs: seq<string>) {
    forall i, j :: 0 <= i < j < |xs| ==> Below(xs[i], xs[j])
  }

  /** Places `x` into a strictly sorted list (where it is already, if it is there). */
  function Insert(x: string, xs: seq<string>): (r: seq<string>)
    requires StrictlySorted(xs)
    ensures StrictlySorted(r)
    ensures Elems(r) == Elems(xs) + {x}
    ensures x in xs ==> r == xs
    ensures x !in xs ==> |r| == |xs| + 1
  {
    if xs == [] then [x]
    else if x == xs[0] then xs
    else if Below(x, xs[0]) then
      PrependBelow(x, xs);
      [x] + xs
    else
      BelowTotal(x, xs[0]);
      var rest := Insert(x, xs[1..]);
      KeepHead(x, xs, rest);
      [xs[0]] + rest
  }

  lemma PrependBelow(x: string, xs: seq<string>)
    requires StrictlySorted(xs) && xs != [] && Below(x, xs[0])
    ensures StrictlySorted([x] + xs)
    ensures x !in xs
  {
    forall j | 0 < j < |xs| ensures Below(x, xs[j]) {
      BelowTransitive(x, xs[0], xs[j]);
    }
    BelowIrreflexive(x);
    var r := [x] + xs;
    assert forall j :: 0 < j < |r| ==> r[j] == xs[j - 1];
  }

  lemma KeepHead(x: string, xs: seq<string>, rest: seq<string>)
    requires StrictlySorted(xs) && xs != [] && Below(xs[0], x)
    requires StrictlySorted(rest) && Elems(rest) == Elems(xs[1..]) + {x}
    requires x in xs[1..] ==> rest == xs[1..]
    requires x !in xs[1..] ==> |rest| == |xs|
    ensures StrictlySorted([xs[0]] + rest)
    ensures Elems([xs[0]] + rest) == Elems(xs) + {x}
    ensures x in xs ==> [xs[0]] + rest == xs
    ensures x !in xs ==> |[xs[0]] + rest| == |xs| + 1
  {
    HeadBelowRest(x, xs, rest);
    assert xs == [xs[0]] + xs[1..];
    BelowIrreflexive(x);
  }

  lemma HeadBelowRest(x: string, xs: seq<string>, rest: seq<string>)
    requires StrictlySorted(xs) && xs != [] && Below(xs[0], x)
    requires StrictlySorted(rest) && Elems(rest) == Elems(xs[1..]) + {x}
    ensures StrictlySorted([xs[0]] + rest)
  {
    forall j | 0 <= j < |rest| ensures Below(xs[0], rest[j]) {
      assert rest[j] in Elems(rest);
      if rest[j] != x {
        var k :| 0 <= k < |xs[1..]| && xs[1..][k] == rest[j];
        assert xs[k + 1] == rest[j];
      }
    }
    var r := [xs[0]] + rest;
    assert forall j :: 0 < j < |r| ==> r[j] == rest[j - 1];
  }

  /** `sorted(keys)`: the keys in increasing order. */
  function Sort(keys: seq<string>): (r: seq<string>)
    ensures StrictlySorted(r)
    ensures Elems(r) == Elems(keys)
  {
    if keys == [] then [] else Insert(keys[|keys| - 1], Sort(keys[..|keys| - 1]))
  }

  /** A strictly sorted list is determined by its elements: whatever algorithm produced it, the
      headings come out in one and the same order. */
  lemma {:induction false} SortedIsUnique(a: seq<string>, b: seq<string>)
    requires StrictlySorted(a) && StrictlySorted(b)
    requires Elems(a) == Elems(b)
    ensures a == b
    decreases |a|
  {
    ElemsEmpty(a);
    ElemsEmpty(b);
    if a != [] {
      assert a[0] in Elems(a) && b[0] in Elems(b);
      assert a[0] in b && b[0] in a;
      if a[0] != b[0] {
        var i :| 0 <= i < |b| && b[i] == a[0];
        var j :| 0 <= j < |a| && a[j] == b[0];
        assert Below(a[0], a[j]);
        assert Below(b[0], b[i]);
        BelowAsymmetric(a[0], b[0]);
        assert false;
      }
      forall x | x in a[1..] ensures x in b[1..] {
        BelowIrreflexive(a[0]);
        assert x in Elems(a);
        assert x in b && x != a[0];
      }
      forall x | x in b[1..] ensures x in a[1..] {
        BelowIrreflexive(b[0]);
        assert x in Elems(b);
        assert x in a && x != b[0];
      }
      assert Elems(a[1..]) == Elems(b[1..]);
      SortedIsUnique(a[1..], b[1..]);
      assert a == [a[0]] + a[1..] && b == [b[0]] + b[1..];
    }
  }

  /** A strictly sorted list holds no string twice, so it is as long as its set of elements. */
  lemma {:induction false} SortedCardinality(xs: seq<string>)
    requires StrictlySorted(xs)
    ensures |Elems(xs)| == |xs|
    decreases |xs|
  {
    if xs != [] {
      SortedCardinality(xs[1..]);
      BelowIrreflexive(xs[0]);
      assert xs[0] !in xs[1..];
      assert Elems(xs) == Elems(xs[1..]) + {xs[0]};
    }
  }
}
