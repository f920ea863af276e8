/** Sequences without repetitions and the removal of elements from them. */
module Sequences {

  predicate NoRepeats<T(==)>(s: seq<T>) {
    forall i, j :: 0 <= i < j < |s| ==> s[i] != s[j]
  }

  /** `s` without `x`. */
  function Without<T(==)>(s: seq<T>, x: T): (r: seq<T>)
    ensures x !in s ==> r == s
  {
    if s == [] then [] else (if s[0] == x then [] else [s[0]]) + Without(s[1..], x)
  }

  lemma {:induction false} WithoutHas<T>(s: seq<T>, x: T, y: T)
    ensures y in Without(s, x) <==> y in s && y != x
  {
    if s != [] {
      WithoutHas(s[1..], x, y);
      assert s == [s[0]] + s[1..];
    }
  }

  lemma {:induction false} WithoutNoRepeats<T>(s: seq<T>, x: T)
    requires NoRepeats(s)
    ensures NoRepeats(Without(s, x))
  {
    if s != [] {
      WithoutNoRepeats(s[1..], x);
      WithoutHas(s[1..], x, s[0]);
      var rest := Without(s[1..], x);
      assert s[0] !in s[1..];
    }
  }

  /** The same for all elements, by position. */
  lemma WithoutMembers<T>(s: seq<T>, x: T)
    ensures forall i :: 0 <= i < |Without(s, x)| ==> Without(s, x)[i] in s && Without(s, x)[i] != x
    ensures forall i :: 0 <= i < |s| && s[i] != x ==> s[i] in Without(s, x)
  {
    var r := Without(s, x);
    forall i | 0 <= i < |r| ensures r[i] in s && r[i] != x { WithoutHas(s, x, r[i]); }
    forall i | 0 <= i < |s| && s[i] != x ensures s[i] in r { WithoutHas(s, x, s[i]); }
  }

  lemma {:induction false} WithoutAbsent<T>(s: seq<T>, x: T)
    ensures x !in s ==> Without(s, x) == s
  {
    if s != [] {
      WithoutAbsent(s[1..], x);
    }
  }

  lemma WithoutCons<T>(y: T, rest: seq<T>, x: T)
    ensures Without([y] + rest, x) == if y == x then Without(rest, x) else [y] + Without(rest, x)
  {
    assert ([y] + rest)[1..] == rest;
  }

  lemma Assoc<T>(a: seq<T>, b: seq<T>, c: seq<T>)
    ensures a + (b + c) == (a + b) + c
  {
  }

  /** Without its k-th element, a sequence without repetitions is what is before and behind it. */
  lemma {:induction false} WithoutAt<T>(s: seq<T>, k: nat)
    requires NoRepeats(s) && k < |s|
    ensures Without(s, s[k]) == s[..k] + s[k + 1..]
  {
    NoRepeatsTail(s);
    assert k > 0 ==> s[0] != s[k] && s[k] == s[1..][k - 1];
    assert s == [s[0]] + s[1..];
    hide NoRepeats, Without;
    WithoutCons(s[0], s[1..], s[k]);
    if k > 0 {
      WithoutAt(s[1..], k - 1);
      CutCons(s, k);
    } else {
      WithoutAbsent(s[1..], s[0]);
    }
  }

  /** What is before and behind the k-th element, seen from the second element on. */
  lemma CutCons<T>(s: seq<T>, k: nat)
    requires 0 < k < |s|
    ensures s[..k] + s[k + 1..] == [s[0]] + (s[1..][..k - 1] + s[1..][k..])
  {
  }

  /** `s` without the elements of `xs`. */
  function Minus<T(==)>(s: seq<T>, xs: seq<T>): seq<T> {
    if s == [] then [] else (if s[0] in xs then [] else [s[0]]) + Minus(s[1..], xs)
  }

  lemma {:induction false} MinusNothing<T>(s: seq<T>)
    ensures Minus(s, []) == s
  {
    if s != [] {
      MinusNothing(s[1..]);
      assert s == [s[0]] + s[1..];
    }
  }

  lemma {:induction false} MinusOne<T>(s: seq<T>, xs: seq<T>, x: T)
    ensures Without(Minus(s, xs), x) == Minus(s, xs + [x])
  {
    if s != [] {
      hide Without;
      var y, rest := s[0], s[1..];
      MinusOne(rest, xs, x);
      WithoutCons(y, Minus(rest, xs), x);
      assert [] + Minus(rest, xs) == Minus(rest, xs);
    } else {
      assert Without(s, x) == [];
    }
  }

  lemma {:induction false} MinusHas<T>(s: seq<T>, xs: seq<T>, x: T)
    ensures x in Minus(s, xs) <==> x in s && x !in xs
  {
    if s != [] {
      MinusHas(s[1..], xs, x);
      assert s == [s[0]] + s[1..];
    }
  }

  lemma {:induction false} MinusTwice<T>(s: seq<T>, xs: seq<T>, ys: seq<T>)
    ensures Minus(Minus(s, xs), ys) == Minus(s, xs + ys)
  {
    if s != [] {
      var x, rest := s[0], s[1..];
      MinusTwice(rest, xs, ys);
      assert ([x] + Minus(rest, xs))[1..] == Minus(rest, xs) && [] + Minus(rest, xs) == Minus(rest, xs);
    }
  }

  /** Newest first: what head insertion makes of a list of elements inserted in order. */
  function Reversed<T>(s: seq<T>): (r: seq<T>)
    ensures |r| == |s|
  {
    if s == [] then [] else [s[|s| - 1]] + Reversed(s[..|s| - 1])
  }

  lemma ReversedGrow<T>(s: seq<T>, x: T, rest: seq<T>)
    ensures [x] + (Reversed(s) + rest) == Reversed(s + [x]) + rest
  {
    assert (s + [x])[..|s|] == s;
  }

  lemma NoRepeatsCons<T>(x: T, s: seq<T>)
    requires NoRepeats(s) && x !in s
    ensures NoRepeats([x] + s)
  {
  }

  lemma NoRepeatsTail<T>(s: seq<T>)
    requires NoRepeats(s) && s != []
    ensures NoRepeats(s[1..]) && s[0] !in s[1..]
  {
  }

  lemma NoRepeatsSnoc<T>(s: seq<T>, x: T)
    requires NoRepeats(s) && x !in s
    ensures NoRepeats(s + [x])
  {
  }
}
