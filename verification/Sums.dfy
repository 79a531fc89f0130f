/** Sums of a real-valued function over a sequence, and the laws the rank statistics rest on. */
module Sums {

  function Sum<T>(s: seq<T>, f: T -> real): real {
    if s == [] then 0.0 else f(s[0]) + Sum(s[1..], f)
  }

  lemma {:induction false} SumAppend<T>(s: seq<T>, t: seq<T>, f: T -> real)
    ensures Sum(s + t, f) == Sum(s, f) + Sum(t, f)
  {
    if s == [] {
      assert s + t == t;
    } else {
      assert (s + t)[1..] == s[1..] + t;
      SumAppend(s[1..], t, f);
    }
  }

  /** One more element at the end, the step of every left-to-right loop. */
  lemma SumSnoc<T>(s: seq<T>, i: nat, f: T -> real)
    requires i < |s|
    ensures Sum(s[..i + 1], f) == Sum(s[..i], f) + f(s[i])
  {
    assert s[..i + 1] == s[..i] + [s[i]];
    SumAppend(s[..i], [s[i]], f);
  }

  lemma {:induction false} SumExtensional<T>(s: seq<T>, f: T -> real, g: T -> real)
    requires forall i :: 0 <= i < |s| ==> f(s[i]) == g(s[i])
    ensures Sum(s, f) == Sum(s, g)
  {
    if s == [] {
    } else {
      SumExtensional(s[1..], f, g);
    }
  }

  lemma {:induction false} SumLinear<T>(s: seq<T>, f: T -> real, g: T -> real, h: T -> real, c: real)
    requires forall i :: 0 <= i < |s| ==> h(s[i]) == c * f(s[i]) + g(s[i])
    ensures Sum(s, h) == c * Sum(s, f) + Sum(s, g)
  {
    if s == [] {
    } else {
      SumLinear(s[1..], f, g, h, c);
    }
  }

  lemma {:induction false} SumConstant<T>(s: seq<T>, f: T -> real, c: real)
    requires forall i :: 0 <= i < |s| ==> f(s[i]) == c
    ensures Sum(s, f) == |s| as real * c
  {
    if s == [] {
    } else {
      SumConstant(s[1..], f, c);
    }
  }

  /** Any summand may be taken out first. */
  lemma SumExtract<T>(t: seq<T>, k: nat, f: T -> real)
    requires k < |t|
    ensures Sum(t, f) == f(t[k]) + Sum(t[..k] + t[k + 1..], f)
  {
    var head, rest := t[..k], t[k + 1..];
    assert t == head + ([t[k]] + rest);
    assert ([t[k]] + rest)[1..] == rest;
    assert Sum([t[k]] + rest, f) == f(t[k]) + Sum(rest, f);
    hide Sum;
    SumAppend(head, rest, f);
    SumAppend(head, [t[k]] + rest, f);
  }

  lemma MultisetExtract<T>(t: seq<T>, k: nat)
    requires k < |t|
    ensures multiset(t[..k] + t[k + 1..]) == multiset(t) - multiset{t[k]}
  {
    assert t == t[..k] + ([t[k]] + t[k + 1..]);
  }

  /** The order of the summands does not matter. */
  lemma {:induction false} SumPermutation<T>(s: seq<T>, t: seq<T>, f: T -> real)
    requires multiset(s) == multiset(t)
    ensures Sum(s, f) == Sum(t, f)
  {
    if s == [] {
      assert |t| == |multiset(t)| == |multiset(s)| == 0;
    } else {
      assert s[0] in multiset(t);
      var k :| 0 <= k < |t| && t[k] == s[0];
      hide Sum;
      SumExtract(s, 0, f);
      SumExtract(t, k, f);
      MultisetExtract(s, 0);
      MultisetExtract(t, k);
      SumPermutation(s[..0] + s[1..], t[..k] + t[k + 1..], f);
    }
  }

  /** A sum of non-negative terms vanishes only when every term does. */
  lemma {:induction false} SumNonnegative<T>(s: seq<T>, f: T -> real)
    requires forall i :: 0 <= i < |s| ==> f(s[i]) >= 0.0
    ensures Sum(s, f) >= 0.0
    ensures Sum(s, f) == 0.0 <==> forall i :: 0 <= i < |s| ==> f(s[i]) == 0.0
  {
    if s == [] {
    } else {
      SumNonnegative(s[1..], f);
      assert forall i :: 0 < i < |s| ==> s[i] == s[1..][i - 1];
    }
  }
}
