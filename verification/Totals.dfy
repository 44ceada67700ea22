/** Sums of a real-valued measure over a sequence, and how they react to changes of the sequence. */
module Totals {

  ghost function Total<T>(measure: T -> real, s: seq<T>): real {
    if s == [] then 0.0 else Total(measure, s[..|s| - 1]) + measure(s[|s| - 1])
  }

  // The measure that sums the numbers of a sequence themselves.
  function Itself(x: real): real {
    x
  }

  lemma TotalPush<T>(measure: T -> real, s: seq<T>, x: T)
    ensures Total(measure, s + [x]) == Total(measure, s) + measure(x)
  {
    assert (s + [x])[..|s|] == s;
  }

  lemma {:induction false} TotalConcat<T>(measure: T -> real, s: seq<T>, t: seq<T>)
    ensures Total(measure, s + t) == Total(measure, s) + Total(measure, t)
    decreases |t|
  {
    if t == [] {
      assert s + t == s;
    } else {
      var front := t[..|t| - 1];
      TotalConcat(measure, s, front);
      assert s + t == (s + front) + [t[|t| - 1]];
      TotalPush(measure, s + front, t[|t| - 1]);
    }
  }

  lemma TotalHead<T>(measure: T -> real, s: seq<T>)
    requires s != []
    ensures Total(measure, s) == measure(s[0]) + Total(measure, s[1..])
  {
    assert s == [s[0]] + s[1..];
    TotalConcat(measure, [s[0]], s[1..]);
    TotalPush(measure, [], s[0]);
    assert [] + [s[0]] == [s[0]];
  }

  // Replacing one element changes the sum by the difference of the two measures.
  lemma TotalUpdate<T>(measure: T -> real, s: seq<T>, i: nat, x: T)
    requires i < |s|
    ensures Total(measure, s[i := x]) == Total(measure, s) - measure(s[i]) + measure(x)
  {
    var rest := s[i + 1..];
    assert s == (s[..i] + [s[i]]) + rest;
    assert s[i := x] == (s[..i] + [x]) + rest;
    TotalConcat(measure, s[..i] + [s[i]], rest);
    TotalConcat(measure, s[..i] + [x], rest);
    TotalPush(measure, s[..i], s[i]);
    TotalPush(measure, s[..i], x);
  }

  lemma {:induction false} TotalNonNegative<T>(measure: T -> real, s: seq<T>)
    requires forall x :: x in s ==> measure(x) >= 0.0
    ensures Total(measure, s) >= 0.0
  {
    if s != [] {
      TotalNonNegative(measure, s[..|s| - 1]);
    }
  }

  lemma {:induction false} ZeroTotal<T>(measure: T -> real, s: seq<T>)
    requires forall x :: x in s ==> measure(x) == 0.0
    ensures Total(measure, s) == 0.0
  {
    if s != [] {
      ZeroTotal(measure, s[..|s| - 1]);
    }
  }

  // A sum of non-negative terms that is zero has only zero terms.
  lemma {:induction false} TermOfZeroTotal<T>(measure: T -> real, s: seq<T>, x: T)
    requires forall y :: y in s ==> measure(y) >= 0.0
    requires Total(measure, s) == 0.0 && x in s
    ensures measure(x) == 0.0
  {
    var front := s[..|s| - 1];
    TotalNonNegative(measure, front);
    if x in front {
      TermOfZeroTotal(measure, front, x);
    }
  }

  // A bound on every element bounds the sum.
  lemma {:induction false} TotalAtMost<T>(f: T -> real, g: T -> real, s: seq<T>)
    requires forall x :: x in s ==> f(x) <= g(x)
    ensures Total(f, s) <= Total(g, s)
  {
    if s != [] {
      TotalAtMost(f, g, s[..|s| - 1]);
    }
  }

  // Two measures that agree up to e on every element have sums that agree up to e per element.
  lemma {:induction false} TotalsClose<T>(f: T -> real, g: T -> real, s: seq<T>, e: real)
    requires forall x :: x in s ==> -e <= f(x) - g(x) <= e
    ensures -(e * |s| as real) <= Total(f, s) - Total(g, s) <= e * |s| as real
  {
    if s != [] {
      var front := s[..|s| - 1];
      TotalsClose(f, g, front, e);
      assert e * |s| as real == e * |front| as real + e;
    }
  }
}
