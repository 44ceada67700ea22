/** How many elements of a sequence have a property, and how the number reacts to changes of the sequence. */
module Counting {

  ghost function CountOf<T>(p: T -> bool, s: seq<T>): nat {
    if s == [] then 0 else CountOf(p, s[..|s| - 1]) + if p(s[|s| - 1]) then 1 else 0
  }

  lemma CountPush<T>(p: T -> bool, s: seq<T>, x: T)
    ensures CountOf(p, s + [x]) == CountOf(p, s) + if p(x) then 1 else 0
  {
    assert (s + [x])[..|s|] == s;
  }

  lemma {:induction false} CountUpdate<T>(p: T -> bool, s: seq<T>, i: nat, x: T)
    requires i < |s|
    ensures CountOf(p, s[i := x]) == CountOf(p, s) - (if p(s[i]) then 1 else 0) + (if p(x) then 1 else 0)
  {
    var n := |s| - 1;
    if i < n {
      CountUpdate(p, s[..n], i, x);
      assert s[i := x][..n] == s[..n][i := x];
    } else {
      assert s[i := x][..n] == s[..n];
    }
  }

  lemma {:induction false} CountZero<T>(p: T -> bool, s: seq<T>)
    requires forall x :: x in s ==> !p(x)
    ensures CountOf(p, s) == 0
  {
    if s != [] {
      CountZero(p, s[..|s| - 1]);
    }
  }

  // Two exclusive properties that together make up a third.
  lemma {:induction false} CountSplit<T>(p: T -> bool, q: T -> bool, either: T -> bool, s: seq<T>)
    requires forall x :: x in s ==> !(p(x) && q(x)) && (either(x) <==> p(x) || q(x))
    ensures CountOf(either, s) == CountOf(p, s) + CountOf(q, s)
  {
    if s != [] {
      CountSplit(p, q, either, s[..|s| - 1]);
      assert s[|s| - 1] in s;
    }
  }

  lemma {:induction false} OneIsCounted<T>(p: T -> bool, s: seq<T>, i: nat)
    requires i < |s| && p(s[i])
    ensures CountOf(p, s) >= 1
  {
    if i < |s| - 1 {
      OneIsCounted(p, s[..|s| - 1], i);
    }
  }

  lemma {:induction false} TwoAreCounted<T>(p: T -> bool, s: seq<T>, i: nat, j: nat)
    requires i < j < |s| && p(s[i]) && p(s[j])
    ensures CountOf(p, s) >= 2
  {
    var front := s[..|s| - 1];
    if j < |front| {
      TwoAreCounted(p, front, i, j);
    } else {
      OneIsCounted(p, front, i);
    }
  }
}
