/** Filtering and mapping a sequence in one go, and what that keeps of its order. */
module Collecting {
  import opened Wrappers
  import opened Sorting

  ghost function Collect<T, U>(keep: T -> Option<U>, s: seq<T>): seq<U> {
    if s == [] then []
    else (if keep(s[0]).Some? then [keep(s[0]).value] else []) + Collect(keep, s[1..])
  }

  lemma {:induction false} CollectSource<T, U>(keep: T -> Option<U>, s: seq<T>, x: U) returns (p: nat)
    requires x in Collect(keep, s)
    ensures p < |s| && keep(s[p]) == Some(x)
  {
    if keep(s[0]) == Some(x) {
      p := 0;
    } else {
      p := CollectSource(keep, s[1..], x);
      p := p + 1;
    }
  }

  lemma {:induction false} CollectMember<T, U>(keep: T -> Option<U>, s: seq<T>, p: nat)
    requires p < |s| && keep(s[p]).Some?
    ensures keep(s[p]).value in Collect(keep, s)
  {
    if p > 0 {
      CollectMember(keep, s[1..], p - 1);
    }
  }

  // Two collected elements come from two elements in the same order.
  lemma {:induction false} CollectPair<T, U>(keep: T -> Option<U>, s: seq<T>, i: nat, j: nat)
    returns (p: nat, q: nat)
    requires i < j < |Collect(keep, s)|
    ensures p < q < |s| && keep(s[p]) == Some(Collect(keep, s)[i]) && keep(s[q]) == Some(Collect(keep, s)[j])
  {
    var tail, rest := s[1..], Collect(keep, s[1..]);
    if keep(s[0]).None? {
      assert Collect(keep, s) == rest;
      p, q := CollectPair(keep, tail, i, j);
    } else {
      assert Collect(keep, s) == [keep(s[0]).value] + rest;
      if i == 0 {
        q := CollectSource(keep, tail, rest[j - 1]);
        return 0, q + 1;
      }
      p, q := CollectPair(keep, tail, i - 1, j - 1);
    }
    return p + 1, q + 1;
  }

  // Elements that are kept keep their order.
  lemma {:induction false} CollectPrecedes<T(!new), U(!new)>(keep: T -> Option<U>, s: seq<T>, f: T, g: T, x: U, y: U)
    requires Precedes(f, g, s) && keep(f) == Some(x) && keep(g) == Some(y)
    ensures Precedes(x, y, Collect(keep, s))
    decreases |s|
  {
    var tail, rest := s[1..], Collect(keep, s[1..]);
    PrecedesUncons(f, g, s);
    assert Collect(keep, s) == (if keep(s[0]).Some? then [keep(s[0]).value] else []) + rest;
    if Precedes(f, g, tail) {
      CollectPrecedes(keep, tail, f, g, x, y);
      if keep(s[0]).Some? {
        PrecedesCons(x, y, keep(s[0]).value, rest);
      } else {
        assert Collect(keep, s) == rest;
      }
    } else {
      var q :| 0 <= q < |tail| && tail[q] == g;
      CollectMember(keep, tail, q);
      PrecedesCons(x, y, x, rest);
    }
  }
}
