/**
 Array.prototype.sort: a stable sort by a comparator. `before(a, b)` stands for
 `compare(a, b) < 0`, so equal elements keep the order they came in.
 */
module Sorting {

  function Insert<T>(before: (T, T) -> bool, x: T, s: seq<T>): seq<T> {
    if s == [] then [x]
    else if before(s[0], x) then [s[0]] + Insert(before, x, s[1..])
    else [x] + s
  }

  function Sort<T>(before: (T, T) -> bool, s: seq<T>): seq<T> {
    if s == [] then [] else Insert(before, s[0], Sort(before, s[1..]))
  }

  // compare is consistent: a strict weak order.
  ghost predicate WeakOrder<T(!new)>(before: (T, T) -> bool) {
    && (forall x, y :: before(x, y) ==> !before(y, x))
    && (forall x, y, z :: !before(x, y) && !before(y, z) ==> !before(x, z))
  }

  // No element stands before an earlier one.
  ghost predicate Ordered<T>(before: (T, T) -> bool, s: seq<T>) {
    forall i, j :: 0 <= i < j < |s| ==> !before(s[j], s[i])
  }

  ghost predicate StrictlyOrdered<T>(before: (T, T) -> bool, s: seq<T>) {
    forall i, j :: 0 <= i < j < |s| ==> before(s[i], s[j])
  }

  // A relation that holds between any two positions of a sequence.
  ghost predicate Pairwise<T>(related: (T, T) -> bool, s: seq<T>) {
    forall i, j :: 0 <= i < |s| && 0 <= j < |s| && i != j ==> related(s[i], s[j])
  }

  lemma {:induction false} InsertMultiset<T>(before: (T, T) -> bool, x: T, s: seq<T>)
    ensures multiset(Insert(before, x, s)) == multiset(s) + multiset{x}
  {
    if s != [] && before(s[0], x) {
      InsertMultiset(before, x, s[1..]);
      assert s == [s[0]] + s[1..];
    }
  }

  // Sorting permutes its input.
  lemma {:induction false} SortMultiset<T>(before: (T, T) -> bool, s: seq<T>)
    ensures multiset(Sort(before, s)) == multiset(s)
  {
    if s != [] {
      SortMultiset(before, s[1..]);
      InsertMultiset(before, s[0], Sort(before, s[1..]));
      assert s == [s[0]] + s[1..];
    }
  }

  lemma SortMembers<T>(before: (T, T) -> bool, s: seq<T>)
    ensures |Sort(before, s)| == |s|
    ensures forall x :: x in Sort(before, s) <==> x in s
  {
    SortMultiset(before, s);
    assert |multiset(Sort(before, s))| == |multiset(s)|;
    forall x ensures x in Sort(before, s) <==> x in s {
      assert x in Sort(before, s) <==> x in multiset(Sort(before, s));
      assert x in s <==> x in multiset(s);
    }
  }

  lemma {:induction false} InsertOrdered<T(!new)>(before: (T, T) -> bool, x: T, s: seq<T>)
    requires WeakOrder(before) && Ordered(before, s)
    ensures Ordered(before, Insert(before, x, s))
  {
    if s != [] {
      var r := Insert(before, x, s);
      if before(s[0], x) {
        InsertOrdered(before, x, s[1..]);
        InsertMultiset(before, x, s[1..]);
        var t := Insert(before, x, s[1..]);
        forall j | 0 <= j < |t| ensures !before(t[j], s[0]) {
          assert t[j] in multiset(t);
          assert t[j] == x || t[j] in s[1..];
        }
        assert r == [s[0]] + t;
      } else {
        forall j | 0 <= j < |s| ensures !before(s[j], x) {
          assert j == 0 || !before(s[j], s[0]);
        }
        assert r == [x] + s;
      }
    }
  }

  lemma {:induction false} SortOrdered<T(!new)>(before: (T, T) -> bool, s: seq<T>)
    requires WeakOrder(before)
    ensures Ordered(before, Sort(before, s))
  {
    if s != [] {
      SortOrdered(before, s[1..]);
      InsertOrdered(before, s[0], Sort(before, s[1..]));
    }
  }

  lemma {:induction false} InsertPairwise<T>(before: (T, T) -> bool, related: (T, T) -> bool, x: T, s: seq<T>)
    requires Pairwise(related, s)
    requires forall y :: y in s ==> related(x, y) && related(y, x)
    ensures Pairwise(related, Insert(before, x, s))
  {
    if s != [] && before(s[0], x) {
      var t := Insert(before, x, s[1..]);
      InsertPairwise(before, related, x, s[1..]);
      InsertMultiset(before, x, s[1..]);
      forall j | 0 <= j < |t| ensures related(t[j], s[0]) && related(s[0], t[j]) {
        assert t[j] in multiset(t);
        if t[j] != x {
          var k :| 0 <= k < |s[1..]| && s[1..][k] == t[j];
          assert s[k + 1] == t[j];
        }
      }
    }
  }

  // What holds between any two elements still holds after sorting.
  lemma {:induction false} SortPairwise<T>(before: (T, T) -> bool, related: (T, T) -> bool, s: seq<T>)
    requires Pairwise(related, s)
    ensures Pairwise(related, Sort(before, s))
  {
    if s != [] {
      var tail := s[1..];
      assert forall i, j :: 0 <= i < |tail| && 0 <= j < |tail| && i != j ==> tail[i] == s[i + 1] && tail[j] == s[j + 1];
      SortPairwise(before, related, tail);
      SortMultiset(before, tail);
      forall y | y in Sort(before, tail) ensures related(s[0], y) && related(y, s[0]) {
        assert y in multiset(Sort(before, tail));
        var k :| 0 <= k < |tail| && tail[k] == y;
        assert s[k + 1] == y;
      }
      InsertPairwise(before, related, s[0], Sort(before, tail));
    }
  }

  lemma HeadMember<T>(s: seq<T>)
    ensures s == [] || s[0] in s
  {
  }

  // A strictly ordered sequence is determined by its elements.
  lemma {:induction false} StrictlyOrderedUnique<T(!new)>(before: (T, T) -> bool, a: seq<T>, b: seq<T>)
    requires forall x, y :: before(x, y) ==> !before(y, x)
    requires StrictlyOrdered(before, a) && StrictlyOrdered(before, b)
    requires forall x :: x in a <==> x in b
    ensures a == b
  {
    HeadMember(a);
    HeadMember(b);
    if a != [] && b != [] {
      assert a[0] == b[0];
      assert a == [a[0]] + a[1..] && b == [b[0]] + b[1..];
      forall x ensures x in a[1..] <==> x in b[1..] {
        assert x in a <==> x == a[0] || x in a[1..];
        assert x in b <==> x == b[0] || x in b[1..];
        assert !before(a[0], a[0]);
      }
      StrictlyOrderedUnique(before, a[1..], b[1..]);
    }
  }

  // Sorting what is in order already changes nothing.
  lemma {:induction false} SortFixed<T>(before: (T, T) -> bool, s: seq<T>)
    requires Ordered(before, s)
    ensures Sort(before, s) == s
  {
    if s != [] {
      var tail := s[1..];
      assert forall i, j :: 0 <= i < j < |tail| ==> tail[i] == s[i + 1] && tail[j] == s[j + 1];
      SortFixed(before, tail);
      assert tail != [] ==> tail[0] == s[1];
      assert s == [s[0]] + tail;
    }
  }

  ghost predicate Precedes<T(!new)>(x: T, y: T, s: seq<T>) {
    exists i, j :: 0 <= i < j < |s| && s[i] == x && s[j] == y
  }

  lemma PrecedesHere<T(!new)>(x: T, y: T, s: seq<T>, i: nat, j: nat)
    requires i < j < |s| && s[i] == x && s[j] == y
    ensures Precedes(x, y, s)
  {
  }

  // The first element comes before every later one, and prefixing keeps the order of the rest.
  lemma PrecedesCons<T(!new)>(x: T, y: T, z: T, s: seq<T>)
    requires (x == z && y in s) || Precedes(x, y, s)
    ensures Precedes(x, y, [z] + s)
  {
    if x == z && y in s {
      var j :| 0 <= j < |s| && s[j] == y;
      PrecedesHere(x, y, [z] + s, 0, j + 1);
    } else {
      var i, j :| 0 <= i < j < |s| && s[i] == x && s[j] == y;
      PrecedesHere(x, y, [z] + s, i + 1, j + 1);
    }
  }

  lemma PrecedesUncons<T(!new)>(x: T, y: T, s: seq<T>)
    requires Precedes(x, y, s)
    ensures s != [] && ((x == s[0] && y in s[1..]) || Precedes(x, y, s[1..]))
  {
    var i, j :| 0 <= i < j < |s| && s[i] == x && s[j] == y;
    assert s[1..][j - 1] == y;
    if i > 0 {
      PrecedesHere(x, y, s[1..], i - 1, j - 1);
    }
  }

  // An element is inserted before every element that is not smaller ...
  lemma {:induction false} InsertPrecedes<T(!new)>(before: (T, T) -> bool, x: T, y: T, s: seq<T>)
    requires y in s && !before(y, x)
    ensures Precedes(x, y, Insert(before, x, s))
  {
    if before(s[0], x) {
      assert s == [s[0]] + s[1..];
      InsertPrecedes(before, x, y, s[1..]);
      PrecedesCons(x, y, s[0], Insert(before, x, s[1..]));
    } else {
      PrecedesCons(x, y, x, s);
    }
  }

  // ... and leaves the others in their order.
  lemma {:induction false} InsertKeepsOrder<T(!new)>(before: (T, T) -> bool, x: T, y: T, z: T, s: seq<T>)
    requires Precedes(y, z, s)
    ensures Precedes(y, z, Insert(before, x, s))
  {
    if before(s[0], x) {
      PrecedesUncons(y, z, s);
      var t := Insert(before, x, s[1..]);
      InsertMultiset(before, x, s[1..]);
      assert z in s[1..] ==> z in multiset(t);
      if Precedes(y, z, s[1..]) {
        InsertKeepsOrder(before, x, y, z, s[1..]);
      }
      PrecedesCons(y, z, s[0], t);
    } else {
      PrecedesCons(y, z, x, s);
    }
  }

  // Sorting is stable: of two elements that do not ask to be exchanged the earlier one stays first.
  lemma {:induction false} SortIsStable<T(!new)>(before: (T, T) -> bool, s: seq<T>, i: nat, j: nat)
    requires i < j < |s| && !before(s[j], s[i])
    ensures Precedes(s[i], s[j], Sort(before, s))
  {
    var tail := s[1..];
    if i == 0 {
      SortMembers(before, tail);
      assert tail[j - 1] in tail;
      InsertPrecedes(before, s[0], s[j], Sort(before, tail));
    } else {
      SortIsStable(before, tail, i - 1, j - 1);
      InsertKeepsOrder(before, s[0], s[i], s[j], Sort(before, tail));
    }
  }
}
