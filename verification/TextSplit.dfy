/** Splitting a text at a separator that one of its parts does not contain. */
module TextSplit {

  lemma PartsOf(a: string, sep: char, s: string, i: nat)
    requires i < |a + [sep] + s|
    ensures (a + [sep] + s)[|a|] == sep
    ensures i < |a| ==> (a + [sep] + s)[i] in a
    ensures i > |a| ==> (a + [sep] + s)[i] in s
    ensures a == (a + [sep] + s)[..|a|] && s == (a + [sep] + s)[|a| + 1..]
  {
    if i < |a| {
      assert (a + [sep] + s)[i] == a[i];
    } else if i > |a| {
      assert (a + [sep] + s)[i] == s[i - |a| - 1];
    }
  }

  // The last separator splits a text in one way only.
  lemma SplitAtLast(a: string, s: string, b: string, t: string, sep: char)
    requires a + [sep] + s == b + [sep] + t && sep !in s && sep !in t
    ensures a == b && s == t
  {
    PartsOf(a, sep, s, |b|);
    PartsOf(b, sep, t, |a|);
  }

  // So does the first.
  lemma SplitAtFirst(a: string, s: string, b: string, t: string, sep: char)
    requires a + [sep] + s == b + [sep] + t && sep !in a && sep !in b
    ensures a == b && s == t
  {
    PartsOf(a, sep, s, |b|);
    PartsOf(b, sep, t, |a|);
  }
}
