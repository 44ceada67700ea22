/** The string keys of the lease store: `<workspace>:<bot>:<minute>`, and when two of them coincide. */
module LeaseKeys {
  import opened TextSplit

  function Digit(n: nat): char
    requires n < 10
  {
    ('0' as int + n) as char
  }

  function NatText(n: nat): string {
    if n < 10 then [Digit(n)] else NatText(n / 10) + [Digit(n % 10)]
  }

  function IntText(n: int): string {
    if n < 0 then "-" + NatText(-n) else NatText(n)
  }

  function LeaseKey(workspaceId: string, botId: string, minute: int): string {
    workspaceId + ":" + botId + ":" + IntText(minute)
  }

  lemma {:induction false} NatTextIsDigits(n: nat)
    ensures |NatText(n)| >= 1 && (n >= 10 ==> |NatText(n)| >= 2)
    ensures forall c :: c in NatText(n) ==> '0' <= c <= '9'
  {
    if n >= 10 {
      NatTextIsDigits(n / 10);
    }
  }

  lemma {:induction false} NatTextInjective(m: nat, n: nat)
    requires NatText(m) == NatText(n)
    ensures m == n
  {
    NatTextIsDigits(m);
    NatTextIsDigits(n);
    var s, t := NatText(m), NatText(n);
    if m >= 10 && n >= 10 {
      assert s[..|s| - 1] == NatText(m / 10) && t[..|t| - 1] == NatText(n / 10);
      assert s[|s| - 1] == Digit(m % 10) && t[|t| - 1] == Digit(n % 10);
      NatTextInjective(m / 10, n / 10);
    } else {
      assert s[0] == t[0];
    }
  }

  lemma IntTextInjective(m: int, n: int)
    requires IntText(m) == IntText(n)
    ensures m == n
  {
    var x: nat, y: nat := if m < 0 then -m else m, if n < 0 then -n else n;
    NatTextIsDigits(x);
    NatTextIsDigits(y);
    assert NatText(x)[0] in NatText(x) && NatText(y)[0] in NatText(y);
    assert (m < 0) == (IntText(m)[0] == '-') && (n < 0) == (IntText(n)[0] == '-');
    if m < 0 {
      assert IntText(m)[1..] == NatText(x) && IntText(n)[1..] == NatText(y);
    }
    NatTextInjective(x, y);
  }

  lemma NoColonInMinute(minute: int)
    ensures ':' !in IntText(minute)
  {
    NatTextIsDigits(if minute < 0 then -minute else minute);
  }

  /** Two leases share a key exactly when they share the minute and the text `<workspace>:<bot>`. */
  lemma SameKey(w: string, b: string, m: int, w': string, b': string, m': int)
    ensures LeaseKey(w, b, m) == LeaseKey(w', b', m') <==> m == m' && w + ":" + b == w' + ":" + b'
  {
    NoColonInMinute(m);
    NoColonInMinute(m');
    if LeaseKey(w, b, m) == LeaseKey(w', b', m') {
      assert LeaseKey(w, b, m) == (w + ":" + b) + ":" + IntText(m);
      assert LeaseKey(w', b', m') == (w' + ":" + b') + ":" + IntText(m');
      SplitAtLast(w + ":" + b, IntText(m), w' + ":" + b', IntText(m'), ':');
      IntTextInjective(m, m');
    }
  }

  /** So with colon-free workspace ids a key names one workspace, one bot and one minute. */
  lemma ColonFreeKeysAreUnique(w: string, b: string, m: int, w': string, b': string, m': int)
    requires ':' !in w && ':' !in w'
    ensures LeaseKey(w, b, m) == LeaseKey(w', b', m') <==> w == w' && b == b' && m == m'
  {
    SameKey(w, b, m, w', b', m');
    if w + ":" + b == w' + ":" + b' {
      SplitAtFirst(w, b, w', b', ':');
    }
  }

  // Two different bots of two workspaces whose ids contain a colon can get in each other's way.
  lemma ColonsCollide(m: int)
    ensures LeaseKey("a:b", "c", m) == LeaseKey("a", "b:c", m)
  {
    assert "a:b" + ":" + "c" == "a" + ":" + "b:c";
  }
}
