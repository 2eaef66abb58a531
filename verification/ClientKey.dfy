/** The rate limiter's bucket keys: "u:" and a user id in decimal, or "ip:" and an address. */
module ClientKey {

  newtype uint64 = x: int | 0 <= x < 0x1_0000_0000_0000_0000

  function Digit(d: int): char
    requires 0 <= d < 10
  {
    '0' + d as char
  }

  /** What a digit string denotes. */
  function Value(s: string): int {
    if s == [] then 0 else 10 * Value(s[..|s| - 1]) + (s[|s| - 1] as int - '0' as int)
  }

  function Pow10(n: nat): nat {
    if n == 0 then 1 else 10 * Pow10(n - 1)
  }

  predicate Digits(s: string) {
    forall i :: 0 <= i < |s| ==> '0' <= s[i] <= '9'
  }

  /** Putting a digit in front adds it at that place. */
  lemma {:induction false} ValueCons(c: char, s: string)
    ensures Value([c] + s) == (c as int - '0' as int) * Pow10(|s|) + Value(s)
  {
    if s == [] {
      assert [c] + s == [c] && [c][..0] == [];
    } else {
      var front := s[..|s| - 1];
      ValueCons(c, front);
      assert ([c] + s)[..|s|] == [c] + front;
      assert Value([c] + s) == 10 * ((c as int - '0' as int) * Pow10(|front|) + Value(front)) + (s[|s| - 1] as int - '0' as int);
    }
  }

  lemma {:induction false} LeadingDigitBounds(s: string)
    requires Digits(s) && s != [] && s[0] != '0'
    ensures Value(s) >= Pow10(|s| - 1)
  {
    if |s| > 1 {
      LeadingDigitBounds(s[..|s| - 1]);
    } else {
      assert s[..0] == [];
    }
  }

  lemma {:induction false} Pow10Grows(m: nat, n: nat)
    requires m <= n
    ensures Pow10(m) <= Pow10(n)
  {
    if m < n {
      Pow10Grows(m, n - 1);
    }
  }

  lemma Pow10Of20()
    ensures Pow10(20) == 100_000_000_000_000_000_000
  {
    assert Pow10(5) == 100_000;
    assert Pow10(10) == 10_000_000_000;
    assert Pow10(15) == 1_000_000_000_000_000;
  }

  /** One digit moves from the number still to print to the digits already printed. */
  lemma DigitStep(n: int, d: int, q: int, p: int, tail: int)
    requires d == n % 10 && q == n / 10
    ensures q * (10 * p) + (d * p + tail) == n * p + tail
  {
    assert n == 10 * q + d;
    assert n * p == (10 * q + d) * p == 10 * q * p + d * p;
    assert q * (10 * p) == 10 * q * p;
  }

  /**
   * uint64ToStr: digits are put in front one at a time. The result denotes the
   * number, has no leading zero and never outgrows the 20 bytes reserved for it.
   */
  method Uint64ToStr(n: uint64) returns (s: string)
    ensures Value(s) == n as int
    ensures Digits(s) && 1 <= |s| <= 20 && (s[0] == '0' ==> s == "0")
  {
    if n == 0 {
      assert "0"[..0] == "";
      return "0";
    }
    var left := n;
    s := "";
    while left > 0
      invariant Digits(s)
      invariant left as int * Pow10(|s|) + Value(s) == n as int
      invariant left == 0 ==> s != "" && s[0] != '0'
      decreases left
    {
      var c := Digit((left % 10) as int);
      ValueCons(c, s);
      DigitStep(left as int, (left % 10) as int, (left / 10) as int, Pow10(|s|), Value(s));
      s := [c] + s;
      left := left / 10;
    }
    LeadingDigitBounds(s);
    if |s| > 20 {
      Pow10Grows(20, |s| - 1);
      Pow10Of20();
    }
  }

  /** Two canonical digit strings with the same value are the same string. */
  lemma {:induction false} ValueInjective(s: string, t: string)
    requires Digits(s) && Digits(t) && |s| == |t| && Value(s) == Value(t)
    ensures s == t
  {
    if s != [] {
      var a, b := s[|s| - 1] as int - '0' as int, t[|t| - 1] as int - '0' as int;
      assert Value(s) == 10 * Value(s[..|s| - 1]) + a && Value(t) == 10 * Value(t[..|t| - 1]) + b;
      ValueInjective(s[..|s| - 1], t[..|t| - 1]);
      assert s == s[..|s| - 1] + [s[|s| - 1]] && t == t[..|t| - 1] + [t[|t| - 1]];
    }
  }

  lemma {:induction false} ValueBelow(s: string)
    requires Digits(s)
    ensures 0 <= Value(s) < Pow10(|s|)
  {
    if s != [] {
      ValueBelow(s[..|s| - 1]);
    }
  }

  predicate Canonical(s: string) {
    Digits(s) && s != "" && (s[0] == '0' ==> s == "0")
  }

  /** Decimal numerals without leading zeros are unique, so distinct users never share a bucket. */
  lemma CanonicalUnique(s: string, t: string)
    requires Canonical(s) && Canonical(t) && Value(s) == Value(t)
    ensures s == t
  {
    if |s| < |t| {
      ShorterIsLess(s, t);
    } else if |t| < |s| {
      ShorterIsLess(t, s);
    }
    ValueInjective(s, t);
  }

  lemma ShorterIsLess(s: string, t: string)
    requires Canonical(s) && Canonical(t) && |s| < |t|
    ensures Value(s) < Value(t)
  {
    ValueBelow(s);
    LeadingDigitBounds(t);
    Pow10Grows(|s|, |t| - 1);
  }

  /** The key of a request; user id 0 stands for no user. */
  ghost predicate IsKey(id: uint64, ip: string, key: string) {
    if id != 0 then |key| >= 2 && key[..2] == "u:" && Canonical(key[2..]) && Value(key[2..]) == id as int
    else key == "ip:" + ip
  }

  method Key(id: uint64, ip: string) returns (key: string)
    ensures IsKey(id, ip, key)
  {
    if id != 0 {
      var s := Uint64ToStr(id);
      key := "u:" + s;
      assert key[2..] == s;
    } else {
      key := "ip:" + ip;
    }
  }

  /** Two requests share a bucket exactly when they come from the same user, or both from no user and the same address. */
  lemma BucketsApart(id: uint64, ip: string, key: string, id': uint64, ip': string, key': string)
    requires IsKey(id, ip, key) && IsKey(id', ip', key')
    ensures key == key' <==> id == id' && (id == 0 ==> ip == ip')
  {
    if id != 0 && id' != 0 {
      if id == id' {
        CanonicalUnique(key[2..], key'[2..]);
        assert key == key[..2] + key[2..] && key' == key'[..2] + key'[2..];
      }
    } else if id == 0 && id' == 0 {
      assert ("ip:" + ip)[3..] == ip && ("ip:" + ip')[3..] == ip';
    } else {
      assert "ip:"[0] != "u:"[0];
      assert id == 0 ==> key[0] == 'i';
      assert id' == 0 ==> key'[0] == 'i';
      assert id != 0 ==> key[..2][0] == 'u';
      assert id' != 0 ==> key'[..2][0] == 'u';
    }
  }
}
