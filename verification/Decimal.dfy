/** Decimal text as printf's %d, %zu and %ju produce it. */
module Decimal {
  import opened Bytes

  predicate Digit(c: byte) {
    48 <= c <= 57
  }

  predicate AllDigits(s: bytes) {
    forall c | c in s :: Digit(c)
  }

  function Dec(n: nat): (s: bytes)
    ensures s != [] && forall c | c in s :: Digit(c)
  {
    if n < 10 then [48 + n as byte] else Dec(n / 10) + [48 + (n % 10) as byte]
  }

  function Value(s: bytes): nat
    requires forall c | c in s :: Digit(c)
  {
    if s == [] then 0
    else
      assert Digit(s[|s| - 1]);
      10 * Value(s[..|s| - 1]) + (s[|s| - 1] as nat - 48)
  }

  lemma {:induction false} ValueOfDec(n: nat)
    ensures Value(Dec(n)) == n
  {
    if n >= 10 {
      ValueOfDec(n / 10);
      assert Dec(n)[..|Dec(n)| - 1] == Dec(n / 10);
    }
  }

  lemma {:induction false} DecLeads(n: nat)
    ensures n > 0 ==> Dec(n)[0] != 48
  {
    if n >= 10 {
      DecLeads(n / 10);
    }
  }

  /** Digits without a leading zero are the text of the number they write. */
  lemma {:induction false} DecOfValue(s: bytes)
    requires s != [] && forall c | c in s :: Digit(c)
    requires s[0] != 48
    ensures Value(s) > 0 && Dec(Value(s)) == s
  {
    var n := |s| - 1;
    assert s[n] in s;
    if n == 0 {
      assert s[..0] == [];
      assert s == [s[0]];
    } else {
      DecOfValue(s[..n]);
      assert s == s[..n] + [s[n]];
    }
  }

  function Pow10(k: nat): nat {
    if k == 0 then 1 else 10 * Pow10(k - 1)
  }

  lemma {:induction false} DecLength(n: nat, k: nat)
    requires k > 0 && n < Pow10(k)
    ensures |Dec(n)| <= k
  {
    if n >= 10 {
      DecLength(n / 10, k - 1);
    }
  }

  lemma {:induction false} ValueOfMore(s: bytes, c: byte)
    requires AllDigits(s) && Digit(c)
    ensures AllDigits(s + [c]) && Value(s + [c]) == 10 * Value(s) + (c as nat - 48)
  {
    assert (s + [c])[..|s|] == s;
  }

  lemma {:induction false} PrefixIsNoMore(s: bytes, k: nat)
    requires AllDigits(s) && k <= |s|
    ensures Value(s[..k]) <= Value(s)
    decreases |s| - k
  {
    if k < |s| {
      PrefixIsNoMore(s, k + 1);
      assert s[k] in s;
      assert s[..k + 1] == s[..k] + [s[k]];
      ValueOfMore(s[..k], s[k]);
    } else {
      assert s[..k] == s;
    }
  }

  lemma {:induction false} DigitsBound(f: bytes)
    requires AllDigits(f)
    ensures Value(f) < Pow10(|f|)
  {
    if f != [] {
      var n := |f| - 1;
      assert f[n] in f;
      DigitsBound(f[..n]);
    }
  }

  function ZeroDigits(k: nat): (z: bytes)
    ensures |z| == k && forall c | c in z :: c == 48
  {
    seq(k, _ => 48)
  }

  /** "%05zu". */
  function Pad5(n: nat): (s: bytes)
    ensures forall c | c in s :: Digit(c)
  {
    if |Dec(n)| < 5 then ZeroDigits(5 - |Dec(n)|) + Dec(n) else Dec(n)
  }

  lemma {:induction false} LeadingZeros(k: nat, s: bytes)
    requires forall c | c in s :: Digit(c)
    ensures Value(ZeroDigits(k) + s) == Value(s)
    decreases k + |s|
  {
    var t := ZeroDigits(k) + s;
    if s == [] {
      if k > 0 {
        assert t[..|t| - 1] == ZeroDigits(k - 1) + [];
        LeadingZeros(k - 1, []);
      }
    } else {
      assert t[..|t| - 1] == ZeroDigits(k) + s[..|s| - 1];
      LeadingZeros(k, s[..|s| - 1]);
    }
  }

  lemma Pad5IsInjective(m: nat, n: nat)
    requires Pad5(m) == Pad5(n)
    ensures m == n
  {
    ValueOfDec(m);
    ValueOfDec(n);
    LeadingZeros(if |Dec(m)| < 5 then 5 - |Dec(m)| else 0, Dec(m));
    LeadingZeros(if |Dec(n)| < 5 then 5 - |Dec(n)| else 0, Dec(n));
    assert Value(Pad5(m)) == m by { assert ZeroDigits(0) + Dec(m) == Dec(m); }
    assert Value(Pad5(n)) == n by { assert ZeroDigits(0) + Dec(n) == Dec(n); }
  }

  /** Digits are in decimal, the most significant first. */
  lemma DecExample()
    ensures Dec(4096) == [52, 48, 57, 54] && Pad5(4096) == [48, 52, 48, 57, 54] && Pad5(314159)[0] == 51
  {
    assert Dec(4) == [52] && Dec(40) == [52, 48] && Dec(409) == [52, 48, 57];
    assert ZeroDigits(1) == [48];
    assert Dec(3) == [51] && Dec(31)[0] == 51 && Dec(314)[0] == 51 && Dec(3141)[0] == 51;
    assert Dec(31415)[0] == 51 && |Dec(31415)| == 5;
  }

  lemma TenTimes(v: nat, k: nat)
    ensures v * Pow10(k + 1) == 10 * (v * Pow10(k))
  {
  }

  lemma NoDigits()
    ensures Value([]) == 0 && Pow10(0) == 1
  {
  }

  /** A run of digits before others counts for more by as many powers of ten. */
  lemma {:induction false} ValueOfConcat(a: bytes, b: bytes)
    requires AllDigits(a) && AllDigits(b)
    ensures AllDigits(a + b) && Value(a + b) == Value(a) * Pow10(|b|) + Value(b)
  {
    hide Value, Digit, Pow10;
    if b == [] {
      assert a + b == a;
      NoDigits();
    } else {
      var n := |b| - 1;
      ValueOfConcat(a, b[..n]);
      assert b == b[..n] + [b[n]] && a + b == a + b[..n] + [b[n]];
      assert b[n] in b;
      ValueOfMore(a + b[..n], b[n]);
      ValueOfMore(b[..n], b[n]);
      TenTimes(Value(a), n);
    }
  }
}
