/** parse_seconds of src/agentwatch.c: a duration in seconds, with up to three decimals, as milliseconds. */
module Durations {
  import opened Bytes
  import opened Decimal

  const MAX_SECONDS: nat := 86400

  /** The digits a text starts with. */
  function DigitRun(s: bytes): (r: bytes)
    ensures r <= s && AllDigits(r)
    ensures r == s || !Digit(s[|r|])
  {
    if s == [] || !Digit(s[0]) then [] else [s[0]] + DigitRun(s[1..])
  }

  /** The digits after the point. */
  function Fraction(text: bytes): bytes {
    if DigitRun(text) == text then [] else text[|DigitRun(text)| + 1..]
  }

  /** Digits, optionally followed by a point and one to three digits. */
  predicate Written(text: bytes) {
    var w := DigitRun(text);
    w != [] && (w == text || (text[|w|] == DOT && 1 <= |Fraction(text)| <= 3 && AllDigits(Fraction(text))))
  }

  /** What such a text means, in milliseconds. */
  function Milliseconds(text: bytes): nat
    requires Written(text)
  {
    1000 * Value(DigitRun(text)) + Value(Fraction(text)) * Pow10(3 - |Fraction(text)|)
  }

  /** Too many seconds in the leading digits are too many in all. */
  lemma {:induction false} TooManySeconds(text: bytes, p: nat)
    requires p <= |DigitRun(text)| && Value(text[..p]) > MAX_SECONDS
    ensures Written(text) ==> Milliseconds(text) > 1000 * MAX_SECONDS
  {
    hide Value;
    var w := DigitRun(text);
    assert w[..p] == text[..p];
    PrefixIsNoMore(w, p);
  }

  lemma {:induction false} RunReaches(text: bytes, p: nat)
    requires p <= |text| && AllDigits(text[..p])
    ensures p <= |DigitRun(text)|
    ensures (p == |text| || !Digit(text[p])) ==> DigitRun(text) == text[..p]
  {
    if p > 0 {
      assert text[0] in text[..p];
      assert forall c | c in text[1..][..p - 1] :: c in text[..p];
      RunReaches(text[1..], p - 1);
      assert text[..p] == [text[0]] + text[1..][..p - 1];
    }
  }

  lemma DigitRange(c: byte)
    requires Digit(c)
    ensures 48 <= c <= 57
  {
  }

  lemma EmptyValue()
    ensures Value([]) == 0
  {
  }

  /** The digits after a point: one to three of them. */
  method ParseFraction(text: bytes, start: nat) returns (ok: bool, fraction: nat, p: nat)
    requires start <= |text|
    ensures ok ==> start < p <= start + 3 && p <= |text| && AllDigits(text[start..p])
    ensures ok ==> fraction == Value(text[start..p]) && (p == |text| || !Digit(text[p]))
    ensures !ok ==> !(1 <= |text| - start <= 3 && AllDigits(text[start..]))
  {
    hide Value, Digit;
    ok, fraction, p := false, 0, start;
    ghost var f := text[start..];
    if p >= |text| || !Digit(text[p]) {
      assert f != [] ==> f[0] in f && f[0] == text[p];
      return;
    }
    var digits := 0;
    assert text[start..p] == [];
    EmptyValue();
    while p < |text| && Digit(text[p])
      invariant start <= p <= |text| && digits == p - start <= 3
      invariant AllDigits(text[start..p]) && fraction == Value(text[start..p])
      invariant digits > 0 || (p < |text| && Digit(text[p]))
    {
      if digits >= 3 {
        return;
      }
      assert text[start..p + 1] == text[start..p] + [text[p]];
      ValueOfMore(text[start..p], text[p]);
      DigitRange(text[p]);
      fraction := fraction * 10 + (text[p] as nat - 48);
      digits := digits + 1;
      p := p + 1;
    }
    ok := true;
  }

  lemma Shifted(v: nat, k: nat)
    ensures v * Pow10(k) * 10 == v * Pow10(k + 1)
  {
  }

  /** Thousandths from one, two or three decimals. */
  method Thousandths(fraction: nat, digits: nat) returns (r: nat)
    requires digits <= 3
    ensures r == fraction * Pow10(3 - digits)
  {
    r := fraction;
    var k := digits;
    while k < 3
      invariant digits <= k <= 3 && r == fraction * Pow10(k - digits)
    {
      Shifted(fraction, k - digits);
      r := r * 10;
      k := k + 1;
    }
  }

  lemma {:induction false} NotWritten(text: bytes, w: nat, p: nat)
    requires w <= p < |text| && DigitRun(text) == text[..w] && !Digit(text[p])
    requires p > w ==> text[w] == DOT
    requires p == w ==> text[w] != DOT
    ensures !Written(text)
  {
    if p > w {
      var f := Fraction(text);
      assert f[p - w - 1] == text[p] && f[p - w - 1] in f;
    }
  }

  /** Three decimals make less than a second. */
  lemma {:induction false} BelowOneSecond(f: bytes)
    requires AllDigits(f) && |f| <= 3
    ensures Value(f) * Pow10(3 - |f|) < 1000
  {
    hide Digit;
    DigitsBound(f);
    if |f| == 0 {
      assert Pow10(3) == 1000;
    } else if |f| == 1 {
      assert Pow10(2) == 100 && Pow10(1) == 10;
    } else if |f| == 2 {
      assert Pow10(1) == 10 && Pow10(2) == 100;
    } else {
      assert Pow10(0) == 1 && Pow10(3) == 1000;
    }
  }

  /**
   * The whole of parse_seconds. The zero that supervise uses for "no deadline yet" is never a duration, and
   * the accumulator stays far below where a uint64_t wraps.
   */
  method ParseSeconds(text: bytes) returns (ok: bool, result: nat)
    requires NulFree(text)
    ensures ok <==> Written(text) && 1 <= Milliseconds(text) <= 1000 * MAX_SECONDS
    ensures ok ==> result == Milliseconds(text)
  {
    hide Value;
    var p, whole := 0, 0;
    ok, result := false, 0;
    EmptyValue();
    if |text| == 0 || !Digit(text[0]) {
      return;
    }
    while p < |text| && Digit(text[p])
      invariant p <= |text| && AllDigits(text[..p]) && whole == Value(text[..p]) <= 10 * MAX_SECONDS
    {
      assert text[..p + 1] == text[..p] + [text[p]];
      ValueOfMore(text[..p], text[p]);
      if whole > MAX_SECONDS || (whole == MAX_SECONDS && text[p] != 48) {
        RunReaches(text, p + 1);
        TooManySeconds(text, p + 1);
        return;
      }
      whole := whole * 10 + (text[p] as nat - 48);
      p := p + 1;
    }
    RunReaches(text, p);
    ghost var w := p;
    var fraction, digits := 0, 0;
    if p < |text| && text[p] == DOT {
      var good, value, end := ParseFraction(text, p + 1);
      if !good {
        return;
      }
      fraction, digits, p := value, end - p - 1, end;
    }
    if p < |text| || whole > MAX_SECONDS {
      if p < |text| {
        NotWritten(text, w, p);
      } else {
        assert DigitRun(text)[..w] == text[..w];
        TooManySeconds(text, w);
      }
      return;
    }
    assert text[w..] == [] || Fraction(text) == text[w + 1..p];
    BelowOneSecond(Fraction(text));
    fraction := Thousandths(fraction, digits);
    if whole == MAX_SECONDS && fraction != 0 {
      return;
    }
    result := whole * 1000 + fraction;
    ok := result >= 1;
  }

  lemma Thousand(k: nat)
    requires k <= 3
    ensures Pow10(3 - k) * Pow10(k) == 1000
  {
    assert Pow10(0) == 1 && Pow10(1) == 10 && Pow10(2) == 100 && Pow10(3) == 1000;
  }

  lemma Scaled(w: nat, f: nat, p: nat, q: nat)
    requires p * q == 1000
    ensures (1000 * w + f * p) * q == 1000 * (w * q + f)
  {
    assert f * p * q == f * (p * q);
  }

  /** With the point taken out, the digits are the duration in units of its last decimal. */
  lemma {:induction false} MillisecondsMean(text: bytes)
    requires Written(text)
    ensures var w, f := DigitRun(text), Fraction(text);
      && text == w + (if f == [] then [] else [DOT]) + f
      && AllDigits(w + f) && Milliseconds(text) * Pow10(|f|) == 1000 * Value(w + f)
  {
    hide Value, Digit;
    var w, f := DigitRun(text), Fraction(text);
    if w == text {
      assert f == [];
    } else {
      assert text == w + [DOT] + f;
    }
    ValueOfConcat(w, f);
    Thousand(|f|);
    hide Written, Fraction, DigitRun;
    Scaled(Value(w), Value(f), Pow10(3 - |f|), Pow10(|f|));
  }
}
