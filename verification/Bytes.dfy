/** Bytes, C strings in strcmp order, and hexadecimal text. */
module Bytes {

  newtype byte = x: int | 0 <= x < 256
  type bytes = seq<byte>

  const NUL: byte := 0
  const TAB: byte := 9
  const LF: byte := 10
  const CR: byte := 13
  const SPACE: byte := 32
  const QUOTE: byte := 34
  const HASH: byte := 35
  const COMMA: byte := 44
  const HYPHEN: byte := 45
  const DOT: byte := 46
  const SLASH: byte := 47
  const COLON: byte := 58
  const EQUALS: byte := 61
  const GREATER: byte := 62
  const BACKSLASH: byte := 92

  /** C size_t and uint64_t on the 64-bit targets the utilities are built for. */
  const SIZE_MAX: nat := 0xFFFF_FFFF_FFFF_FFFF

  predicate PowerOfTwo(n: nat) {
    n == 1 || (n > 1 && n % 2 == 0 && PowerOfTwo(n / 2))
  }

  /** A C string: what precedes the terminator. */
  predicate NulFree(s: bytes) {
    NUL !in s
  }

  /** strcmp(a, b) < 0 for C strings: unsigned byte order, a proper prefix first. */
  predicate Less(a: bytes, b: bytes) {
    b != [] && (a == [] || a[0] < b[0] || (a[0] == b[0] && Less(a[1..], b[1..])))
  }

  lemma {:induction false} LessIrreflexive(a: bytes)
    ensures !Less(a, a)
  {
    if a != [] {
      LessIrreflexive(a[1..]);
    }
  }

  lemma {:induction false} LessTransitive(a: bytes, b: bytes, c: bytes)
    requires Less(a, b) && Less(b, c)
    ensures Less(a, c)
  {
    if a != [] && a[0] == b[0] == c[0] {
      LessTransitive(a[1..], b[1..], c[1..]);
    }
  }

  lemma {:induction false} LessTotal(a: bytes, b: bytes)
    ensures a == b || Less(a, b) || Less(b, a)
  {
    if a != [] && b != [] && a[0] == b[0] {
      LessTotal(a[1..], b[1..]);
      assert a == [a[0]] + a[1..] && b == [b[0]] + b[1..];
    }
  }

  /** The strings agree before k, where a ends or has the smaller byte. */
  predicate BelowAt(a: bytes, b: bytes, k: nat) {
    k <= |a| && k < |b| && a[..k] == b[..k] && (k == |a| || a[k] < b[k])
  }

  lemma SameFirst(a: bytes, b: bytes, k: nat)
    requires 0 < k <= |a| && k <= |b| && a[..k] == b[..k]
    ensures a[0] == b[0]
  {
    assert a[..k][0] == a[0];
  }

  /** The order is decided by the first difference. */
  lemma {:induction false} LessMeans(a: bytes, b: bytes)
    ensures Less(a, b) <==> exists k: nat :: BelowAt(a, b, k)
  {
    if a != [] && b != [] && a[0] == b[0] {
      LessMeans(a[1..], b[1..]);
      if k: nat :| BelowAt(a[1..], b[1..], k) {
        assert a[..k + 1] == [a[0]] + a[1..][..k] && b[..k + 1] == [b[0]] + b[1..][..k];
        assert BelowAt(a, b, k + 1);
      }
      if k: nat :| BelowAt(a, b, k) {
        assert a[1..][..k - 1] == a[..k][1..] && b[1..][..k - 1] == b[..k][1..];
        assert BelowAt(a[1..], b[1..], k - 1);
      }
    } else {
      if Less(a, b) {
        assert BelowAt(a, b, 0);
      }
      if k: nat :| BelowAt(a, b, k) && k > 0 {
        SameFirst(a, b, k);
      }
    }
  }

  lemma Regrouped<T>(a: seq<T>, b: seq<T>, c: seq<T>)
    ensures a + (b + c) == a + b + c
  {
  }

  /** The C string at the start of a buffer. */
  function CString(s: bytes): (c: bytes)
    ensures NulFree(c) && c <= s
  {
    if s == [] || s[0] == NUL then [] else [s[0]] + CString(s[1..])
  }

  lemma {:induction false} WholeCString(s: bytes)
    requires NulFree(s)
    ensures CString(s) == s
  {
    if s != [] {
      assert s[0] in s;
      WholeCString(s[1..]);
    }
  }

  function JoinWith(sep: byte, parts: seq<bytes>): bytes {
    if parts == [] then []
    else if |parts| == 1 then parts[0]
    else parts[0] + [sep] + JoinWith(sep, parts[1..])
  }

  lemma {:induction false} JoinWithOfConcat(sep: byte, a: seq<bytes>, b: seq<bytes>)
    requires a != [] && b != []
    ensures JoinWith(sep, a + b) == JoinWith(sep, a) + [sep] + JoinWith(sep, b)
  {
    if |a| == 1 {
      assert (a + b)[1..] == b;
    } else {
      assert (a + b)[1..] == a[1..] + b;
      JoinWithOfConcat(sep, a[1..], b);
    }
  }

  /** What stands before the first c; all of s if there is none. */
  function Before(s: bytes, c: byte): (r: bytes)
    ensures r <= s && c !in r
    ensures r == s || s[|r|] == c
  {
    if s == [] || s[0] == c then [] else [s[0]] + Before(s[1..], c)
  }

  function After(s: bytes, c: byte): bytes {
    if Before(s, c) == s then [] else s[|Before(s, c)| + 1..]
  }

  lemma {:induction false} BeforeOfConcat(a: bytes, c: byte, b: bytes)
    requires c !in a
    ensures Before(a + [c] + b, c) == a && After(a + [c] + b, c) == b
  {
    var s := a + [c] + b;
    if a == [] {
      assert s[1..] == b;
    } else {
      BeforeOfConcat(a[1..], c, b);
      assert s[1..] == a[1..] + [c] + b;
      assert s[|a| + 1..] == b;
    }
  }

  predicate Blank(c: byte) { c == SPACE || c == TAB }

  function SkipBlanks(line: bytes): bytes {
    if line != [] && Blank(line[0]) then SkipBlanks(line[1..]) else line
  }

  /** The first byte that is not a blank is a hash. */
  predicate Comment(s: bytes) {
    exists k :: 0 <= k < |s| && s[k] == HASH && forall i :: 0 <= i < k ==> Blank(s[i])
  }

  predicate AllBlank(s: bytes) {
    forall i :: 0 <= i < |s| ==> Blank(s[i])
  }

  lemma {:induction false} SkipBlanksMeans(s: bytes)
    ensures SkipBlanks(s) == [] <==> AllBlank(s)
    ensures SkipBlanks(s) != [] && SkipBlanks(s)[0] == HASH <==> Comment(s)
  {
    if s != [] && Blank(s[0]) {
      var t := s[1..];
      SkipBlanksMeans(t);
      if Comment(t) {
        var k :| 0 <= k < |t| && t[k] == HASH && forall i :: 0 <= i < k ==> Blank(t[i]);
        assert s[k + 1] == HASH && forall i :: 0 <= i < k + 1 ==> Blank(s[i]);
      }
      if Comment(s) {
        var k :| 0 <= k < |s| && s[k] == HASH && forall i :: 0 <= i < k ==> Blank(s[i]);
        assert t[k - 1] == HASH && forall i :: 0 <= i < k - 1 ==> Blank(t[i]);
      }
      if AllBlank(t) {
        assert forall i :: 0 <= i < |s| ==> i == 0 || s[i] == t[i - 1];
      }
    }
  }

  /** The length of the first line: up to and with the line feed, or all there is. */
  function LineLength(s: bytes): (n: nat)
    ensures n <= |s| && (s != [] ==> n > 0)
  {
    if s == [] then 0 else if s[0] == LF then 1 else 1 + LineLength(s[1..])
  }

  /** A string literal as bytes. */
  function Ascii(s: string): (b: bytes)
    requires forall i :: 0 <= i < |s| ==> s[i] < 128 as char
    ensures |b| == |s|
  {
    seq(|s|, i requires 0 <= i < |s| => s[i] as byte)
  }

  /** "%02x". */
  function HexDigit(n: nat): byte
    requires n < 16
  {
    if n < 10 then 48 + n as byte else 87 + n as byte
  }

  lemma HexDigitMeans(n: nat)
    requires n < 16
    ensures HexDigit(n) == Ascii("0123456789abcdef")[n]
  {
  }

  function Hex(d: bytes): (h: bytes)
    ensures |h| == 2 * |d|
  {
    if d == [] then [] else [HexDigit(d[0] as nat / 16), HexDigit(d[0] as nat % 16)] + Hex(d[1..])
  }

  lemma {:induction false} HexOfConcat(a: bytes, b: bytes)
    ensures Hex(a + b) == Hex(a) + Hex(b)
  {
    if a == [] {
      assert a + b == b;
    } else {
      HexOfConcat(a[1..], b);
      assert (a + b)[1..] == a[1..] + b;
    }
  }

  lemma {:induction false} HexIsInjective(a: bytes, b: bytes)
    requires Hex(a) == Hex(b)
    ensures a == b
  {
    if a != [] && b != [] {
      var x, y := Hex(a), Hex(b);
      assert x[0] == y[0] && x[1] == y[1] && x[2..] == Hex(a[1..]) && y[2..] == Hex(b[1..]);
      HexIsInjective(a[1..], b[1..]);
    }
  }
}
