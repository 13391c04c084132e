/**
 * The finding line of src/openunlink.c: a buffer of computed capacity that every line fits, an escape written
 * into it in place, and a line that says unambiguously what was found; and the reading of its numbers.
 */
module OpenUnlink {
  import opened Bytes
  import opened Options
  import opened Decimal
  import opened DiffText

  const INT_MAX: nat := 2147483647
  const UINTMAX_MAX: nat := SIZE_MAX
  const TARGET_LEN_CAP: nat := 65536

  /** Three digits for each byte of an int, and of a uintmax_t. */
  const INT_DECIMAL_BOUND: nat := 3 * 4
  const UINTMAX_DECIMAL_BOUND: nat := 3 * 8

  const PID_FIELD: bytes := Ascii("OPEN_UNLINKED\tpid=")
  const FD_FIELD: bytes := Ascii("fd=")
  const SIZE_FIELD: bytes := Ascii("size=")
  const TARGET_FIELD: bytes := Ascii("target=\"")
  const FIXED_TEXT: bytes := Ascii("OPEN_UNLINKED\tpid=\tfd=\tsize=\ttarget=\"\"\n")

  /** Whether a target byte is written as \xHH. */
  predicate Hexed(c: byte) {
    c != QUOTE && c != BACKSLASH && !PrintableAscii(c)
  }

  function EscapeOne(c: byte): (s: bytes)
    ensures s != [] && |s| <= 4
  {
    if c == QUOTE || c == BACKSLASH then [BACKSLASH, c]
    else if PrintableAscii(c) then [c]
    else HexEscape(c)
  }

  function EscapeTarget(t: bytes): bytes {
    if t == [] then [] else EscapeTarget(t[..|t| - 1]) + EscapeOne(t[|t| - 1])
  }

  /** snprintf into what is left of a buffer: it cuts the text short to leave room for a NUL. */
  method SnPrintf(buf: array<byte>, pos: nat, text: bytes) returns (n: nat)
    requires pos < buf.Length
    modifies buf
    ensures n == |text|
    ensures var k := if |text| < buf.Length - pos then |text| else buf.Length - pos - 1;
      && (forall i :: 0 <= i < k ==> buf[pos + i] == text[i]) && buf[pos + k] == NUL
      && (forall i :: 0 <= i < pos ==> buf[i] == old(buf[i]))
      && forall i :: pos + k < i < buf.Length ==> buf[i] == old(buf[i])
  {
    var k := if |text| < buf.Length - pos then |text| else buf.Length - pos - 1;
    for j := 0 to k
      invariant forall i :: 0 <= i < j ==> buf[pos + i] == text[i]
      invariant forall i :: 0 <= i < pos || pos + j <= i < buf.Length ==> buf[i] == old(buf[i])
    {
      buf[pos + j] := text[j];
    }
    buf[pos + k] := NUL;
    n := |text|;
  }

  /** The buffer holds the text from start on. */
  predicate Holds(buf: array<byte>, start: nat, text: bytes)
    reads buf
  {
    start + |text| <= buf.Length && forall i :: 0 <= i < |text| ==> buf[start + i] == text[i]
  }

  /** The escaped text ends with the buffer, and its last byte had to be written by snprintf. */
  predicate CutShort(capacity: nat, used: nat, src: bytes) {
    used == capacity && src != [] && Hexed(src[|src| - 1])
  }

  /** One byte of escape_append. */
  method EscapeOneInto(dst: array<byte>, pos: nat, ch: byte) returns (ok: bool)
    modifies dst
    ensures ok <==> pos <= dst.Length && |EscapeOne(ch)| <= dst.Length - pos
    ensures forall i :: 0 <= i < pos && i < dst.Length ==> dst[i] == old(dst[i])
    ensures ok && !(pos + |EscapeOne(ch)| == dst.Length && Hexed(ch)) ==> Holds(dst, pos, EscapeOne(ch))
    ensures ok && pos + |EscapeOne(ch)| == dst.Length && Hexed(ch) ==> dst[dst.Length - 1] == NUL
  {
    if ch == QUOTE || ch == BACKSLASH {
      if pos > dst.Length || 2 > dst.Length - pos {
        return false;
      }
      dst[pos] := BACKSLASH;
      dst[pos + 1] := ch;
    } else if 0x20 <= ch <= 0x7e {
      if pos > dst.Length || 1 > dst.Length - pos {
        return false;
      }
      dst[pos] := ch;
    } else {
      if pos > dst.Length || 4 > dst.Length - pos {
        return false;
      }
      var n := SnPrintf(dst, pos, HexEscape(ch));
      if n != 4 {
        return false;
      }
    }
    ok := true;
  }

  lemma EscapeMore(t: bytes, i: nat)
    requires i < |t|
    ensures EscapeTarget(t[..i + 1]) == EscapeTarget(t[..i]) + EscapeOne(t[i])
  {
    assert t[..i + 1][..i] == t[..i];
  }

  lemma {:induction false} EscapeGrows(t: bytes, i: nat)
    requires i <= |t|
    ensures |EscapeTarget(t[..i])| <= |EscapeTarget(t)|
    decreases |t| - i
  {
    if i < |t| {
      EscapeMore(t, i);
      EscapeGrows(t, i + 1);
    } else {
      assert t[..i] == t;
    }
  }

  lemma {:induction false} EscapedHasNoNul(t: bytes)
    ensures NUL !in EscapeTarget(t)
  {
    if t != [] {
      EscapedHasNoNul(t[..|t| - 1]);
    }
  }

  lemma NothingEscaped(src: bytes)
    ensures EscapeTarget(src[..0]) == []
  {
  }

  lemma {:induction false} CutMisses(dst: array<byte>, start: nat, used: nat, src: bytes)
    requires used == start + |EscapeTarget(src)|
    requires CutShort(dst.Length, used, src) ==> dst.Length > 0 && dst[dst.Length - 1] == NUL
    requires NUL !in EscapeTarget(src)
    ensures CutShort(dst.Length, used, src) ==> !Holds(dst, start, EscapeTarget(src))
  {
    if CutShort(dst.Length, used, src) {
      var e := EscapeTarget(src);
      assert e[|e| - 1] in e;
    }
  }

  /**
   * escape_append, for a buffer of any size. It succeeds exactly when the escaped text fits, and what it
   * leaves is the escaped text except in one case: a text that ends flush with the buffer in a \xHH loses
   * its last digit, since snprintf wants room for a NUL.
   */
  method EscapeAppend(dst: array<byte>, start: nat, src: bytes) returns (ok: bool, used: nat)
    modifies dst
    ensures ok <==> src == [] || start + |EscapeTarget(src)| <= dst.Length
    ensures ok ==> used == start + |EscapeTarget(src)|
    ensures forall i :: 0 <= i < start && i < dst.Length ==> dst[i] == old(dst[i])
    ensures ok && src != [] ==> (Holds(dst, start, EscapeTarget(src)) <==> !CutShort(dst.Length, used, src))
  {
    hide EscapeTarget, EscapeOne, Hexed;
    used := start;
    NothingEscaped(src);
    for i := 0 to |src|
      invariant used == start + |EscapeTarget(src[..i])|
      invariant i > 0 ==> used <= dst.Length
      invariant forall k :: 0 <= k < start && k < dst.Length ==> dst[k] == old(dst[k])
      invariant i > 0 && !CutShort(dst.Length, used, src[..i]) ==> Holds(dst, start, EscapeTarget(src[..i]))
      invariant i > 0 && CutShort(dst.Length, used, src[..i]) ==> dst.Length > 0 && dst[dst.Length - 1] == NUL
    {
      EscapeMore(src, i);
      EscapeGrows(src, i + 1);
      ghost var before := EscapeTarget(src[..i]);
      assert used < dst.Length && i > 0 ==> Holds(dst, start, before);
      var good := EscapeOneInto(dst, used, src[i]);
      if !good {
        ok := false;
        return;
      }
      used := used + |EscapeOne(src[i])|;
      assert src[..i + 1][|src[..i + 1]| - 1] == src[i];
    }
    assert src[..|src|] == src;
    EscapedHasNoNul(src);
    CutMisses(dst, start, used, src);
    ok := true;
  }

  /** One unprintable byte and four bytes of room: there is room enough by the test, and yet the end is cut. */
  lemma FlushEscapeIsCut()
    ensures |EscapeTarget([NUL])| == 4 && CutShort(4, |EscapeTarget([NUL])|, [NUL])
  {
    assert [NUL][..0] == [];
    assert EscapeTarget([NUL]) == [] + EscapeOne(NUL);
  }

  /** The line up to the target. */
  function Head(pid: nat, fd: nat, size: nat): bytes {
    PID_FIELD + (Dec(pid) + [TAB] + (FD_FIELD + (Dec(fd) + [TAB] + (SIZE_FIELD + (Dec(size) + [TAB] + TARGET_FIELD)))))
  }

  /** The whole line. */
  function Finding(pid: nat, fd: nat, size: nat, target: bytes): bytes {
    Head(pid, fd, size) + EscapeTarget(target) + [QUOTE, LF]
  }

  lemma HeldLine(buf: array<byte>, head: bytes, text: bytes)
    requires Holds(buf, 0, head) && Holds(buf, |head|, text) && |head| + |text| + 2 <= buf.Length
    requires buf[|head| + |text|] == QUOTE && buf[|head| + |text| + 1] == LF
    ensures buf[..|head| + |text| + 2] == head + text + [QUOTE, LF]
  {
  }

  /** Written for a buffer of any size: the line comes out whole, or not at all. */
  method EmitFinding(lineBuf: array<byte>, pid: nat, fd: nat, size: nat, target: bytes, writeOk: bool)
    returns (ok: bool, written: bytes)
    modifies lineBuf
    ensures ok <==> writeOk && |Finding(pid, fd, size, target)| < lineBuf.Length
    ensures written == if ok then Finding(pid, fd, size, target) else []
  {
    hide Head, EscapeTarget, Hexed;
    ok, written := false, [];
    if lineBuf.Length == 0 {
      return;
    }
    var head := Head(pid, fd, size);
    var n := SnPrintf(lineBuf, 0, head);
    if n >= lineBuf.Length {
      return;
    }
    assert Holds(lineBuf, 0, head);
    ghost var was := lineBuf[..];
    var good, used := EscapeAppend(lineBuf, n, target);
    if !good {
      return;
    }
    if target == [] {
      NothingEscaped(target);
      assert target[..0] == target;
    }
    var remain := lineBuf.Length - used;
    if remain < 3 {
      return;
    }
    assert forall i :: 0 <= i < n ==> lineBuf[i] == was[i];
    assert Holds(lineBuf, 0, head) && Holds(lineBuf, n, EscapeTarget(target));
    lineBuf[used] := QUOTE;
    lineBuf[used + 1] := LF;
    lineBuf[used + 2] := NUL;
    if !writeOk {
      return;
    }
    ok, written := true, lineBuf[..used + 2];
    HeldLine(lineBuf, head, EscapeTarget(target));
  }

  /** size_add and size_mul: refused where a size_t would wrap. */
  method SizeAdd(a: nat, b: nat) returns (ok: bool, sum: nat)
    requires a <= SIZE_MAX && b <= SIZE_MAX
    ensures ok <==> a + b <= SIZE_MAX
    ensures ok ==> sum == a + b
  {
    ok, sum := !(a > SIZE_MAX - b), a + b;
  }

  lemma QuotientBound(a: nat, b: nat)
    requires a > 0
    ensures b <= SIZE_MAX / a <==> a * b <= SIZE_MAX
  {
    var q, r := SIZE_MAX / a, SIZE_MAX % a;
    assert SIZE_MAX == a * q + r;
    if b <= q {
      assert a * b <= a * q;
    } else {
      assert a * b >= a * (q + 1) == a * q + a;
    }
  }

  method SizeMul(a: nat, b: nat) returns (ok: bool, product: nat)
    requires a <= SIZE_MAX && b <= SIZE_MAX
    ensures ok <==> a * b <= SIZE_MAX
    ensures ok ==> product == a * b
  {
    ok, product := true, a * b;
    if a != 0 {
      QuotientBound(a, b);
      ok := !(b > SIZE_MAX / a);
    }
  }

  /** finding_line_capacity, for any bounds: the sum it stands for, or zero if that is too large. */
  method FindingLineCapacity(fixed: nat, intBound: nat, maxBound: nat, targetCap: nat) returns (cap: nat)
    requires fixed <= SIZE_MAX && intBound <= SIZE_MAX && maxBound <= SIZE_MAX && targetCap <= SIZE_MAX
    ensures var sum := fixed + 2 * intBound + maxBound + 4 * targetCap + 1;
      cap == if sum <= SIZE_MAX then sum else 0
  {
    var ok, text;
    cap := fixed;
    ok, cap := SizeAdd(cap, intBound);
    if !ok { return 0; }
    ok, cap := SizeAdd(cap, intBound);
    if !ok { return 0; }
    ok, cap := SizeAdd(cap, maxBound);
    if !ok { return 0; }
    ok, text := SizeMul(targetCap, 4);
    if !ok { return 0; }
    ok, cap := SizeAdd(cap, text);
    if !ok { return 0; }
    ok, cap := SizeAdd(cap, 1);
    if !ok { return 0; }
  }

  /** The capacity of the line buffer. */
  const LINE_CAPACITY: nat := |FIXED_TEXT| + 2 * INT_DECIMAL_BOUND + UINTMAX_DECIMAL_BOUND + 4 * TARGET_LEN_CAP + 1

  lemma {:induction false} EscapedLength(t: bytes)
    ensures |EscapeTarget(t)| <= 4 * |t|
  {
    if t != [] {
      EscapedLength(t[..|t| - 1]);
    }
  }

  lemma TenDigits()
    ensures Pow10(10) == 10000000000
  {
    assert Pow10(5) == 100000;
  }

  lemma {:induction false} DecimalBounds(n: nat)
    ensures n <= INT_MAX ==> |Dec(n)| <= 10
    ensures n <= UINTMAX_MAX ==> |Dec(n)| <= 20
  {
    hide Dec;
    TenDigits();
    assert Pow10(20) == 100000000000000000000 by {
      assert Pow10(15) == 1000000000000000;
    }
    if n <= INT_MAX { DecLength(n, 10); }
    if n <= UINTMAX_MAX { DecLength(n, 20); }
  }

  /** The text the capacity is computed from is the line with nothing in its fields. */
  lemma {:induction false} FixedTextIsTheRest(pid: nat, fd: nat, size: nat, target: bytes)
    ensures |Finding(pid, fd, size, target)|
      == |FIXED_TEXT| + |Dec(pid)| + |Dec(fd)| + |Dec(size)| + |EscapeTarget(target)|
  {
    hide Dec, EscapeTarget;
  }

  /**
   * Every line fits the computed capacity, with the three bytes that end it and then some to spare; so no
   * \xHH of it can be cut short.
   */
  lemma {:induction false} CapacitySuffices(pid: nat, fd: nat, size: nat, target: bytes)
    requires 1 <= pid <= INT_MAX && fd <= INT_MAX && size <= UINTMAX_MAX && |target| <= TARGET_LEN_CAP
    ensures |Head(pid, fd, size)| + |EscapeTarget(target)| + 3 <= LINE_CAPACITY
    ensures !CutShort(LINE_CAPACITY, |Head(pid, fd, size)| + |EscapeTarget(target)|, target)
    ensures |Finding(pid, fd, size, target)| < LINE_CAPACITY
  {
    hide EscapeTarget, Dec;
    DecimalBounds(pid);
    DecimalBounds(fd);
    DecimalBounds(size);
    EscapedLength(target);
  }

  /** What an escaped target stands for. */
  function UnescapeTarget(s: bytes): Option<bytes> {
    if s == [] then Some([])
    else if s[0] == QUOTE then None
    else if s[0] != BACKSLASH then Prepend(s[0], UnescapeTarget(s[1..]))
    else if |s| >= 2 && (s[1] == BACKSLASH || s[1] == QUOTE) then Prepend(s[1], UnescapeTarget(s[2..]))
    else if |s| >= 4 && s[1] == LOWER_X && HexValue(s[2]).Some? && HexValue(s[3]).Some? then
      Prepend((16 * HexValue(s[2]).value + HexValue(s[3]).value) as byte, UnescapeTarget(s[4..]))
    else None
  }

  lemma {:induction false} UnescapeOne(c: byte, s: bytes)
    ensures UnescapeTarget(EscapeOne(c) + s) == Prepend(c, UnescapeTarget(s))
  {
    var e := EscapeOne(c) + s;
    assert e[|EscapeOne(c)|..] == s;
  }

  /** Escaping from the front. */
  lemma {:induction false} EscapeCons(c: byte, t: bytes)
    ensures EscapeTarget([c] + t) == EscapeOne(c) + EscapeTarget(t)
  {
    hide EscapeOne;
    var s := [c] + t;
    if t == [] {
      assert s == [c] && s[..0] == [];
      assert EscapeTarget(s[..0]) == [] && EscapeTarget(t) == [];
      assert s[|s| - 1] == c;
      assert EscapeTarget(s) == [] + EscapeOne(c);
    } else {
      EscapeCons(c, t[..|t| - 1]);
      assert s[..|s| - 1] == [c] + t[..|t| - 1];
      assert s[|s| - 1] == t[|t| - 1];
    }
  }

  /** The quoted part gives the target back. */
  lemma {:induction false} UnescapeOfEscapedTarget(t: bytes)
    ensures UnescapeTarget(EscapeTarget(t)) == Some(t)
  {
    hide EscapeOne;
    if t != [] {
      UnescapeOfEscapedTarget(t[1..]);
      EscapeCons(t[0], t[1..]);
      assert t == [t[0]] + t[1..];
      UnescapeOne(t[0], EscapeTarget(t[1..]));
      hide EscapeTarget, UnescapeTarget;
    }
  }

  /** A target cannot end a line, a field, or its own quotes. */
  lemma {:induction false} EscapedTargetIsPrintable(t: bytes)
    ensures forall i :: 0 <= i < |EscapeTarget(t)| ==> PrintableAscii(EscapeTarget(t)[i])
  {
    if t != [] {
      EscapedTargetIsPrintable(t[..|t| - 1]);
    }
  }

  lemma NoLineFeed(s: bytes)
    requires AllDigits(s)
    ensures LF !in s && TAB !in s
  {
  }

  lemma FieldsOnOneLine()
    ensures LF !in PID_FIELD && LF !in FD_FIELD && LF !in SIZE_FIELD && LF !in TARGET_FIELD
  {
  }

  lemma HeadIsOneLine(pid: nat, fd: nat, size: nat)
    ensures LF !in Head(pid, fd, size)
  {
    NoLineFeed(Dec(pid));
    NoLineFeed(Dec(fd));
    NoLineFeed(Dec(size));
    FieldsOnOneLine();
    hide Dec;
  }

  /** The one line feed of a finding ends it. */
  lemma FindingIsOneLine(pid: nat, fd: nat, size: nat, target: bytes)
    ensures var line := Finding(pid, fd, size, target);
      line[|line| - 1] == LF && LF !in line[..|line| - 1]
  {
    var line := Finding(pid, fd, size, target);
    EscapedTargetIsPrintable(target);
    HeadIsOneLine(pid, fd, size);
    hide Head, EscapeTarget;
    assert line[..|line| - 1] == Head(pid, fd, size) + EscapeTarget(target) + [QUOTE];
  }

  lemma Cancel(p: bytes, a: bytes, b: bytes)
    requires p + a == p + b
    ensures a == b
  {
    assert (p + a)[|p|..] == a && (p + b)[|p|..] == b;
  }

  /** A number followed by a tab reads back as that number, and what follows as what follows. */
  lemma {:induction false} NumberEnds(m: nat, n: nat, a: bytes, b: bytes)
    requires Dec(m) + [TAB] + a == Dec(n) + [TAB] + b
    ensures m == n && a == b
  {
    NoLineFeed(Dec(m));
    NoLineFeed(Dec(n));
    ValueOfDec(m);
    ValueOfDec(n);
    hide Dec, Value;
    BeforeOfConcat(Dec(m), TAB, a);
    BeforeOfConcat(Dec(n), TAB, b);
  }

  lemma {:induction false} SameTarget(t: bytes, t1: bytes)
    requires EscapeTarget(t) + [QUOTE, LF] == EscapeTarget(t1) + [QUOTE, LF]
    ensures t == t1
  {
    UnescapeOfEscapedTarget(t);
    UnescapeOfEscapedTarget(t1);
    hide EscapeTarget, UnescapeTarget;
    var e, f := EscapeTarget(t), EscapeTarget(t1);
    assert (e + [QUOTE, LF])[..|e|] == e && (f + [QUOTE, LF])[..|f|] == f;
  }

  /** The line with its fields grouped from the right. */
  lemma {:induction false} Nested(pid: nat, fd: nat, size: nat, t: bytes)
    ensures Finding(pid, fd, size, t)
      == PID_FIELD + (Dec(pid) + [TAB] + (FD_FIELD + (Dec(fd) + [TAB] + (SIZE_FIELD + (Dec(size) + [TAB]
         + (TARGET_FIELD + (EscapeTarget(t) + [QUOTE, LF])))))))
  {
    hide EscapeTarget, Dec;
    var end := EscapeTarget(t) + [QUOTE, LF];
    assert Finding(pid, fd, size, t) == Head(pid, fd, size) + end;
  }

  /** A line tells the process, the descriptor, the size and the target, to the byte. */
  lemma FindingIsInjective(pid: nat, fd: nat, size: nat, t: bytes, pid1: nat, fd1: nat, size1: nat, t1: bytes)
    requires Finding(pid, fd, size, t) == Finding(pid1, fd1, size1, t1)
    ensures pid == pid1 && fd == fd1 && size == size1 && t == t1
  {
    hide EscapeTarget, Dec;
    var x, y := TARGET_FIELD + (EscapeTarget(t) + [QUOTE, LF]), TARGET_FIELD + (EscapeTarget(t1) + [QUOTE, LF]);
    Nested(pid, fd, size, t);
    Nested(pid1, fd1, size1, t1);
    var a, b := SIZE_FIELD + (Dec(size) + [TAB] + x), SIZE_FIELD + (Dec(size1) + [TAB] + y);
    var c, d := FD_FIELD + (Dec(fd) + [TAB] + a), FD_FIELD + (Dec(fd1) + [TAB] + b);
    Cancel(PID_FIELD, Dec(pid) + [TAB] + c, Dec(pid1) + [TAB] + d);
    NumberEnds(pid, pid1, c, d);
    Cancel(FD_FIELD, Dec(fd) + [TAB] + a, Dec(fd1) + [TAB] + b);
    NumberEnds(fd, fd1, a, b);
    Cancel(SIZE_FIELD, Dec(size) + [TAB] + x, Dec(size1) + [TAB] + y);
    NumberEnds(size, size1, x, y);
    Cancel(TARGET_FIELD, EscapeTarget(t) + [QUOTE, LF], EscapeTarget(t1) + [QUOTE, LF]);
    SameTarget(t, t1);
  }

  /** The texts parse_canonical_int takes. */
  predicate Canonical(text: bytes, allowZero: bool) {
    && text != [] && AllDigits(text) && Value(text) <= INT_MAX
    && (text[0] != 48 || (allowZero && text == [48]))
  }

  /** Exactly the texts that %d prints of the numbers in range. */
  lemma CanonicalIsPrinted(text: bytes, allowZero: bool)
    ensures Canonical(text, allowZero)
      <==> exists n: nat :: n <= INT_MAX && (n > 0 || allowZero) && text == Dec(n)
  {
    if Canonical(text, allowZero) {
      if text[0] == 48 {
        assert text == Dec(0);
      } else {
        DecOfValue(text);
      }
    }
    if n: nat :| n <= INT_MAX && (n > 0 || allowZero) && text == Dec(n) {
      ValueOfDec(n);
      DecLeads(n);
    }
  }

  lemma {:induction false} ZeroText(text: bytes)
    requires |text| == 1 && text[0] == 48
    ensures AllDigits(text) && Value(text) == 0 && Dec(0) == text
  {
    assert text == [48] && text[..0] == [];
  }

  lemma NoValue(text: bytes)
    ensures Value(text[..0]) == 0
  {
  }

  lemma ReadDigit(text: bytes, p: nat)
    requires p < |text| && AllDigits(text[..p]) && Digit(text[p])
    ensures AllDigits(text[..p + 1]) && Value(text[..p + 1]) == 10 * Value(text[..p]) + (text[p] as nat - 48)
    ensures p > 0 && Value(text[..p]) >= Pow10(p - 1) ==> Value(text[..p + 1]) >= Pow10(p)
    ensures p == 0 && text[0] != 48 ==> Value(text[..p + 1]) >= Pow10(p)
  {
    assert text[..p + 1] == text[..p] + [text[p]];
    ValueOfMore(text[..p], text[p]);
    if p == 0 {
      assert text[..0] == [];
    }
  }

  lemma {:induction false} TooBig(text: bytes, p: nat)
    requires p <= |text| && AllDigits(text[..p]) && Value(text[..p]) > INT_MAX
    ensures !(AllDigits(text) && Value(text) <= INT_MAX)
  {
    if AllDigits(text) {
      PrefixIsNoMore(text, p);
    }
  }

  lemma {:induction false} PowGrows(j: nat, k: nat)
    requires j <= k
    ensures Pow10(j) <= Pow10(k)
  {
    if j < k {
      PowGrows(j, k - 1);
    }
  }

  /** The bound on the number of digits is never what rejects a text. */
  lemma FewDigits(acc: nat, digits: nat)
    requires digits > 0 && Pow10(digits - 1) <= acc <= INT_MAX
    ensures digits <= INT_DECIMAL_BOUND
  {
    TenDigits();
    if digits > 11 {
      PowGrows(10, digits - 1);
      assert false;
    }
  }

  lemma {:induction false} PrintsAs(text: bytes)
    requires text != [] && AllDigits(text) && text[0] != 48
    ensures Value(text) > 0 && Dec(Value(text)) == text
  {
    DecOfValue(text);
  }

  method ParseCanonicalInt(text: bytes, allowZero: bool) returns (ok: bool, value: nat)
    requires NulFree(text)
    ensures ok <==> Canonical(text, allowZero)
    ensures ok ==> value == Value(text) && text == Dec(value)
  {
    hide Value, Dec;
    ok, value := false, 0;
    if text == [] {
      return;
    }
    if text[0] == 48 {
      if !allowZero || |text| > 1 {
        assert text == [48] <==> |text| == 1;
        return;
      }
      ZeroText(text);
      ok, value := true, 0;
      return;
    }
    if text[0] < 49 || text[0] > 57 {
      assert text[0] in text;
      return;
    }
    var acc, digits := 0, 0;
    NoValue(text);
    for p := 0 to |text|
      invariant digits == p && AllDigits(text[..p]) && acc == Value(text[..p]) <= INT_MAX
      invariant p > 0 ==> acc >= Pow10(p - 1)
    {
      if text[p] < 48 || text[p] > 57 {
        assert text[p] in text;
        return;
      }
      ReadDigit(text, p);
      var digit := text[p] as nat - 48;
      if acc > INT_MAX / 10 {
        TooBig(text, p + 1);
        return;
      }
      acc := acc * 10 + digit;
      if acc > INT_MAX {
        TooBig(text, p + 1);
        return;
      }
      digits := digits + 1;
      FewDigits(acc, digits);
      if digits > INT_DECIMAL_BOUND {
        return;
      }
    }
    assert text[..|text|] == text;
    PrintsAs(text);
    if acc < 1 {
      return;
    }
    ok, value := true, acc;
  }

  lemma Ungrouped(p: bytes, m: bytes, q: bytes, n: bytes, r: bytes, k: bytes, s: bytes, sep: bytes)
    ensures p + (m + sep + (q + (n + sep + (r + (k + sep + s))))) ==
      p + m + (sep + q) + n + (sep + r) + k + (sep + s)
  {
    Regrouped(r, k + sep, s);
    Regrouped(q, n + sep, r + (k + sep + s));
    Regrouped(p, m + sep, q + (n + sep + (r + (k + sep + s))));
  }

  /** The line with its labels in place. */
  lemma {:induction false} FindingMeans(pid: nat, fd: nat, size: nat, target: bytes)
    ensures Finding(pid, fd, size, target) ==
      Ascii("OPEN_UNLINKED\tpid=") + Dec(pid) + Ascii("\tfd=") + Dec(fd) + Ascii("\tsize=") + Dec(size)
      + Ascii("\ttarget=\"") + EscapeTarget(target) + Ascii("\"\n")
  {
    hide Dec, EscapeTarget;
    assert Ascii("\tfd=") == [TAB] + FD_FIELD && Ascii("\tsize=") == [TAB] + SIZE_FIELD;
    assert Ascii("\ttarget=\"") == [TAB] + TARGET_FIELD && Ascii("\"\n") == [QUOTE, LF];
    hide Ascii;
    Ungrouped(PID_FIELD, Dec(pid), FD_FIELD, Dec(fd), SIZE_FIELD, Dec(size), TARGET_FIELD, [TAB]);
  }

  /** The fixed text is those labels and nothing between them. */
  lemma FixedTextMeans()
    ensures FIXED_TEXT == Ascii("OPEN_UNLINKED\tpid=") + Ascii("\tfd=") + Ascii("\tsize=") + Ascii("\ttarget=\"")
      + Ascii("\"\n")
  {
  }

  /** A target with each kind of byte: a quote, a backslash, a line feed and a letter. */
  lemma EscapeTargetExample()
    ensures EscapeTarget([QUOTE, BACKSLASH, LF, 65]) == Ascii("\\\"\\\\\\x0AA")
  {
    var t: bytes := [QUOTE, BACKSLASH, LF, 65];
    EscapeMore(t, 0);
    EscapeMore(t, 1);
    EscapeMore(t, 2);
    EscapeMore(t, 3);
    NothingEscaped(t);
    assert t[..4] == t;
    hide EscapeTarget;
  }
}
