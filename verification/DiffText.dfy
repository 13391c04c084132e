/** The text src/sysdiff.c prints for a difference, and that it can be read back without loss. */
module DiffText {
  import opened Bytes
  import opened Options

  const LOWER_X: byte := 120
  const PLUS: byte := 43
  const TILDE: byte := 126

  /** " ->", which a printed value never contains, and " -> ", which separates the two values of a change. */
  const ARROW: bytes := [SPACE, HYPHEN, GREATER]
  const SEPARATOR: bytes := [SPACE, HYPHEN, GREATER, SPACE]

  predicate PrintableAscii(c: byte) {
    0x20 <= c <= 0x7e
  }

  /** "%X" of one digit. */
  function HexDigitUpper(n: nat): (c: byte)
    requires n < 16
    ensures 48 <= c <= 57 || 65 <= c <= 70
  {
    if n < 10 then 48 + n as byte else 55 + n as byte
  }

  /** "\x%02X". */
  function HexEscape(c: byte): (s: bytes)
    ensures |s| == 4
  {
    [BACKSLASH, LOWER_X, HexDigitUpper(c as nat / 16), HexDigitUpper(c as nat % 16)]
  }

  function EscapeByte(c: byte): (s: bytes)
    ensures s != []
  {
    if c == BACKSLASH then [BACKSLASH, BACKSLASH]
    else if PrintableAscii(c) then [c]
    else HexEscape(c)
  }

  function EscapeValue(t: bytes): bytes
    decreases |t|
  {
    if t == [] then []
    else if ARROW <= t then [SPACE, HYPHEN] + HexEscape(GREATER) + EscapeValue(t[3..])
    else EscapeByte(t[0]) + EscapeValue(t[1..])
  }

  lemma EscapeStep(text: bytes, p: nat)
    requires p < |text|
    ensures var n := if p + 3 <= |text| && text[p..p + 3] == ARROW then 3 else 1;
      EscapeValue(text[p..])
      == (if n == 3 then [SPACE, HYPHEN] + HexEscape(GREATER) else EscapeByte(text[p])) + EscapeValue(text[p + n..])
  {
    hide EscapeByte, HexEscape;
    var t := text[p..];
    if p + 3 <= |text| && text[p..p + 3] == ARROW {
      assert ARROW <= t && t[3..] == text[p + 3..];
    } else {
      assert t[1..] == text[p + 1..];
      assert !(ARROW <= t);
    }
  }

  /** put_escaped_value, with the stream it writes to as its result. */
  method PutEscapedValue(text: bytes) returns (out: bytes)
    ensures out == EscapeValue(text)
  {
    hide EscapeByte, HexEscape;
    var p := 0;
    out := [];
    while p < |text|
      invariant 0 <= p <= |text| && out + EscapeValue(text[p..]) == EscapeValue(text)
    {
      EscapeStep(text, p);
      hide EscapeValue;
      ghost var n := if p + 3 <= |text| && text[p..p + 3] == ARROW then 3 else 1;
      ghost var head := if n == 3 then [SPACE, HYPHEN] + HexEscape(GREATER) else EscapeByte(text[p]);
      Regrouped(out, head, EscapeValue(text[p + n..]));
      if p + 3 <= |text| && text[p..p + 3] == ARROW {
        out := out + ([SPACE, HYPHEN] + HexEscape(GREATER));
        p := p + 3;
        continue;
      }
      out := out + EscapeByte(text[p]);
      p := p + 1;
    }
  }

  function HexValue(c: byte): Option<nat> {
    if 48 <= c <= 57 then Some((c - 48) as nat)
    else if 65 <= c <= 70 then Some((c - 55) as nat)
    else None
  }

  function Prepend(c: byte, r: Option<bytes>): Option<bytes> {
    match r
    case Some(t) => Some([c] + t)
    case None => None
  }

  /** What an escaped value stands for. */
  function Unescape(s: bytes): Option<bytes>
    decreases |s|
  {
    if s == [] then Some([])
    else if s[0] != BACKSLASH then Prepend(s[0], Unescape(s[1..]))
    else if |s| >= 2 && s[1] == BACKSLASH then Prepend(BACKSLASH, Unescape(s[2..]))
    else if |s| >= 4 && s[1] == LOWER_X && HexValue(s[2]).Some? && HexValue(s[3]).Some? then
      Prepend((16 * HexValue(s[2]).value + HexValue(s[3]).value) as byte, Unescape(s[4..]))
    else None
  }

  lemma {:induction false} UnescapeHex(c: byte, s: bytes)
    ensures Unescape(HexEscape(c) + s) == Prepend(c, Unescape(s))
  {
    var e := HexEscape(c) + s;
    assert e[4..] == s;
  }

  lemma {:induction false} UnescapeByte(c: byte, s: bytes)
    ensures Unescape(EscapeByte(c) + s) == Prepend(c, Unescape(s))
  {
    if c == BACKSLASH {
      assert ([BACKSLASH, BACKSLASH] + s)[2..] == s;
    } else if PrintableAscii(c) {
      assert ([c] + s)[1..] == s;
    } else {
      UnescapeHex(c, s);
    }
  }

  lemma {:induction false} UnescapePlain(c: byte, s: bytes)
    requires c != BACKSLASH
    ensures Unescape([c] + s) == Prepend(c, Unescape(s))
  {
    assert ([c] + s)[1..] == s;
  }

  lemma {:induction false} UnescapeArrow(s: bytes)
    ensures Unescape([SPACE, HYPHEN] + HexEscape(GREATER) + s)
      == Prepend(SPACE, Prepend(HYPHEN, Prepend(GREATER, Unescape(s))))
  {
    hide Unescape, HexEscape;
    var e := HexEscape(GREATER) + s;
    UnescapeHex(GREATER, s);
    UnescapePlain(HYPHEN, e);
    UnescapePlain(SPACE, [HYPHEN] + e);
    assert [SPACE, HYPHEN] + HexEscape(GREATER) + s == [SPACE] + ([HYPHEN] + e);
  }

  lemma UnescapeNothing()
    ensures Unescape([]) == Some([])
  {
  }

  /** Rendering is lossless. */
  lemma {:induction false} UnescapeOfEscape(t: bytes)
    ensures Unescape(EscapeValue(t)) == Some(t)
    decreases |t|
  {
    hide Unescape, EscapeByte, HexEscape;
    if t == [] {
      UnescapeNothing();
    } else if ARROW <= t {
      UnescapeOfEscape(t[3..]);
      UnescapeArrow(EscapeValue(t[3..]));
      assert t == [SPACE] + ([HYPHEN] + ([GREATER] + t[3..]));
    } else {
      UnescapeOfEscape(t[1..]);
      UnescapeByte(t[0], EscapeValue(t[1..]));
      assert t == [t[0]] + t[1..];
    }
  }

  lemma {:induction false} EscapedIsPrintable(t: bytes)
    ensures forall i :: 0 <= i < |EscapeValue(t)| ==> PrintableAscii(EscapeValue(t)[i])
    decreases |t|
  {
    if t != [] {
      EscapedIsPrintable(if ARROW <= t then t[3..] else t[1..]);
    }
  }

  /** Where a pattern occurs. */
  predicate OccursAt(s: bytes, pat: bytes, k: nat) {
    k + |pat| <= |s| && s[k..k + |pat|] == pat
  }

  predicate ArrowAt(s: bytes, k: nat) {
    k + 3 <= |s| && s[k] == SPACE && s[k + 1] == HYPHEN && s[k + 2] == GREATER
  }

  lemma SeparatorHasArrow(s: bytes, k: nat)
    requires OccursAt(s, SEPARATOR, k)
    ensures ArrowAt(s, k) && s[k + 3] == SPACE
  {
    assert s[k] == s[k..k + 4][0] && s[k + 1] == s[k..k + 4][1];
    assert s[k + 2] == s[k..k + 4][2] && s[k + 3] == s[k..k + 4][3];
  }

  /** The first byte of a printed value, when it can take part in an arrow. */
  lemma {:induction false} EscapedStart(t: bytes, c: byte)
    requires EscapeValue(t) != [] && EscapeValue(t)[0] == c && (c == HYPHEN || c == GREATER)
    ensures t != [] && t[0] == c && EscapeValue(t)[1..] == EscapeValue(t[1..])
  {
  }

  /** A printed value does not contain space, hyphen, greater-than. */
  lemma {:induction false} EscapedHasNoArrow(t: bytes, k: nat)
    ensures !ArrowAt(EscapeValue(t), k)
    decreases |t|
  {
    if t != [] {
      var n := if ARROW <= t then 3 else 1;
      var head := if ARROW <= t then [SPACE, HYPHEN] + HexEscape(GREATER) else EscapeByte(t[0]);
      assert EscapeValue(t) == head + EscapeValue(t[n..]);
      if k >= |head| {
        EscapedHasNoArrow(t[n..], k - |head|);
      } else if n == 1 && ArrowAt(EscapeValue(t), k) {
        EscapedStart(t[1..], HYPHEN);
        EscapedStart(t[1..][1..], GREATER);
      }
    }
  }

  /** The leftmost occurrence. */
  function Find(s: bytes, pat: bytes): Option<nat>
    decreases |s|
  {
    if |s| < |pat| then None
    else if s[..|pat|] == pat then Some(0)
    else if s == [] then None
    else match Find(s[1..], pat)
      case Some(k) => Some(k + 1)
      case None => None
  }

  lemma {:induction false} FindLeftmost(s: bytes, pat: bytes, k: nat)
    requires OccursAt(s, pat, k) && forall j: nat :: j < k ==> !OccursAt(s, pat, j)
    ensures Find(s, pat) == Some(k)
    decreases k
  {
    if k > 0 {
      assert !OccursAt(s, pat, 0);
      assert s[1..][k - 1..k - 1 + |pat|] == s[k..k + |pat|];
      forall j: nat | j < k - 1
        ensures !OccursAt(s[1..], pat, j)
      {
        assert !OccursAt(s, pat, j + 1);
        assert j + 1 + |pat| <= |s| ==> s[1..][j..j + |pat|] == s[j + 1..j + 1 + |pat|];
      }
      FindLeftmost(s[1..], pat, k - 1);
    }
  }

  lemma {:induction false} FindNowhere(s: bytes, pat: bytes)
    requires forall j: nat :: !OccursAt(s, pat, j)
    ensures Find(s, pat) == None
    decreases |s|
  {
    assert !OccursAt(s, pat, 0);
    if |s| >= |pat| && s != [] {
      forall j: nat
        ensures !OccursAt(s[1..], pat, j)
      {
        assert !OccursAt(s, pat, j + 1);
        assert j + 1 + |pat| <= |s| ==> s[1..][j..j + |pat|] == s[j + 1..j + 1 + |pat|];
      }
      FindNowhere(s[1..], pat);
    }
  }

  /** Of the two printed values of a change, the leftmost separator is the real one. */
  lemma {:induction false} LeftmostSeparator(before: bytes, after: bytes)
    ensures Find(EscapeValue(before) + SEPARATOR + EscapeValue(after), SEPARATOR) == Some(|EscapeValue(before)|)
  {
    var a := EscapeValue(before);
    var s := a + SEPARATOR + EscapeValue(after);
    assert s[|a|..|a| + 4] == SEPARATOR;
    forall j: nat | j < |a|
      ensures !OccursAt(s, SEPARATOR, j)
    {
      if OccursAt(s, SEPARATOR, j) {
        SeparatorHasArrow(s, j);
        EscapedHasNoArrow(before, j);
      }
    }
    hide EscapeValue, ArrowAt;
    FindLeftmost(s, SEPARATOR, |a|);
  }

  /** Occurrences found from the left without overlap. */
  function Count(s: bytes, pat: bytes): nat
    requires pat != []
    decreases |s|
  {
    match Find(s, pat)
    case None => 0
    case Some(k) => if k + |pat| <= |s| then 1 + Count(s[k + |pat|..], pat) else 0
  }

  lemma {:induction false} NoSeparatorInside(t: bytes)
    ensures Find(EscapeValue(t), SEPARATOR) == None
  {
    forall j: nat
      ensures !OccursAt(EscapeValue(t), SEPARATOR, j)
    {
      if OccursAt(EscapeValue(t), SEPARATOR, j) {
        SeparatorHasArrow(EscapeValue(t), j);
        EscapedHasNoArrow(t, j);
      }
    }
    FindNowhere(EscapeValue(t), SEPARATOR);
  }

  /** A changed line has exactly one separator, counted from the left without overlap. */
  lemma {:induction false} OneSeparator(before: bytes, after: bytes)
    ensures Count(EscapeValue(before) + SEPARATOR + EscapeValue(after), SEPARATOR) == 1
  {
    var a, b := EscapeValue(before), EscapeValue(after);
    LeftmostSeparator(before, after);
    NoSeparatorInside(after);
    assert (a + SEPARATOR + b)[|a| + 4..] == b;
  }

  /** Counted with overlap there can be two: the escape does not reach across the separator. */
  lemma OverlappingSeparator()
    ensures var after: bytes := [HYPHEN, GREATER, SPACE];
      var line := EscapeValue([]) + SEPARATOR + EscapeValue(after);
      OccursAt(line, SEPARATOR, 0) && OccursAt(line, SEPARATOR, 3)
  {
    var after: bytes := [HYPHEN, GREATER, SPACE];
    var t: bytes := [GREATER, SPACE];
    var u: bytes := [SPACE];
    assert u[1..] == [] && t[1..] == u && after[1..] == t;
    assert EscapeValue(u) == [SPACE];
    assert EscapeValue(t) == t;
    assert EscapeValue(after) == after;
  }

  const HEX_DIGITS: bytes := Ascii("0123456789ABCDEF")

  /** The escape of a byte: backslash, x and its two digits in upper case, the high one first. */
  lemma HexEscapeMeans(c: byte)
    ensures HexEscape(c) == [BACKSLASH, LOWER_X, HEX_DIGITS[c as nat / 16], HEX_DIGITS[c as nat % 16]]
  {
  }

  lemma LastEscaped(c: byte)
    ensures EscapeValue([c]) == EscapeByte(c)
  {
    assert [c][1..] == [] && EscapeValue([c][1..]) == [];
    assert EscapeValue([c]) == EscapeByte(c) + EscapeValue([c][1..]);
  }

  /** A printed value with each kind of byte: an arrow, a line feed and a backslash. */
  lemma EscapeExample()
    ensures EscapeValue([65] + ARROW + [LF, BACKSLASH]) == Ascii("A -\\x3E\\x0A\\\\")
  {
    var t: bytes := [LF, BACKSLASH];
    var s := ARROW + t;
    assert t[1..] == [BACKSLASH] && s[3..] == t && ([65] + s)[1..] == s;
    assert [65] + ARROW + t == [65] + s;
    LastEscaped(BACKSLASH);
    assert EscapeValue(t) == HexEscape(LF) + [BACKSLASH, BACKSLASH];
    assert EscapeValue(s) == [SPACE, HYPHEN] + HexEscape(GREATER) + EscapeValue(t);
    assert EscapeValue([65] + s) == [65] + EscapeValue(s);
    hide EscapeValue;
  }
}
