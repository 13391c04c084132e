/** sha256_init, sha256_update and sha256_final of src/treehash.c against the digest of FIPS 180-4. */
module Sha256Stream {
  import opened Bytes
  import opened Sha256Rounds

  const TWO64: nat := 0x1_0000_0000_0000_0000

  /** Section 5.3.3. */
  const H0: Digest8 := [
    0x6a09_e667, 0xbb67_ae85, 0x3c6e_f372, 0xa54f_f53a, 0x510e_527f, 0x9b05_688c, 0x1f83_d9ab, 0x5be0_cd19
  ]

  function Zeros(n: nat): (z: bytes)
    ensures |z| == n && forall i :: 0 <= i < n ==> z[i] == 0
  {
    seq(n, _ => 0)
  }

  /** n >> 8 * j. */
  function ShiftBytes(n: nat, j: nat): nat {
    if j == 0 then n else ShiftBytes(n, j - 1) / 256
  }

  /** Byte i of a 64-bit number, most significant first. */
  function LengthByte(bits: nat, i: nat): byte
    requires i < 8
  {
    (ShiftBytes(bits, 7 - i) % 256) as byte
  }

  function LengthField(bits: nat): (f: bytes)
    ensures |f| == 8
  {
    seq(8, i requires 0 <= i < 8 => LengthByte(bits, i))
  }

  /** The number of zero bytes section 5.1.1 puts between the 0x80 byte and the length. */
  function ZeroCount(len: nat): nat {
    if len % 64 < 56 then 55 - len % 64 else 119 - len % 64
  }

  function PaddedLength(len: nat, zeros: nat): nat { len + 1 + zeros }

  lemma ZeroCountIsSmallest(len: nat)
    ensures PaddedLength(len, ZeroCount(len)) % 64 == 56
    ensures forall k: nat | k < ZeroCount(len) :: PaddedLength(len, k) % 64 != 56
  {
  }

  /** Section 5.1.1; the length field counts bits modulo 2^64, as a uint64_t does. */
  function Pad(m: bytes): (p: bytes)
    ensures |p| % 64 == 0
  {
    m + [0x80] + Zeros(ZeroCount(|m|)) + LengthField(8 * |m| % TWO64)
  }

  /** Section 6.2.2: the hash value after all the blocks of bs. */
  function Fold(s: Digest8, bs: bytes): Digest8
    requires |bs| % 64 == 0
  {
    if bs == [] then s else Compress(Fold(s, bs[..|bs| - 64]), bs[|bs| - 64..])
  }

  function LowByte(w: word): byte {
    (w & 0xff) as byte
  }

  function WordBytes(w: word): (b: bytes)
    ensures |b| == 4
  {
    [LowByte(w >> 24), LowByte(w >> 16), LowByte(w >> 8), LowByte(w)]
  }

  function DigestBytes(s: seq<word>): (b: bytes)
    ensures |b| == 4 * |s|
  {
    if s == [] then [] else DigestBytes(s[..|s| - 1]) + WordBytes(s[|s| - 1])
  }

  lemma ByteAsBits(b: byte)
    ensures (b as bv8) as int == b as int && b as word == (b as bv8) as word
  {
  }

  lemma BitsAsWord(v: bv8)
    ensures (v as word) < 256 && (v as word) as int == v as int
  {
  }

  /** A byte keeps its value as the low end of a word. */
  lemma ByteInWord(b: byte)
    ensures (b as word) < 256 && (b as word) as byte == b
  {
    ByteAsBits(b);
    BitsAsWord(b as bv8);
  }

  lemma PackedBytes(a: word, b: word, c: word, d: word)
    requires a < 256 && b < 256 && c < 256 && d < 256
    ensures var w := (a << 24) | (b << 16) | (c << 8) | d;
      (w >> 24) & 0xff == a && (w >> 16) & 0xff == b && (w >> 8) & 0xff == c && w & 0xff == d
  {
  }

  /** A message word is the big-endian number of its four bytes: written out again it gives them back, in order. */
  lemma WordsAreBigEndian(block: bytes, i: nat)
    requires |block| == 64 && i < 16
    ensures WordBytes(BlockWord(block, i)) == block[4 * i..4 * i + 4]
  {
    var a, b, c, d := block[4 * i], block[4 * i + 1], block[4 * i + 2], block[4 * i + 3];
    ByteInWord(a);
    ByteInWord(b);
    ByteInWord(c);
    ByteInWord(d);
    PackedBytes(a as word, b as word, c as word, d as word);
  }

  /** The first byte of a word is the most significant one. */
  lemma FirstByteLeads(w: word)
    ensures WordBytes(w)[0] as int == (w >> 24) as int && WordBytes(w)[3] as int == (w & 0xff) as int
  {
    assert (w >> 24) & 0xff == w >> 24;
  }

  predicate SameLow(v: word, u: word) {
    v & 0xff == u & 0xff
  }

  lemma SameBits(x: bv8, y: bv8)
    requires x as int == y as int
    ensures x == y
  {
  }

  lemma SameSmallNumber(x: word, y: word)
    requires x < 256 && y < 256 && x as int == y as int
    ensures x == y
  {
    BitsAsWord(x as bv8);
    BitsAsWord(y as bv8);
    assert (x as bv8) as word == x && (y as bv8) as word == y;
    SameBits(x as bv8, y as bv8);
  }

  lemma SameLowByte(v: word, u: word)
    requires LowByte(v) == LowByte(u)
    ensures SameLow(v, u)
  {
    SameSmallNumber(v & 0xff, u & 0xff);
  }

  lemma SameBytes(w: word, x: word)
    requires SameLow(w >> 24, x >> 24) && SameLow(w >> 16, x >> 16) && SameLow(w >> 8, x >> 8) && SameLow(w, x)
    ensures w == x
  {
  }

  lemma LowBytesAgree(w: word, x: word)
    requires WordBytes(w) == WordBytes(x)
    ensures LowByte(w >> 24) == LowByte(x >> 24) && LowByte(w >> 16) == LowByte(x >> 16)
    ensures LowByte(w >> 8) == LowByte(x >> 8) && LowByte(w) == LowByte(x)
  {
    hide LowByte;
    var a, b := WordBytes(w), WordBytes(x);
    assert a[0] == b[0] && a[1] == b[1] && a[2] == b[2] && a[3] == b[3];
  }

  lemma LowBytesTell(w: word, x: word)
    requires LowByte(w >> 24) == LowByte(x >> 24) && LowByte(w >> 16) == LowByte(x >> 16)
    requires LowByte(w >> 8) == LowByte(x >> 8) && LowByte(w) == LowByte(x)
    ensures w == x
  {
    hide LowByte, SameLow;
    SameLowByte(w >> 24, x >> 24);
    SameLowByte(w >> 16, x >> 16);
    SameLowByte(w >> 8, x >> 8);
    SameLowByte(w, x);
    SameBytes(w, x);
  }

  /** No two words have the same bytes. */
  lemma BytesTellWord(w: word, x: word)
    requires WordBytes(w) == WordBytes(x)
    ensures w == x
  {
    hide LowByte, WordBytes;
    LowBytesAgree(w, x);
    LowBytesTell(w, x);
  }

  lemma {:induction false} DigestBytesAt(ws: seq<word>, i: nat)
    requires i < |ws|
    ensures DigestBytes(ws)[4 * i..4 * i + 4] == WordBytes(ws[i])
  {
    hide WordBytes;
    var n := |ws| - 1;
    if i < n {
      DigestBytesAt(ws[..n], i);
    }
  }

  /** A block written from sixteen words reads as those words. */
  lemma {:induction false} BlockOfWords(ws: seq<word>)
    requires |ws| == 16
    ensures BlockWords(DigestBytes(ws)) == ws
  {
    hide WordBytes, BlockWord, DigestBytes;
    forall i | 0 <= i < 16
      ensures BlockWord(DigestBytes(ws), i) == ws[i]
    {
      DigestBytesAt(ws, i);
      WordsAreBigEndian(DigestBytes(ws), i);
      BytesTellWord(BlockWord(DigestBytes(ws), i), ws[i]);
    }
  }

  /** Blocks are taken in order, each on top of what the earlier ones gave. */
  lemma {:induction false} FoldOfConcat(s: Digest8, a: bytes, b: bytes)
    requires |a| % 64 == 0 && |b| % 64 == 0
    ensures Fold(s, a + b) == Fold(Fold(s, a), b)
    decreases |b|
  {
    hide Compress;
    if b == [] {
      assert a + b == a;
    } else {
      var n := |b| - 64;
      FoldOfConcat(s, a, b[..n]);
      assert (a + b)[..|a + b| - 64] == a + b[..n] && (a + b)[|a + b| - 64..] == b[n..];
    }
  }

  lemma {:induction false} FoldOfBlock(s: Digest8, block: bytes)
    requires |block| == 64
    ensures Fold(s, block) == Compress(s, block)
  {
    hide Compress;
    assert block[..0] == [] && block[0..] == block;
    assert Fold(s, []) == s;
  }

  function Sha256(m: bytes): (d: bytes)
    ensures |d| == 32
  {
    DigestBytes(Fold(H0, Pad(m)))
  }

  /** The padded message from the last block boundary q of m on. */
  lemma PadFrom(m: bytes, q: nat)
    requires q % 64 == 0 && q <= |m| < q + 64
    ensures var used := |m| - q + 1;
      var zeros := if used > 56 then 64 - used + 56 else 56 - used;
      && |Pad(m)| == q + used + zeros + 8 && Pad(m)[..q] == m[..q]
      && Pad(m)[q..] == m[q..] + [0x80] + Zeros(zeros) + LengthField(8 * |m| % TWO64)
  {
    var used := |m| - q + 1;
    assert ZeroCount(|m|) == if used > 56 then 64 - used + 56 else 56 - used;
  }

  /** memcpy into a buffer at an offset. */
  method Copy(a: array<byte>, at: nat, src: bytes)
    requires at + |src| <= a.Length
    modifies a
    ensures a[..] == old(a[..at]) + src + old(a[at + |src|..])
  {
    for i := 0 to |src|
      invariant a[..] == old(a[..at]) + src[..i] + old(a[at + i..])
    {
      a[at + i] := src[i];
    }
  }

  /** What the wrapped byte counter still knows. */
  lemma CountWraps(n: nat, d: nat, done: nat)
    requires done % 64 == 0 && done <= n < done + 64
    ensures n % TWO64 % 64 == n - done
    ensures (n % TWO64 + d) % TWO64 == (n + d) % TWO64
    ensures n % TWO64 * 8 % TWO64 == 8 * n % TWO64
  {
    var k := n / TWO64;
    assert n == k * TWO64 + n % TWO64;
  }

  lemma FoldStep(all: bytes, q: nat)
    requires q % 64 == 0 && q + 64 <= |all|
    ensures Fold(H0, all[..q + 64]) == Compress(Fold(H0, all[..q]), all[q..q + 64])
  {
    hide Compress;
    var bs := all[..q + 64];
    assert bs[..|bs| - 64] == all[..q] && bs[|bs| - 64..] == all[q..q + 64];
  }

  class Context {
    const state: array<word>
    var count: nat
    const buffer: array<byte>
    /** Everything passed to Update since the constructor, and how much of it is in the hash value. */
    ghost var absorbed: bytes
    ghost var done: nat

    /** The hash value accounts for exactly the first q bytes of all. */
    ghost predicate Hashed(all: bytes, q: nat)
      reads state
    {
      && state.Length == 8 && buffer.Length == 64
      && q % 64 == 0 && q <= |all|
      && state[..] == Fold(H0, all[..q])
    }

    ghost predicate Valid()
      reads this, state, buffer
    {
      && count == |absorbed| % TWO64
      && Hashed(absorbed, done)
      && |absorbed| - done < 64
      && buffer[..|absorbed| - done] == absorbed[done..]
    }

    constructor ()
      ensures Valid() && fresh(state) && fresh(buffer) && absorbed == []
    {
      state := new word[8](i requires 0 <= i < 8 => H0[i]);
      buffer := new byte[64](_ => 0);
      count := 0;
      absorbed := [];
      done := 0;
      new;
      assert state[..] == H0;
    }

    /** One call of sha256_transform on the next 64 bytes of the message `all`. */
    method Consume(data: bytes, ghost all: bytes, ghost q: nat)
      requires Hashed(all, q) && q + 64 <= |all| && all[q..q + 64] == data
      modifies state
      ensures Hashed(all, q + 64)
    {
      hide Compress, Fold;
      FoldStep(all, q);
      Transform(state, data);
    }

    /** Lines 129-137: whole blocks straight from the caller's bytes, the rest into the buffer. */
    method UpdateBlocks(data: bytes, start: nat)
      requires start <= |data| && done + |data| - start == |absorbed| && absorbed[done..] == data[start..]
      requires Hashed(absorbed, done) && count == |absorbed| % TWO64
      modifies state, buffer, `done
      ensures Valid()
    {
      hide Compress, Fold;
      var p := start;
      while |data| - p >= 64
        modifies state, `done
        invariant start <= p <= |data| && done + |data| - p == |absorbed|
        invariant absorbed[done..] == data[p..]
        invariant Hashed(absorbed, done)
      {
        assert absorbed[done..done + 64] == absorbed[done..][..64] == data[p..p + 64];
        Consume(data[p..p + 64], absorbed, done);
        assert absorbed[done + 64..] == absorbed[done..][64..] == data[p + 64..];
        p := p + 64;
        done := done + 64;
      }
      if |data| > p {
        Copy(buffer, 0, data[p..]);
      }
    }

    method Update(data: bytes)
      requires Valid()
      modifies this, state, buffer
      ensures Valid() && absorbed == old(absorbed) + data
    {
      hide Compress, Fold;
      CountWraps(|absorbed|, |data|, done);
      var bufferIdx := count % 64;
      ghost var all := absorbed + data;
      assert all[..done] == absorbed[..done];
      assert all[done..] == buffer[..bufferIdx] + data;
      count := (count + |data|) % TWO64;
      absorbed := all;
      var p := 0;
      if bufferIdx > 0 {
        var needed := 64 - bufferIdx;
        if |data| < needed {
          Copy(buffer, bufferIdx, data);
          return;
        }
        Copy(buffer, bufferIdx, data[..needed]);
        assert all[done..done + 64] == all[done..][..64] == buffer[..];
        assert all[done + 64..] == all[done..][64..] == data[needed..];
        Consume(buffer[..], all, done);
        done := done + 64;
        p := needed;
      }
      UpdateBlocks(data, p);
    }

    /** Lines 145-154: the 0x80 byte and the zeros, in this block or in this one and the next. */
    method PadTail(ghost padded: bytes) returns (ghost q: nat)
      requires Valid() && padded == Pad(absorbed)
      modifies state, buffer
      ensures q + 64 == |padded| && Hashed(padded, q)
      ensures padded[q..] == buffer[..56] + LengthField(8 * |absorbed| % TWO64)
    {
      hide Compress, Fold, Pad, LengthField;
      CountWraps(|absorbed|, 0, done);
      PadFrom(absorbed, done);
      q := done;
      ghost var rest := padded[q..];
      var bufferIdx := count % 64;
      buffer[bufferIdx] := 0x80;
      bufferIdx := bufferIdx + 1;
      assert rest[..bufferIdx] == buffer[..bufferIdx];
      if bufferIdx > 56 {
        Copy(buffer, bufferIdx, Zeros(64 - bufferIdx));
        assert padded[q..q + 64] == rest[..64] == buffer[..];
        Consume(buffer[..], padded, q);
        q := q + 64;
        Copy(buffer, 0, Zeros(56));
        assert padded[q..] == rest[64..];
      } else {
        Copy(buffer, bufferIdx, Zeros(56 - bufferIdx));
      }
    }

    /** Lines 156-158. */
    method WriteLength(totalBits: nat)
      requires buffer.Length == 64
      modifies buffer
      ensures buffer[..] == old(buffer[..56]) + LengthField(totalBits)
    {
      for i := 0 to 8
        invariant buffer[..56 + i] == old(buffer[..56]) + LengthField(totalBits)[..i]
      {
        buffer[56 + i] := LengthByte(totalBits, i);
      }
    }

    method Final() returns (hash: bytes)
      requires Valid()
      modifies this, state, buffer
      ensures hash == Sha256(old(absorbed))
    {
      hide Compress, Fold, Pad, LengthField;
      CountWraps(|absorbed|, 0, done);
      var totalBits := count * 8 % TWO64;
      ghost var padded := Pad(absorbed);
      ghost var q := PadTail(padded);
      WriteLength(totalBits);
      assert padded[q..q + 64] == padded[q..];
      Consume(buffer[..], padded, q);
      assert padded[..q + 64] == padded;
      hash := [];
      for i := 0 to 8
        invariant hash == DigestBytes(state[..i])
      {
        assert state[..i + 1][..i] == state[..i];
        hash := hash + WordBytes(state[i]);
      }
      assert state[..8] == state[..];
    }
  }

  /** The number a big-endian byte string writes. */
  function BigEndian(bs: bytes): nat {
    if bs == [] then 0 else 256 * BigEndian(bs[..|bs| - 1]) + bs[|bs| - 1] as nat
  }

  lemma {:induction false} TopByte(bits: nat)
    requires bits < TWO64
    ensures ShiftBytes(bits, 8) == 0
  {
    assert ShiftBytes(bits, 1) < 0x100_0000_0000_0000 && ShiftBytes(bits, 2) < 0x1_0000_0000_0000;
    assert ShiftBytes(bits, 3) < 0x100_0000_0000 && ShiftBytes(bits, 4) < 0x1_0000_0000;
    assert ShiftBytes(bits, 5) < 0x100_0000 && ShiftBytes(bits, 6) < 0x1_0000 && ShiftBytes(bits, 7) < 0x100;
  }

  lemma {:induction false} LengthPrefix(bits: nat, i: nat)
    requires bits < TWO64 && i <= 8
    ensures BigEndian(LengthField(bits)[..i]) == ShiftBytes(bits, 8 - i)
  {
    var f := LengthField(bits);
    if i == 0 {
      TopByte(bits);
    } else {
      LengthPrefix(bits, i - 1);
      assert f[..i][..i - 1] == f[..i - 1];
    }
  }

  /** The length field is section 5.1.1's exactly when the bit count fits the uint64_t counter. */
  lemma LengthIsExact(m: bytes)
    ensures BigEndian(Pad(m)[|Pad(m)| - 8..]) == 8 * |m| <==> |m| < 0x2000_0000_0000_0000
  {
    var f := LengthField(8 * |m| % TWO64);
    assert Pad(m)[|Pad(m)| - 8..] == f == f[..8];
    LengthPrefix(8 * |m| % TWO64, 8);
  }
}
