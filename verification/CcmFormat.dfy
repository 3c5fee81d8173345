/** What ciphertext and tag of CCM are in the block cipher, exclusive or and the formatted string
    of NIST SP 800-38C (appendix A) alone. */
module CcmFormat {
  import opened Arith
  import opened Bytes
  import opened Cbc
  import opened CcmSpec

  // ----- the formatted string, by what it reads as

  /** With zeros up to the next whole block. */
  function ZeroFilled(s: seq<byte>): seq<byte> {
    s + Fill(0, (BLOCK - |s| % BLOCK) % BLOCK)
  }

  /** The string over which the code is computed. Its first byte says whether there are associated
      data (bit 6), how long the tag is (bits 5 to 3) and how many bytes the length takes (bits 2
      to 0); then come the nonce, the length of the message, the associated data behind their
      length in two bytes, and the message. */
  ghost predicate Formats(B: seq<byte>, nonce: seq<byte>, tagLen: nat, ad: seq<byte>, m: seq<byte>) {
    && 7 <= |nonce| <= 13 && BLOCK + (if ad == [] then 0 else 2) <= |B|
    && B[0] & 0xc0 == (if ad == [] then 0 else 0x40)
    && 2 * Value((B[0] >> 3) & 7) + 2 == tagLen
    && Value(B[0] & 7) + 1 == 15 - |nonce|
    && B[1..1 + |nonce|] == nonce && BigEndian(B[1 + |nonce|..BLOCK]) == |m|
    && (ad != [] ==> BigEndian(B[BLOCK..BLOCK + 2]) == |ad|)
    && B[BLOCK..] == (if ad == [] then [] else ZeroFilled(B[BLOCK..BLOCK + 2] + ad)) + ZeroFilled(m)
  }

  /** The tag is the end of the encryption of that string in CBC mode from zeros, under the
      encrypted counter block of number zero. */
  ghost predicate TaggedAs(c: BlockCipher, nonce: seq<byte>, tagLen: nat, ad: seq<byte>, m: seq<byte>, tag: seq<byte>) {
    7 <= |nonce| <= 13 && exists B: seq<byte> :: Formats(B, nonce, tagLen, ad, m) && IsTag(c, nonce, B, tag)
  }

  ghost predicate IsTag(c: BlockCipher, nonce: seq<byte>, B: seq<byte>, tag: seq<byte>)
    requires 7 <= |nonce| <= 13
  {
    && Whole(B) && |B| >= BLOCK && |tag| <= BLOCK
    && var l, a0 := Chain(c, Encrypt, Fill(0, BLOCK), B), [ByteOf(14 - |nonce|)] + nonce + Fill(0, 15 - |nonce|);
    forall i :: 0 <= i < |tag| ==> tag[i] == l[|B| - BLOCK..][i] ^ c.enc(a0)[i]
  }

  /** A counter block: the nonce and the number k. */
  ghost predicate IsCounter(a: Block, nonce: seq<byte>, k: nat) {
    && 7 <= |nonce| <= 13 && Value(a[0]) == 14 - |nonce| && a[1..1 + |nonce|] == nonce
    && BigEndian(a[1 + |nonce|..]) == k
  }

  /** Block j of the message goes under the encrypted counter block of number j + 1. */
  ghost predicate StreamedAs(c: BlockCipher, nonce: seq<byte>, input: seq<byte>, output: seq<byte>) {
    && |output| == |input|
    && forall i: nat, a: Block :: i < |input| && IsCounter(a, nonce, 1 + i / BLOCK) ==>
         output[i] == input[i] ^ c.enc(a)[i % BLOCK]
  }

  // ----- the first byte

  lemma {:induction false} SmallByte(n: nat)
    requires n < 8
    ensures ByteOf(n) <= 7
  {
    assert ByteOf(1) == 1;
    assert ByteOf(2) == 2;
    assert ByteOf(3) == 3;
    assert ByteOf(4) == 4;
    assert ByteOf(5) == 5;
    assert ByteOf(6) == 6;
    assert ByteOf(7) == 7;
  }

  lemma {:induction false} FlagBits(a: byte, t: byte, q: byte)
    requires (a == 0 || a == 0x40) && t <= 7 && q <= 7
    ensures var x := a | (t << 3) | q; x & 0xc0 == a && (x >> 3) & 7 == t && x & 7 == q
  {
  }

  lemma {:induction false} FirstByte(nonce: seq<byte>, addLen: nat, tagLen: nat, length: nat)
    requires 7 <= |nonce| <= 13 && 4 <= tagLen <= 16 && tagLen % 2 == 0
    ensures var x := FirstBlock(nonce, addLen, tagLen, length)[0];
      && x & 0xc0 == (if addLen > 0 then 0x40 else 0)
      && 2 * Value((x >> 3) & 7) + 2 == tagLen && Value(x & 7) + 1 == 15 - |nonce|
  {
    hide ByteOf, Value;
    var t, q := (tagLen - 2) / 2, 14 - |nonce|;
    SmallByte(t);
    SmallByte(q);
    FlagBits(if addLen > 0 then 0x40 else 0, ByteOf(t), ByteOf(q));
    ValueOf(t);
    ValueOf(q);
  }

  // ----- the string that the code is computed over

  function Formatted(nonce: seq<byte>, tagLen: nat, ad: seq<byte>, m: seq<byte>): (r: seq<byte>)
    requires 7 <= |nonce| <= 13 && 4 <= tagLen <= 16 && |ad| < 0xFF00
  {
    FirstBlock(nonce, |ad|, tagLen, |m|) + ((if ad == [] then [] else PadZero(EncodedAd(ad))) + PadZero(m))
  }

  lemma {:induction false} PadZeroIs(s: seq<byte>)
    ensures PadZero(s) == ZeroFilled(s)
  {
    OffsetIs(|s|);
    if |s| % BLOCK == 0 { assert s + Fill(0, 0) == s; }
  }

  lemma {:induction false} FormattedFormats(nonce: seq<byte>, tagLen: nat, ad: seq<byte>, m: seq<byte>)
    requires 7 <= |nonce| <= 13 && 4 <= tagLen <= 16 && tagLen % 2 == 0 && |ad| < 0xFF00
    requires !TooLong(|m|, 15 - |nonce|)
    ensures Formats(Formatted(nonce, tagLen, ad, m), nonce, tagLen, ad, m)
  {
    hide ByteOf, Value, FirstBlock, PadZero, ZeroFilled, LengthBytes, BigEndian, TooLong, Pow;
    var first, B := FirstBlock(nonce, |ad|, tagLen, |m|), Formatted(nonce, tagLen, ad, m);
    FirstByte(nonce, |ad|, tagLen, |m|);
    FirstRest(nonce, |ad|, tagLen, |m|);
    PadZeroIs(EncodedAd(ad));
    PadZeroIs(m);
    assert B[..BLOCK] == first && B[0] == first[0];
    assert B[1..1 + |nonce|] == first[1..1 + |nonce|] && B[1 + |nonce|..BLOCK] == first[1 + |nonce|..];
    if ad != [] { AdBytes(first, ad, PadZero(m)); }
  }

  lemma {:induction false} FirstRest(nonce: seq<byte>, addLen: nat, tagLen: nat, length: nat)
    requires 7 <= |nonce| <= 13 && 4 <= tagLen <= 16 && !TooLong(length, 15 - |nonce|)
    ensures var x := FirstBlock(nonce, addLen, tagLen, length);
      x[1..1 + |nonce|] == nonce && BigEndian(x[1 + |nonce|..]) == length
  {
    hide ByteOf, Value, LengthBytes, BigEndian, TooLong, Pow;
    TooLongIs(length, 15 - |nonce|);
    LengthBytesValue(15 - |nonce|, length);
    var x := FirstBlock(nonce, addLen, tagLen, length);
    assert x[1 + |nonce|..] == LengthBytes(15 - |nonce|, length);
  }

  lemma {:induction false} TwoByteLength(n: nat)
    requires n < 0xFF00
    ensures BigEndian(LengthBytes(2, n)) == n
  {
    hide LengthBytes, BigEndian;
    assert Pow(256, 2) == 65536 by { PowStep(256, 0); PowStep(256, 1); }
    LengthBytesValue(2, n);
  }

  lemma {:induction false} AdBytes(first: Block, ad: seq<byte>, rest: seq<byte>)
    requires ad != [] && |ad| < 0xFF00
    ensures var B := first + (PadZero(EncodedAd(ad)) + rest);
      && |B| >= BLOCK + 2 && BigEndian(B[BLOCK..BLOCK + 2]) == |ad|
      && B[BLOCK..] == ZeroFilled(B[BLOCK..BLOCK + 2] + ad) + rest
  {
    hide LengthBytes, BigEndian;
    TwoByteLength(|ad|);
    PadZeroIs(EncodedAd(ad));
    var B := first + (PadZero(EncodedAd(ad)) + rest);
    assert B[BLOCK..BLOCK + 2] == LengthBytes(2, |ad|);
  }

  // ----- the code as the end of a chain

  lemma {:induction false} LastOfChain(c: BlockCipher, iv: Block, data: seq<byte>)
    requires Whole(data) && data != []
    ensures |data| >= BLOCK && Chain(c, Encrypt, iv, data)[|data| - BLOCK..] == NextIv(c, Encrypt, iv, data)
    decreases |data|
  {
    var x, rest := data[..BLOCK], data[BLOCK..];
    var y := OneBlock(c, Encrypt, iv, x);
    var more: seq<byte> := Chain(c, Encrypt, y, rest);
    var front: seq<byte> := y;
    assert Chain(c, Encrypt, iv, data) == front + more;
    if rest != [] {
      LastOfChain(c, y, rest);
      assert (front + more)[|data| - BLOCK..] == more[|rest| - BLOCK..];
    }
  }

  lemma {:induction false} FirstFromZeros(c: BlockCipher, x: Block)
    ensures Whole(x) && NextIv(c, Encrypt, Fill(0, BLOCK), x) == c.enc(x)
  {
    var z: Block := Fill(0, BLOCK);
    assert x[..BLOCK] == x && x[BLOCK..] == [];
    assert Xor(x, z) == x by {
      forall i | 0 <= i < BLOCK ensures Xor(x, z)[i] == x[i] { XorZero(x[i]); }
    }
  }

  lemma {:induction false} XorZero(x: byte)
    ensures x ^ 0 == x
  {
  }

  lemma {:induction false} CodeIsChain(c: BlockCipher, nonce: seq<byte>, tagLen: nat, ad: seq<byte>, m: seq<byte>)
    requires 7 <= |nonce| <= 13 && 4 <= tagLen <= 16 && |ad| < 0xFF00
    ensures var B := Formatted(nonce, tagLen, ad, m);
      && Whole(B) && |B| >= BLOCK
      && Chain(c, Encrypt, Fill(0, BLOCK), B)[|B| - BLOCK..] == MessageMac(c, nonce, tagLen, ad, m)
  {
    hide FirstBlock, PadZero, Chain, NextIv, Whole;
    var z: Block := Fill(0, BLOCK);
    var first, B := FirstBlock(nonce, |ad|, tagLen, |m|), Formatted(nonce, tagLen, ad, m);
    var a, p := if ad == [] then [] else PadZero(EncodedAd(ad)), PadZero(m);
    FirstFromZeros(c, first);
    NoBlocks(c, c.enc(first));
    ChainAppend(c, Encrypt, c.enc(first), a, p);
    ChainAppend(c, Encrypt, z, first, a + p);
    LastOfChain(c, z, B);
  }

  lemma {:induction false} NoBlocks(c: BlockCipher, y: Block)
    ensures Whole([]) && NextIv(c, Encrypt, y, []) == y
  {
  }

  /** The tag of the specification is the one that is described above. */
  lemma {:induction false} TagIs(c: BlockCipher, nonce: seq<byte>, tagLen: nat, ad: seq<byte>, m: seq<byte>, n: nat)
    requires 7 <= |nonce| <= 13 && 4 <= tagLen <= 16 && tagLen % 2 == 0 && |ad| < 0xFF00
    requires !TooLong(|m|, 15 - |nonce|) && n <= tagLen
    ensures TaggedAs(c, nonce, tagLen, ad, m, Tag(c, nonce, tagLen, ad, m)[..n])
  {
    hide Formats, Formatted, MessageMac, Chain, Whole, TooLong;
    var B := Formatted(nonce, tagLen, ad, m);
    FormattedFormats(nonce, tagLen, ad, m);
    CodeIsChain(c, nonce, tagLen, ad, m);
    assert CounterBlock(nonce, 0) == [ByteOf(14 - |nonce|)] + nonce + Fill(0, 15 - |nonce|);
    assert IsTag(c, nonce, B, Tag(c, nonce, tagLen, ad, m)[..n]);
  }

  // ----- nothing else has the same string

  lemma {:induction false} SameZeroFilled(s: seq<byte>, t: seq<byte>, u: seq<byte>, v: seq<byte>)
    requires |s| == |t| && ZeroFilled(s) + u == ZeroFilled(t) + v
    ensures s == t && u == v
  {
    var a, b := ZeroFilled(s), ZeroFilled(t);
    assert (a + u)[..|s|] == s && (b + v)[..|s|] == t;
    assert (a + u)[|a|..] == u && (b + v)[|a|..] == v;
  }

  /** Different inputs are formatted differently. */
  lemma {:induction false} FormatsUnique(B: seq<byte>, nonce: seq<byte>, tagLen: nat, ad: seq<byte>, m: seq<byte>,
                                         nonce': seq<byte>, tagLen': nat, ad': seq<byte>, m': seq<byte>)
    requires Formats(B, nonce, tagLen, ad, m) && Formats(B, nonce', tagLen', ad', m')
    ensures nonce == nonce' && tagLen == tagLen' && ad == ad' && m == m'
  {
    hide Value, BigEndian, ZeroFilled;
    if ad == [] {
      assert ZeroFilled(m) + [] == ZeroFilled(m) && ZeroFilled(m') + [] == ZeroFilled(m');
      assert [] + ZeroFilled(m) == ZeroFilled(m) && [] + ZeroFilled(m') == ZeroFilled(m');
      SameZeroFilled(m, m', [], []);
    } else {
      var h := B[BLOCK..BLOCK + 2];
      SameZeroFilled(h + ad, h + ad', ZeroFilled(m), ZeroFilled(m'));
      assert (h + ad)[2..] == ad && (h + ad')[2..] == ad';
      assert ZeroFilled(m) + [] == ZeroFilled(m) && ZeroFilled(m') + [] == ZeroFilled(m');
      SameZeroFilled(m, m', [], []);
    }
  }

  lemma {:induction false} SameFlags(x: byte, y: byte)
    requires x & 0xc0 == y & 0xc0 && (x >> 3) & 7 == (y >> 3) & 7 && x & 7 == y & 7
    ensures x == y
  {
  }

  lemma {:induction false} FirstOnce(B: seq<byte>, B': seq<byte>, nonce: seq<byte>, tagLen: nat, ad: seq<byte>,
                                     m: seq<byte>)
    requires Formats(B, nonce, tagLen, ad, m) && Formats(B', nonce, tagLen, ad, m)
    ensures |B| >= BLOCK && |B'| >= BLOCK && B[0] == B'[0]
  {
    hide Value, BigEndian, ZeroFilled;
    OfValue((B[0] >> 3) & 7); OfValue((B'[0] >> 3) & 7);
    OfValue(B[0] & 7); OfValue(B'[0] & 7);
    SameFlags(B[0], B'[0]);
  }

  lemma {:induction false} RestOnce(B: seq<byte>, B': seq<byte>, nonce: seq<byte>, tagLen: nat, ad: seq<byte>,
                                    m: seq<byte>)
    requires Formats(B, nonce, tagLen, ad, m) && Formats(B', nonce, tagLen, ad, m)
    ensures 7 <= |nonce| <= 13 && |B| >= BLOCK && |B'| >= BLOCK && B[1..1 + |nonce|] == nonce == B'[1..1 + |nonce|]
    ensures B[1 + |nonce|..BLOCK] == B'[1 + |nonce|..BLOCK] && B[BLOCK..] == B'[BLOCK..]
  {
    hide Value, BigEndian, ZeroFilled;
    BigEndianSame(B[1 + |nonce|..BLOCK], B'[1 + |nonce|..BLOCK]);
    if ad != [] { BigEndianSame(B[BLOCK..BLOCK + 2], B'[BLOCK..BLOCK + 2]); }
  }

  lemma {:induction false} InParts(s: seq<byte>, k: nat)
    requires 1 + k <= BLOCK <= |s|
    ensures s == [s[0]] + s[1..1 + k] + s[1 + k..BLOCK] + s[BLOCK..]
  {
  }

  /** An input has one string only. */
  lemma {:induction false} FormatsOnce(B: seq<byte>, B': seq<byte>, nonce: seq<byte>, tagLen: nat, ad: seq<byte>,
                                       m: seq<byte>)
    requires Formats(B, nonce, tagLen, ad, m) && Formats(B', nonce, tagLen, ad, m)
    ensures B == B'
  {
    hide Formats;
    FirstOnce(B, B', nonce, tagLen, ad, m);
    RestOnce(B, B', nonce, tagLen, ad, m);
    InParts(B, |nonce|);
    InParts(B', |nonce|);
  }

  /** So a message has one tag of each length only. */
  lemma {:induction false} TaggedOnce(c: BlockCipher, nonce: seq<byte>, tagLen: nat, ad: seq<byte>, m: seq<byte>,
                                      tag: seq<byte>, tag': seq<byte>)
    requires TaggedAs(c, nonce, tagLen, ad, m, tag) && TaggedAs(c, nonce, tagLen, ad, m, tag') && |tag| == |tag'|
    ensures tag == tag'
  {
    hide Formats, Chain, Whole;
    var B: seq<byte> :| Formats(B, nonce, tagLen, ad, m) && IsTag(c, nonce, B, tag);
    var B': seq<byte> :| Formats(B', nonce, tagLen, ad, m) && IsTag(c, nonce, B', tag');
    FormatsOnce(B, B', nonce, tagLen, ad, m);
  }

  lemma {:induction false} NoTagBits(x: byte)
    requires x <= 7
    ensures (x >> 3) & 7 == 0
  {
  }

  /** The string never begins with a counter block, of whatever nonce and number. */
  lemma {:induction false} NeverCounter(B: seq<byte>, nonce: seq<byte>, tagLen: nat, ad: seq<byte>, m: seq<byte>,
                                        nonce': seq<byte>, k: nat)
    requires Formats(B, nonce, tagLen, ad, m) && tagLen >= 4 && 7 <= |nonce'| <= 13
    ensures B[..BLOCK] != CounterBlock(nonce', k)
  {
    hide BigEndian, ZeroFilled, Count;
    var x := CounterBlock(nonce', k)[0];
    SmallByte(14 - |nonce'|);
    NoTagBits(x);
    assert Value(0) == 0;
    assert B[..BLOCK][0] == B[0];
  }

  // ----- the key stream

  lemma {:induction false} BigEndianSame(s: seq<byte>, t: seq<byte>)
    requires |s| == |t| && BigEndian(s) == BigEndian(t)
    ensures s == t
  {
    if s != [] {
      var n := |s| - 1;
      OfValue(s[n]);
      OfValue(t[n]);
      BigEndianSame(s[..n], t[..n]);
      assert s == s[..n] + [s[n]] && t == t[..n] + [t[n]];
    }
  }

  /** There is one counter block for every number that fits, and no other. */
  lemma {:induction false} CounterIs(nonce: seq<byte>, k: nat, a: Block)
    requires 7 <= |nonce| <= 13 && k < Pow(256, 15 - |nonce|)
    ensures IsCounter(a, nonce, k) <==> a == CounterBlock(nonce, k)
  {
    hide BigEndian, Pow, Count, ByteOf, Value;
    var x, q := CounterBlock(nonce, k), 15 - |nonce|;
    CounterHead(nonce, k);
    CountValue(q, k);
    ValueOf(14 - |nonce|);
    OfValue(a[0]);
    if IsCounter(a, nonce, k) {
      BigEndianSame(a[1 + |nonce|..], Count(q, k));
      assert a == [a[0]] + a[1..1 + |nonce|] + a[1 + |nonce|..];
    }
  }

  lemma {:induction false} StreamIs(c: BlockCipher, nonce: seq<byte>, input: seq<byte>)
    requires 7 <= |nonce| <= 13
    ensures StreamedAs(c, nonce, input, Stream(c, nonce, 0, input))
  {
    hide CounterBlock, BigEndian, ByteOf, Count, Value, Offset, Pow, Fill;
    forall i: nat, a: Block | i < |input| && IsCounter(a, nonce, 1 + i / BLOCK)
      ensures Stream(c, nonce, 0, input)[i] == input[i] ^ c.enc(a)[i % BLOCK]
    {
      OffsetIs(i);
      BigEndianBound(a[1 + |nonce|..]);
      CounterIs(nonce, 1 + i / BLOCK, a);
    }
  }
}
