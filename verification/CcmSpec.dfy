/** Counter mode with CBC-MAC as NIST SP 800-38C (section 6) defines it, and how both halves
    work on data that comes in pieces. */
module CcmSpec {
  import opened Arith
  import opened Bytes
  import opened Cbc

  // ----- the message authentication code

  /** Padded with zeros to whole blocks. */
  function PadZero(s: seq<byte>): (r: seq<byte>)
    ensures Whole(r)
  {
    OffsetAdd(|s|, BLOCK - Offset(|s|));
    var r := if Offset(|s|) == 0 then s else s + Fill(0, BLOCK - Offset(|s|));
    WholeOffset(r);
    r
  }

  /** CBC-MAC from a starting value over data padded with zeros. */
  function Mac(c: BlockCipher, y0: Block, data: seq<byte>): Block {
    NextIv(c, Encrypt, y0, PadZero(data))
  }

  /** The block with a few bytes added at its start. */
  function XorPrefix(y: Block, s: seq<byte>): Block
    requires |s| <= BLOCK
  {
    Xor(s + Fill(0, BLOCK - |s|), y)
  }

  lemma {:induction false} XorNothing(y: Block)
    ensures XorPrefix(y, []) == y
  {
    assert [] + Fill(0, BLOCK) == Fill(0, BLOCK);
  }

  lemma {:induction false} XorPadded(y: Block, s: seq<byte>)
    requires |s| <= BLOCK
    ensures XorPrefix(y, s + Fill(0, BLOCK - |s|)) == XorPrefix(y, s)
  {
    var x := s + Fill(0, BLOCK - |s|);
    assert x + Fill(0, 0) == x;
  }

  /** The block with bytes added from an offset on. */
  function XorRange(y: Block, off: nat, u: seq<byte>): Block
    requires off + |u| <= BLOCK
  {
    y[..off] + Xor(y[off..off + |u|], u) + y[off + |u|..]
  }

  /** The value while data comes in: whole blocks are through the cipher, the rest is added. */
  function MacState(c: BlockCipher, y0: Block, data: seq<byte>): Block {
    var w := |data| - Offset(|data|);
    CutWhole(data);
    XorPrefix(NextIv(c, Encrypt, y0, data[..w]), data[w..])
  }

  lemma {:induction false} MacBlock(c: BlockCipher, y0: Block, data: seq<byte>, x: Block)
    requires Whole(data)
    ensures Whole(data + x) && NextIv(c, Encrypt, y0, data + x) == c.enc(XorPrefix(NextIv(c, Encrypt, y0, data), x))
  {
    assert x[..BLOCK] == x && x[BLOCK..] == [];
    ChainAppend(c, Encrypt, y0, data, x);
    assert x + Fill(0, 0) == x;
  }

  lemma {:induction false} MacStart(c: BlockCipher, y0: Block)
    ensures MacState(c, y0, []) == y0 && Mac(c, y0, []) == y0
  {
    XorNothing(y0);
  }

  /** Encrypting the value completes the code when the rest is not empty. */
  lemma {:induction false} MacDone(c: BlockCipher, y0: Block, data: seq<byte>)
    ensures Offset(|data|) != 0 ==> c.enc(MacState(c, y0, data)) == Mac(c, y0, data)
    ensures Offset(|data|) == 0 ==> MacState(c, y0, data) == Mac(c, y0, data)
  {
    hide XorPrefix;
    var w := |data| - Offset(|data|);
    CutWhole(data);
    var y := NextIv(c, Encrypt, y0, data[..w]);
    if w == |data| {
      assert data[..w] == data && data[w..] == [];
      XorNothing(y);
    } else {
      var x: Block := data[w..] + Fill(0, BLOCK - |data[w..]|);
      MacBlock(c, y0, data[..w], x);
      assert data[..w] + x == PadZero(data);
      XorPadded(y, data[w..]);
    }
  }

  lemma {:induction false} XorRangeAfterPrefix(y: Block, t: seq<byte>, u: seq<byte>)
    requires |t| + |u| <= BLOCK
    ensures XorRange(XorPrefix(y, t), |t|, u) == XorPrefix(y, t + u)
  {
    var a, b := XorRange(XorPrefix(y, t), |t|, u), XorPrefix(y, t + u);
    forall i | 0 <= i < BLOCK ensures a[i] == b[i] {
      if |t| <= i < |t| + |u| {
        ZeroXor(y[i], u[i - |t|]);
      }
    }
  }

  lemma {:induction false} ZeroXor(y: byte, u: byte)
    ensures (0 ^ y) ^ u == u ^ y
  {
  }

  lemma {:induction false} MacRest(c: BlockCipher, y0: Block, whole: seq<byte>, t: seq<byte>)
    requires Whole(whole) && |t| < BLOCK
    ensures MacState(c, y0, whole + t) == XorPrefix(NextIv(c, Encrypt, y0, whole), t)
  {
    OffsetAfter(whole, |t|);
    var s := whole + t;
    assert s[..|whole|] == whole && s[|whole|..] == t;
  }

  lemma {:induction false} MacFull(c: BlockCipher, y0: Block, whole: seq<byte>, x: Block)
    requires Whole(whole)
    ensures MacState(c, y0, whole + x) == c.enc(XorPrefix(NextIv(c, Encrypt, y0, whole), x))
  {
    MacBlock(c, y0, whole, x);
    MacRest(c, y0, whole + x, []);
    assert whole + x + [] == whole + x;
    XorNothing(NextIv(c, Encrypt, y0, whole + x));
  }

  lemma {:induction false} MacPieceAt(c: BlockCipher, y0: Block, whole: seq<byte>, t: seq<byte>, u: seq<byte>)
    requires Whole(whole) && |t| < BLOCK && |t| + |u| <= BLOCK
    ensures var y := XorRange(MacState(c, y0, whole + t), |t|, u);
      MacState(c, y0, whole + t + u) == if |t| + |u| == BLOCK then c.enc(y) else y
  {
    assert whole + t + u == whole + (t + u);
    MacRest(c, y0, whole, t);
    XorRangeAfterPrefix(NextIv(c, Encrypt, y0, whole), t, u);
    if |t| + |u| == BLOCK {
      MacFull(c, y0, whole, t + u);
    } else {
      MacRest(c, y0, whole, t + u);
    }
  }

  /** A piece that stays within the current block. */
  lemma {:induction false} MacPiece(c: BlockCipher, y0: Block, data: seq<byte>, u: seq<byte>)
    requires Offset(|data|) + |u| <= BLOCK
    ensures var y := XorRange(MacState(c, y0, data), Offset(|data|), u);
      MacState(c, y0, data + u) == if Offset(|data|) + |u| == BLOCK then c.enc(y) else y
  {
    var w := |data| - Offset(|data|);
    CutWhole(data);
    assert data == data[..w] + data[w..];
    MacPieceAt(c, y0, data[..w], data[w..], u);
  }

  lemma {:induction false} XorRangeAt(y: Block, off: nat, u: seq<byte>, i: nat)
    requires off + |u| <= BLOCK && i < BLOCK
    ensures XorRange(y, off, u)[i] == if off <= i < off + |u| then y[i] ^ u[i - off] else y[i]
  {
    var mid := Xor(y[off..off + |u|], u);
    if i < off {
      assert XorRange(y, off, u)[i] == y[..off][i];
    } else if i < off + |u| {
      assert XorRange(y, off, u)[i] == mid[i - off];
    } else {
      assert XorRange(y, off, u)[i] == y[off + |u|..][i - off - |u|];
    }
  }

  lemma {:induction false} TwoAtStart(y0: Block, y: seq<byte>, u: seq<byte>)
    requires |y| == BLOCK && |u| == 2 && y[0] == y0[0] ^ u[0] && y[1] == y0[1] ^ u[1] && y[2..] == y0[2..]
    ensures y == XorRange(y0, 0, u)
  {
    var r := XorRange(y0, 0, u);
    XorRangeAt(y0, 0, u, 0);
    XorRangeAt(y0, 0, u, 1);
    forall i | 2 <= i < BLOCK ensures y[i] == r[i] {
      XorRangeAt(y0, 0, u, i);
      assert y[i] == y[2..][i - 2] == y0[2..][i - 2];
    }
  }

  /** Less than a block from the start. */
  lemma {:induction false} MacFirst(c: BlockCipher, y0: Block, u: seq<byte>)
    requires |u| < BLOCK
    ensures MacState(c, y0, u) == XorRange(y0, 0, u)
  {
    MacRest(c, y0, [], u);
    assert [] + u == u;
    XorRangeAfterPrefix(y0, [], u);
    XorNothing(y0);
  }

  /** Adding a piece, and encrypting at the end of a block and at the end of the data. */
  lemma {:induction false} MacMix(c: BlockCipher, y0: Block, data: seq<byte>, u: seq<byte>, last: bool)
    requires u != [] && Offset(|data|) + |u| <= BLOCK
    ensures var y := XorRange(MacState(c, y0, data), Offset(|data|), u);
      (if Offset(|data|) + |u| == BLOCK || last then c.enc(y) else y)
        == if last then Mac(c, y0, data + u) else MacState(c, y0, data + u)
  {
    hide Mac, MacState, XorRange;
    MacPiece(c, y0, data, u);
    MacDone(c, y0, data + u);
    OffsetAdd(|data|, |u|);
  }

  // ----- the counter

  /** A big-endian number plus one, wrapping around. */
  function Inc(s: seq<byte>): (r: seq<byte>)
    ensures |r| == |s|
  {
    if s == [] then []
    else if s[|s| - 1] == 255 then Inc(s[..|s| - 1]) + [0]
    else s[..|s| - 1] + [s[|s| - 1] + 1]
  }

  /** The counter bytes after k steps from zero. */
  function Count(q: nat, k: nat): (r: seq<byte>)
    ensures |r| == q
  {
    if k == 0 then Fill(0, q) else Inc(Count(q, k - 1))
  }

  lemma {:induction false} IncCarries(s: seq<byte>, t: seq<byte>, z: seq<byte>)
    requires t != [] && Inc(s) == Inc(t) + z
    ensures var n := |t| - 1; Inc(s) == if t[n] + 1 == 0 then Inc(t[..n]) + ([0] + z) else t[..n] + ([t[n] + 1] + z)
  {
    var n := |t| - 1;
    assert t[n] + 1 == 0 <==> t[n] == 255;
    if t[n] == 255 {
      assert Inc(t[..n]) + [0] + z == Inc(t[..n]) + ([0] + z);
    } else {
      assert t[..n] + [t[n] + 1] + z == t[..n] + ([t[n] + 1] + z);
    }
  }

  /** The counter after i bytes have carried: those are zero and the others as before. */
  ghost predicate Carried(i: nat, head: seq<byte>, s: seq<byte>, k: seq<byte>) {
    i <= |s| && |head| + |s| == BLOCK && k == head + s[..|s| - i] + Fill(0, i)
    && Inc(s) == Inc(s[..|s| - i]) + Fill(0, i)
  }

  lemma {:induction false} CarryOn(i: nat, head: seq<byte>, s: seq<byte>, k: Block)
    requires Carried(i, head, s, k) && i < |s|
    ensures var x := k[15 - i] + 1; var k' := k[15 - i := x];
      if x == 0 then Carried(i + 1, head, s, k') else k' == head + Inc(s)
  {
    var t, z := s[..|s| - i], Fill(0, i);
    IncCarries(s, t, z);
    var x := k[15 - i] + 1;
    assert k[15 - i] == t[|t| - 1] && t[..|t| - 1] == s[..|s| - i - 1];
    assert k[15 - i := x] == head + s[..|s| - i - 1] + ([x] + z);
    assert [0] + z == Fill(0, i + 1);
    assert head + s[..|s| - i - 1] + ([x] + z) == head + (s[..|s| - i - 1] + ([x] + z));
  }

  function BigEndian(s: seq<byte>): nat {
    if s == [] then 0 else 256 * BigEndian(s[..|s| - 1]) + Value(s[|s| - 1])
  }

  lemma {:induction false} BigEndianBound(s: seq<byte>)
    ensures BigEndian(s) < Pow(256, |s|)
  {
    if s != [] {
      BigEndianBound(s[..|s| - 1]);
      OfValue(s[|s| - 1]);
      PowStep(256, |s| - 1);
    }
  }

  lemma {:induction false} IncValue(s: seq<byte>)
    ensures BigEndian(Inc(s)) == if BigEndian(s) + 1 == Pow(256, |s|) then 0 else BigEndian(s) + 1
  {
    if s != [] {
      var n := |s| - 1;
      var t, x := s[..n], s[n];
      IncValue(t);
      PowStep(256, n);
      BigEndianBound(t);
      ValueNext(x);
      OfValue(x);
      if x == 255 {
        assert Inc(s)[..n] == Inc(t);
      } else {
        assert Inc(s)[..n] == t;
        OfValue(x + 1);
      }
    }
  }

  lemma {:induction false} ZeroValue(q: nat)
    ensures BigEndian(Fill(0, q)) == 0
  {
    if q != 0 {
      ZeroValue(q - 1);
      assert Fill(0, q)[..q - 1] == Fill(0, q - 1);
    }
  }

  /** The counter counts, so counters below the wrap-around are all different. */
  lemma {:induction false} CountValue(q: nat, k: nat)
    requires k < Pow(256, q)
    ensures BigEndian(Count(q, k)) == k
  {
    if k == 0 {
      ZeroValue(q);
    } else {
      CountValue(q, k - 1);
      IncValue(Count(q, k - 1));
    }
  }

  /** Counter block k of a nonce. */
  function CounterBlock(nonce: seq<byte>, k: nat): Block
    requires 7 <= |nonce| <= 13
  {
    [ByteOf(14 - |nonce|)] + nonce + Count(15 - |nonce|, k)
  }

  lemma {:induction false} CounterHead(nonce: seq<byte>, k: nat)
    requires 7 <= |nonce| <= 13
    ensures CounterBlock(nonce, k)[..1 + |nonce|] == [ByteOf(14 - |nonce|)] + nonce
    ensures CounterBlock(nonce, k)[1 + |nonce|..] == Count(15 - |nonce|, k)
  {
  }

  lemma {:induction false} CounterSteps(nonce: seq<byte>, k: nat)
    requires 7 <= |nonce| <= 13
    ensures var x := CounterBlock(nonce, k); x[..1 + |nonce|] + Inc(x[1 + |nonce|..]) == CounterBlock(nonce, k + 1)
  {
    CounterHead(nonce, k);
  }

  /** Byte i of the key stream. */
  function KeyByte(c: BlockCipher, nonce: seq<byte>, i: nat): byte
    requires 7 <= |nonce| <= 13
  {
    c.enc(CounterBlock(nonce, 1 + Blocks(i)))[Offset(i)]
  }

  /** Data at position n of the message, combined with the key stream. */
  function Stream(c: BlockCipher, nonce: seq<byte>, n: nat, data: seq<byte>): (r: seq<byte>)
    requires 7 <= |nonce| <= 13
    ensures |r| == |data|
  {
    seq(|data|, i requires 0 <= i < |data| => data[i] ^ KeyByte(c, nonce, n + i))
  }

  lemma {:induction false} StreamAppend(c: BlockCipher, nonce: seq<byte>, n: nat, a: seq<byte>, b: seq<byte>)
    requires 7 <= |nonce| <= 13
    ensures Stream(c, nonce, n, a + b) == Stream(c, nonce, n, a) + Stream(c, nonce, n + |a|, b)
  {
    var l, r := Stream(c, nonce, n, a + b), Stream(c, nonce, n, a) + Stream(c, nonce, n + |a|, b);
    forall i | 0 <= i < |l| ensures l[i] == r[i] {
      if i >= |a| { assert n + |a| + (i - |a|) == n + i; }
    }
  }

  lemma {:induction false} StreamUndone(c: BlockCipher, nonce: seq<byte>, n: nat, data: seq<byte>)
    requires 7 <= |nonce| <= 13
    ensures Stream(c, nonce, n, Stream(c, nonce, n, data)) == data
  {
    var r := Stream(c, nonce, n, Stream(c, nonce, n, data));
    forall i | 0 <= i < |data| ensures r[i] == data[i] {
      assert (data[i] ^ KeyByte(c, nonce, n + i)) ^ KeyByte(c, nonce, n + i) == data[i];
    }
  }

  /** A piece within one block takes the bytes of one encrypted counter. */
  lemma {:induction false} StreamPiece(c: BlockCipher, nonce: seq<byte>, n: nat, u: seq<byte>)
    requires 7 <= |nonce| <= 13 && Offset(n) + |u| <= BLOCK
    ensures var s := c.enc(CounterBlock(nonce, 1 + Blocks(n)));
      Stream(c, nonce, n, u) == Xor(u, s[Offset(n)..Offset(n) + |u|])
  {
    var s := c.enc(CounterBlock(nonce, 1 + Blocks(n)));
    var a, b := Stream(c, nonce, n, u), Xor(u, s[Offset(n)..Offset(n) + |u|]);
    forall i | 0 <= i < |u| ensures a[i] == b[i] {
      OffsetAdd(n, i);
      assert KeyByte(c, nonce, n + i) == s[Offset(n) + i] == s[Offset(n)..Offset(n) + |u|][i];
    }
  }

  // ----- a whole message

  /** The first block: flags, nonce and the message length in q bytes. */
  function FirstBlock(nonce: seq<byte>, addLen: nat, tagLen: nat, length: nat): Block
    requires 7 <= |nonce| <= 13 && 4 <= tagLen <= 16
  {
    [(if addLen > 0 then 0x40 else 0) | (ByteOf((tagLen - 2) / 2) << 3) | ByteOf(14 - |nonce|)]
    + nonce + LengthBytes(15 - |nonce|, length)
  }

  /** A number in q bytes, big end first. */
  function LengthBytes(q: nat, n: nat): (r: seq<byte>)
    ensures |r| == q
  {
    if q == 0 then [] else LengthBytes(q - 1, n / 256) + [ByteOf(n % 256)]
  }

  /** Does n not fit in q bytes? */
  predicate TooLong(n: nat, q: nat) {
    if q == 0 then n > 0 else TooLong(n / 256, q - 1)
  }

  lemma {:induction false} TooLongIs(n: nat, q: nat)
    ensures TooLong(n, q) <==> n >= Pow(256, q)
  {
    if q != 0 {
      TooLongIs(n / 256, q - 1);
      PowStep(256, q - 1);
    }
  }

  lemma {:induction false} LengthBytesValue(q: nat, n: nat)
    requires n < Pow(256, q)
    ensures BigEndian(LengthBytes(q, n)) == n
  {
    if q != 0 {
      PowStep(256, q - 1);
      LengthBytesValue(q - 1, n / 256);
      ValueOf(n % 256);
      assert LengthBytes(q, n)[..q - 1] == LengthBytes(q - 1, n / 256);
    }
  }

  /** The associated data as it enters the code: its length in two bytes first. */
  function EncodedAd(ad: seq<byte>): seq<byte>
    requires |ad| < 0xFF00
  {
    LengthBytes(2, |ad|) + ad
  }

  /** The code over first block, associated data and message. */
  function MessageMac(c: BlockCipher, nonce: seq<byte>, tagLen: nat, ad: seq<byte>, m: seq<byte>): Block
    requires 7 <= |nonce| <= 13 && 4 <= tagLen <= 16 && |ad| < 0xFF00
  {
    var y0 := c.enc(FirstBlock(nonce, |ad|, tagLen, |m|));
    var y1 := if |ad| == 0 then y0 else Mac(c, y0, EncodedAd(ad));
    Mac(c, y1, m)
  }

  /** The tag: the code under the counter block of number zero, shortened. */
  function Tag(c: BlockCipher, nonce: seq<byte>, tagLen: nat, ad: seq<byte>, m: seq<byte>): (r: seq<byte>)
    requires 7 <= |nonce| <= 13 && 4 <= tagLen <= 16 && |ad| < 0xFF00
    ensures |r| == tagLen
  {
    Xor(MessageMac(c, nonce, tagLen, ad, m), c.enc(CounterBlock(nonce, 0)))[..tagLen]
  }

  // ----- the state within a message of `total` bytes

  /** p is in: the code and the counter are where they should be. */
  ghost predicate InMessage(c: BlockCipher, base: Block, nonce: seq<byte>, total: nat, p: seq<byte>, y: seq<byte>,
                            k: seq<byte>) {
    && 7 <= |nonce| <= 13 && |k| == BLOCK && k[..1 + |nonce|] == [ByteOf(14 - |nonce|)] + nonce
    && (if p != [] && |p| == total then y == Mac(c, base, p)
        else y == MacState(c, base, p) && k == CounterBlock(nonce, 1 + Blocks(|p|)))
  }

  lemma {:induction false} StillInMessage(c: BlockCipher, base: Block, nonce: seq<byte>, total: nat, n: nat,
                                          p: seq<byte>, y: seq<byte>, k: seq<byte>)
    requires 7 <= |nonce| <= 13 && n < |p| <= n + BLOCK - Offset(n)
    requires y == if |p| == total then Mac(c, base, p) else MacState(c, base, p)
    requires k == CounterBlock(nonce, 1 + Blocks(n) + (if |p| == n + BLOCK - Offset(n) || |p| == total then 1 else 0))
    ensures InMessage(c, base, nonce, total, p, y, k)
  {
    OffsetAdd(n, |p| - n);
    CounterHead(nonce, 1 + Blocks(n) + (if |p| == n + BLOCK - Offset(n) || |p| == total then 1 else 0));
  }

  lemma {:induction false} MessageStarts(c: BlockCipher, base: Block, nonce: seq<byte>, total: nat, k: seq<byte>)
    requires 7 <= |nonce| <= 13 && k == CounterBlock(nonce, 1)
    ensures InMessage(c, base, nonce, total, [], base, k)
  {
    MacStart(c, base);
    CounterHead(nonce, 1);
  }
}
