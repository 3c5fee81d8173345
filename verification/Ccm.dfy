/** The streaming CCM context (ccm.c). */
module Ccm {
  import opened Arith
  import opened Bytes
  import opened Cbc
  import opened CcmSpec
  import opened CcmFormat

  datatype CcmMode = CcmEncrypt | CcmDecrypt | CcmStarEncrypt | CcmStarDecrypt

  datatype CcmResult = Success | BadInput | AuthFailed

  /** Lengths of tags that are accepted; a tag of no bytes only without authentication. */
  predicate TagLength(n: nat) {
    n != 2 && n <= 16 && n % 2 == 0
  }

  class CcmContext {
    const cipher: BlockCipher
    const y: array<byte>
    const ctr: array<byte>
    // the bits of the state
    var started: bool
    var lengthsSet: bool
    var adStarted: bool
    var adFinished: bool
    var error: bool
    var mode: CcmMode
    var q: nat
    var plaintextLen: nat
    var addLen: nat
    var tagLen: nat
    var processed: nat
    ghost var nonce: seq<byte>
    ghost var y0: Block             // the value from which the code starts
    ghost var ad: seq<byte>         // associated data so far
    ghost var plain: seq<byte>      // plaintext so far

    ghost predicate Buffers() {
      y.Length == ctr.Length == BLOCK && y != ctr
    }

    ghost predicate Cleared()
      reads this, y, ctr
    {
      NoDataYet() && !started && !lengthsSet
    }

    ghost predicate NonceOk()
      reads this
    {
      7 <= |nonce| <= 13 && q == 15 - |nonce|
    }

    ghost predicate LengthsOk()
      reads this
    {
      addLen < 0xFF00 && TagLength(tagLen) && processed == 0
    }

    constructor (cipher: BlockCipher)
      ensures Cleared() && this.cipher == cipher && fresh(y) && fresh(ctr)
    {
      this.cipher := cipher;
      y := new byte[BLOCK](_ => 0);
      ctr := new byte[BLOCK](_ => 0);
      started, lengthsSet, adStarted, adFinished, error := false, false, false, false, false;
      mode, q, plaintextLen, addLen, tagLen, processed := CcmEncrypt, 0, 0, 0, 0, 0;
      nonce, y0, ad, plain := [], Fill(0, BLOCK), [], [];
    }

    // ----- set-up

    /** One byte of the length, at the end of those still to be written. */
    method PutByte(i: nat, x: byte, ghost keep: nat)
      requires Buffers() && keep + i < BLOCK
      modifies y
      ensures y[..keep] == old(y[..keep]) && y[15 - i..] == [x] + old(y[16 - i..])
    {
      ghost var tail := y[16 - i..];
      y[15 - i] := x;
      assert y[15 - i..] == [x] + tail;
    }

    /** i bytes of the length are written and lenLeft is what is left of it. */
    ghost predicate LengthWritten(i: nat, lenLeft: nat, s: seq<byte>)
      reads this
    {
      && i <= q <= BLOCK == |s|
      && LengthBytes(q, plaintextLen) == LengthBytes(q - i, lenLeft) + s[BLOCK - i..]
    }

    lemma {:induction false} NextByte(i: nat, lenLeft: nat, s: seq<byte>, t: seq<byte>)
      requires LengthWritten(i, lenLeft, s) && i < q && |t| == BLOCK
      requires t[15 - i..] == [ByteOf(lenLeft % 256)] + s[16 - i..]
      ensures LengthWritten(i + 1, lenLeft / 256, t)
    {
      var l := LengthBytes(q - i - 1, lenLeft / 256);
      assert l + [ByteOf(lenLeft % 256)] + s[16 - i..] == l + t[15 - i..];
    }

    /** Write the length into the last q bytes of the first block, big end first. */
    method PutLength() returns (lenLeft: nat)
      requires Buffers() && NonceOk()
      modifies y
      ensures y[..BLOCK - q] == old(y[..BLOCK - q]) && y[BLOCK - q..] == LengthBytes(q, plaintextLen)
      ensures lenLeft > 0 <==> TooLong(plaintextLen, q)
    {
      lenLeft := plaintextLen;
      var i := 0;
      assert y[BLOCK - 0..] == [];
      while i < q
        invariant 0 <= i <= q && LengthWritten(i, lenLeft, y[..])
        invariant TooLong(lenLeft, q - i) == TooLong(plaintextLen, q)
        invariant y[..BLOCK - q] == old(y[..BLOCK - q])
      {
        ghost var s := y[..];
        PutByte(i, ByteOf(lenLeft % 256), BLOCK - q);
        NextByte(i, lenLeft, s, y[..]);
        lenLeft := lenLeft / 256;
        i := i + 1;
      }
    }

    /** The flags of the first block go into its first byte. */
    method PutFlags()
      requires Buffers() && NonceOk() && LengthsOk() && tagLen != 0 && y[0] == 0
      modifies y
      ensures y[..] == old(y[..])[0 := FirstBlock(nonce, addLen, tagLen, plaintextLen)[0]]
    {
      y[0] := y[0] | (if addLen > 0 then 0x40 else 0);
      y[0] := y[0] | (ByteOf((tagLen - 2) / 2) << 3);
      y[0] := y[0] | ByteOf(q - 1);
      OrZero(if addLen > 0 then 0x40 else 0);
    }

    static lemma {:induction false} OrZero(x: byte)
      ensures 0 | x == x
    {
    }

    /** The first block, encrypted, is the value from which the code starts. */
    method StartCode() returns (ret: CcmResult)
      requires Buffers() && NonceOk() && LengthsOk() && tagLen != 0 && y[..] == [0] + nonce + Fill(0, q)
      modifies `error, `y0, y
      ensures ret == if !TooLong(plaintextLen, q) then Success else BadInput
      ensures ret == Success ==>
                error == old(error) && y[..] == y0 == cipher.enc(FirstBlock(nonce, addLen, tagLen, plaintextLen))
    {
      ghost var first := FirstBlock(nonce, addLen, tagLen, plaintextLen);
      PutFlags();
      assert y[..BLOCK - q] == [first[0]] + nonce;
      var lenLeft := PutLength();
      if lenLeft > 0 {
        error := true;
        return BadInput;
      }
      assert y[..] == y[..BLOCK - q] + y[BLOCK - q..] == first;
      Put(y, 0, cipher.enc(y[..]));
      y0 := y[..];
      return Success;
    }

    lemma {:induction false} BecomesReady()
      requires Buffers() && started && lengthsSet && !adStarted && !adFinished && !error && NonceOk() && LengthsOk()
      requires y[..] == y0 && ctr[..] == CounterBlock(nonce, 1) && ad == [] && plain == []
      requires tagLen != 0 ==> y0 == cipher.enc(FirstBlock(nonce, addLen, tagLen, plaintextLen))
      requires tagLen == 0 ==> plaintextLen == 0
      requires tagLen != 0 ==> !TooLong(plaintextLen, q)
      ensures Ready()
    {
      MessageStarts(cipher, y0, nonce, plaintextLen, ctr[..]);
    }

    /** All but the flags that say which calls have been made. */
    ghost predicate NoDataYet()
      reads this, y, ctr
    {
      && Buffers() && !adStarted && !adFinished && !error && ad == [] && plain == []
      && (lengthsSet ==> LengthsOk())
      && (if started then NonceOk() && y[..] == [0] + nonce + Fill(0, q) && ctr[..] == CounterBlock(nonce, 1)
          else y[..] == Fill(0, BLOCK))
    }

    /** May the code start with these lengths? */
    predicate Acceptable()
      reads this
    {
      if tagLen == 0 then mode == CcmStarEncrypt || mode == CcmStarDecrypt else !TooLong(plaintextLen, q)
    }

    /** Once nonce and lengths are there, the code can start. */
    method CalculateFirstBlockIfReady() returns (ret: CcmResult)
      requires NoDataYet()
      modifies `plaintextLen, `error, `y0, y
      ensures !(started && lengthsSet) ==> ret == Success && NoDataYet() && plaintextLen == old(plaintextLen)
      ensures started && lengthsSet ==> ret == if old(Acceptable()) then Success else BadInput
      ensures started && lengthsSet && ret == Success ==>
                Ready() && plaintextLen == if tagLen == 0 then 0 else old(plaintextLen)
    {
      if !started || !lengthsSet { return Success; }
      if tagLen == 0 {
        y0 := y[..];
        if mode == CcmStarEncrypt || mode == CcmStarDecrypt {
          plaintextLen := 0;
          BecomesReady();
          return Success;
        } else {
          return BadInput;
        }
      }
      ret := StartCode();
      if ret == Success { BecomesReady(); }
    }

    /** Nonce and counter of the first block of the message. */
    method LoadNonce(iv: seq<byte>)
      requires Buffers() && 7 <= |iv| <= 13 && y[..] == Fill(0, BLOCK)
      modifies `q, `nonce, y, ctr
      ensures NonceOk() && nonce == iv && y[..] == [0] + nonce + Fill(0, q) && ctr[..] == CounterBlock(nonce, 1)
    {
      q := 16 - 1 - |iv|;
      nonce := iv;
      Put(ctr, 0, [ByteOf(q - 1)] + iv + Fill(0, q));
      ctr[15] := 1;
      FirstCounter(q);
      assert ctr[..] == CounterBlock(nonce, 1);
      Put(y, 1, iv);
      assert y[..] == [0] + nonce + Fill(0, q);
    }

    /** Set the nonce, before or after the lengths. */
    method Starts(mode: CcmMode, iv: seq<byte>) returns (ret: CcmResult)
      requires NoDataYet() && !started
      modifies `mode, `q, `nonce, `started, `plaintextLen, `error, `y0, y, ctr
      ensures !(7 <= |iv| <= 13) ==> ret == BadInput && NoDataYet() && !started
      ensures 7 <= |iv| <= 13 ==> started && nonce == iv && this.mode == mode && NonceOk()
      ensures 7 <= |iv| <= 13 && !lengthsSet ==> ret == Success && NoDataYet()
      ensures 7 <= |iv| <= 13 && lengthsSet && ret == Success ==> Ready()
    {
      if |iv| < 7 || |iv| > 13 { return BadInput; }
      this.mode := mode;
      LoadNonce(iv);
      started := true;
      ret := CalculateFirstBlockIfReady();
    }

    static lemma {:induction false} FirstCounter(q: nat)
      requires q > 0
      ensures Count(q, 1) == Fill(0, q - 1) + [1]
    {
      assert Count(q, 0)[..q - 1] == Fill(0, q - 1);
    }

    /** Announce the lengths, before or after the nonce. */
    method SetLengths(totalAdLen: nat, plaintextLen: nat, tagLen: nat) returns (ret: CcmResult)
      requires NoDataYet() && !lengthsSet
      modifies `plaintextLen, `addLen, `tagLen, `processed, `lengthsSet, `error, `y0, y
      ensures !TagLength(tagLen) || totalAdLen >= 0xFF00 ==> ret == BadInput && NoDataYet() && !lengthsSet
      ensures TagLength(tagLen) && totalAdLen < 0xFF00 ==> lengthsSet && addLen == totalAdLen && this.tagLen == tagLen
      ensures TagLength(tagLen) && totalAdLen < 0xFF00 && !started ==>
                ret == Success && NoDataYet() && this.plaintextLen == plaintextLen
      ensures TagLength(tagLen) && totalAdLen < 0xFF00 && started ==>
        ret == if (if tagLen == 0 then mode == CcmStarEncrypt || mode == CcmStarDecrypt else !TooLong(plaintextLen, q))
               then Success else BadInput
      ensures TagLength(tagLen) && totalAdLen < 0xFF00 && started && ret == Success ==>
        Ready() && this.plaintextLen == if tagLen == 0 then 0 else plaintextLen
    {
      if tagLen == 2 || tagLen > 16 || tagLen % 2 != 0 { return BadInput; }
      if totalAdLen >= 0xFF00 { return BadInput; }
      this.plaintextLen := plaintextLen;
      addLen := totalAdLen;
      this.tagLen := tagLen;
      processed := 0;
      lengthsSet := true;
      ret := CalculateFirstBlockIfReady();
    }

    // ----- while data comes in

    /** Set up, with no data yet. */
    ghost predicate Ready()
      reads this, y, ctr
    {
      Valid() && !adStarted && ad == [] && plain == []
    }

    ghost function Header(): seq<byte>
      reads `addLen
    {
      LengthBytes(2, addLen)
    }

    /** The value from which the code over the message starts. */
    ghost function Base(): Block
      reads `adFinished, `y0, `addLen, `ad
    {
      if adFinished then Mac(cipher, y0, Header() + ad) else y0
    }

    ghost predicate MidAd()
      reads `adStarted, `adFinished
    {
      adStarted && !adFinished
    }

    /** Part of the associated data is in. */
    ghost predicate AdState()
      reads this, y, ctr
      requires Fixed()
    {
      0 < |ad| == processed < addLen && plain == [] && y[..] == MacState(cipher, y0, Header() + ad)
      && ctr[..] == CounterBlock(nonce, 1)
    }

    /** What does not change while data comes in, apart from the associated data itself. */
    ghost predicate Fixed()
      reads `started, `lengthsSet, `adStarted, `adFinished, `error
      reads `q, `plaintextLen, `addLen, `tagLen, `nonce, `y0, `ad
    {
      && Buffers() && started && lengthsSet && !error && 7 <= |nonce| <= 13 && q == 15 - |nonce| && addLen < 0xFF00
      && TagLength(tagLen)
      && (adFinished ==> adStarted && |ad| == addLen > 0) && (!adStarted ==> ad == [])
      && (tagLen != 0 ==> y0 == cipher.enc(FirstBlock(nonce, addLen, tagLen, plaintextLen)))
      && (tagLen == 0 ==> plaintextLen == 0) && (tagLen != 0 ==> !TooLong(plaintextLen, q))
    }

    /** Part of the message is in, or all of it. */
    ghost predicate MessageOk()
      reads this, y, ctr
      requires Fixed()
    {
      processed == |plain| && (tagLen != 0 ==> |plain| <= plaintextLen)
      && InMessage(cipher, Base(), nonce, plaintextLen, plain, y[..], ctr[..])
    }

    ghost predicate Valid()
      reads this, y, ctr
    {
      Fixed() && if MidAd() then AdState() else MessageOk()
    }

    // ----- the steps for a piece within one block

    /** Add a piece to the code; encrypt at the end of a block and at the end of the data. */
    method Mix(off: nat, u: seq<byte>, last: bool, ghost start: Block, ghost data: seq<byte>)
      requires Buffers() && u != [] && off + |u| <= BLOCK && off == Offset(|data|)
      requires y[..] == MacState(cipher, start, data)
      modifies y
      ensures y[..] == if last then Mac(cipher, start, data + u) else MacState(cipher, start, data + u)
    {
      MacMix(cipher, start, data, u, last);
      Put(y, off, Xor(y[off..off + |u|], u));
      if off + |u| == BLOCK || last {
        Put(y, 0, cipher.enc(y[..]));
      }
    }

    /** The next counter: its last q bytes count up. */
    method NextCounter(q: nat)
      requires Buffers() && 0 < q <= BLOCK
      modifies ctr
      ensures ctr[..] == old(ctr[..])[..BLOCK - q] + Inc(old(ctr[..])[BLOCK - q..])
    {
      hide Inc;
      ghost var s, head := ctr[..][BLOCK - q..], ctr[..][..BLOCK - q];
      assert s[..q] == s;
      var i := 0;
      while i < q
        invariant 0 <= i <= q && Carried(i, head, s, ctr[..])
      {
        ghost var k := ctr[..];
        CarryOn(i, head, s, k);
        ctr[15 - i] := ctr[15 - i] + 1;
        assert ctr[..] == k[15 - i := k[15 - i] + 1];
        if ctr[15 - i] != 0 { return; }
        i := i + 1;
      }
    }

    // ----- associated data

    /** A piece of the associated data within one block. */
    method AdPiece(off: nat, u: seq<byte>)
      requires Buffers() && u != [] && processed == |ad| && |ad| + |u| <= addLen
      requires off == Offset(processed + 2) && off + |u| <= BLOCK
      requires y[..] == MacState(cipher, y0, Header() + ad)
      modifies `processed, `ad, y
      ensures ad == old(ad) + u && processed == |ad|
      ensures y[..] == if |ad| == addLen then Mac(cipher, y0, Header() + ad) else MacState(cipher, y0, Header() + ad)
    {
      hide Mac, MacState, LengthBytes;
      processed := processed + |u|;
      Mix(off, u, processed == addLen, y0, Header() + ad);
      assert Header() + ad + u == Header() + (ad + u);
      ad := ad + u;
    }

    method AbsorbAd(add: seq<byte>)
      requires Buffers() && add != [] && processed == |ad| && |ad| + |add| <= addLen
      requires y[..] == MacState(cipher, y0, Header() + ad)
      modifies `processed, `ad, y
      ensures ad == old(ad) + add && processed == |ad|
      ensures y[..] == if |ad| == addLen then Mac(cipher, y0, Header() + ad) else MacState(cipher, y0, Header() + ad)
    {
      hide Mac, MacState, LengthBytes;
      var at := 0;
      assert ad + add[..0] == ad && add[0..] == add;
      while at < |add|
        invariant 0 <= at <= |add| && ad + add[at..] == old(ad) + add && processed == |ad|
        invariant y[..]
               == if at > 0 && |ad| == addLen then Mac(cipher, y0, Header() + ad)
                  else MacState(cipher, y0, Header() + ad)
      {
        at := TakeAd(add, at);
      }
      assert add[at..] == [] && ad + [] == ad;
    }

    /** The longest piece that stays within the current block. */
    method TakeAd(add: seq<byte>, at: nat) returns (at': nat)
      requires Buffers() && at < |add| && processed == |ad| && |ad| + |add| - at <= addLen
      requires y[..] == MacState(cipher, y0, Header() + ad)
      modifies `processed, `ad, y
      ensures at < at' <= |add| && ad + add[at'..] == old(ad) + add[at..] && processed == |ad|
      ensures y[..] == if |ad| == addLen then Mac(cipher, y0, Header() + ad) else MacState(cipher, y0, Header() + ad)
    {
      hide Mac, MacState, LengthBytes;
      var offset := (processed + 2) % BLOCK;
      OffsetIs(processed + 2);
      var useLen := BLOCK - offset;
      if useLen > |add| - at {
        useLen := |add| - at;
      }
      AdPiece(offset, add[at..at + useLen]);
      at' := at + useLen;
      assert add[at..] == add[at..at'] + add[at'..];
      assert old(ad) + add[at..at'] + add[at'..] == old(ad) + add[at..];
    }

    /** The length of the associated data enters the code in two bytes. */
    method StartAd(addLen: nat, ghost start: Block)
      requires Buffers() && y[..] == start
      modifies y
      ensures y[..] == MacState(cipher, start, LengthBytes(2, addLen))
    {
      var high, low := ByteOf(addLen / 256 % 256), ByteOf(addLen % 256);
      XorFirstTwo(high, low);
      TwoBytes(addLen);
      TwoAtStart(start, y[..], [high, low]);
      MacFirst(cipher, start, [high, low]);
    }

    method XorFirstTwo(high: byte, low: byte)
      requires Buffers()
      modifies y
      ensures y[0] == old(y[0]) ^ high && y[1] == old(y[1]) ^ low && y[..][2..] == old(y[..])[2..]
    {
      y[0] := y[0] ^ high;
      y[1] := y[1] ^ low;
    }

    static lemma {:induction false} TwoBytes(n: nat)
      ensures LengthBytes(2, n) == [ByteOf(n / 256 % 256), ByteOf(n % 256)]
    {
      assert LengthBytes(1, n / 256) == [ByteOf(n / 256 % 256)];
    }

    ghost predicate AdAllowed(add: seq<byte>)
      reads `adFinished, `ad, `addLen
    {
      add == [] || (!adFinished && |ad| + |add| <= addLen)
    }

    /** Feed associated data. */
    method UpdateAd(add: seq<byte>) returns (ret: CcmResult)
      requires Valid() && (MidAd() || plain == [])
      modifies `processed, `ad, `adStarted, `adFinished, y
      ensures Valid() && ret == if old(AdAllowed(add)) then Success else BadInput
      ensures ret == if |old(ad)| + |add| <= addLen then Success else BadInput
      ensures ad == if ret == Success then old(ad) + add else old(ad)
    {
      hide Mac, MacState, FirstBlock, CounterBlock, InMessage;
      if |add| > 0 {
        if adFinished { return BadInput; }
        if !adStarted {
          if |add| > addLen { return BadInput; }
          BeforeAd();
          StartAd(addLen, y0);
          adStarted := true;
        } else if processed + |add| > addLen { return BadInput; }
        assert Header() + [] == Header();
        TakeAllAd(add);
      } else {
        assert ad + add == ad;
      }
      return Success;
    }

    lemma {:induction false} BeforeAd()
      requires Valid() && !adStarted && plain == []
      ensures y[..] == y0 && ctr[..] == CounterBlock(nonce, 1) && processed == 0 && ad == []
    {
      MacStart(cipher, y0);
    }

    lemma {:induction false} AdUnderWay()
      requires Fixed() && plain == [] && MidAd() && AdState()
      ensures Valid()
    {
    }

    lemma {:induction false} AdComplete()
      requires Fixed() && plain == [] && adFinished && processed == 0
      requires y[..] == Mac(cipher, y0, Header() + ad) && ctr[..] == CounterBlock(nonce, 1)
      ensures Valid()
    {
      MessageStarts(cipher, Base(), nonce, plaintextLen, ctr[..]);
    }

    method TakeAllAd(add: seq<byte>)
      requires Fixed() && plain == [] && MidAd() && add != [] && processed == |ad| && |ad| + |add| <= addLen
      requires y[..] == MacState(cipher, y0, Header() + ad) && ctr[..] == CounterBlock(nonce, 1)
      modifies `processed, `ad, `adFinished, y
      ensures Valid() && ad == old(ad) + add
    {
      hide Mac, MacState, LengthBytes, CounterBlock, FirstBlock;
      AbsorbAd(add);
      if processed == addLen {
        adFinished := true;
        processed := 0;
        AdComplete();
      } else {
        AdUnderWay();
      }
    }

    // ----- the message

    predicate Encrypting()
      reads `mode
    {
      mode == CcmEncrypt || mode == CcmStarEncrypt
    }

    /** A piece of the message under the current counter. */
    method CryptPiece(off: nat, u: seq<byte>, ghost nonce: seq<byte>, ghost n: nat) returns (v: seq<byte>)
      requires Buffers() && 7 <= |nonce| <= 13 && off == Offset(n) && off + |u| <= BLOCK
      requires ctr[..] == CounterBlock(nonce, 1 + Blocks(n))
      ensures v == Stream(cipher, nonce, n, u)
    {
      var tmp := cipher.enc(ctr[..]);
      StreamPiece(cipher, nonce, n, u);
      v := Xor(u, tmp[off..off + |u|]);
    }

    /** The two halves of the work on a piece, in the order that the mode calls for. */
    method MixAndCrypt(enc: bool, off: nat, u: seq<byte>, last: bool, ghost base: Block, ghost nonce: seq<byte>,
                       ghost p: seq<byte>)
      returns (v: seq<byte>)
      requires Buffers() && 7 <= |nonce| <= 13 && u != [] && off == Offset(|p|) && off + |u| <= BLOCK
      requires ctr[..] == CounterBlock(nonce, 1 + Blocks(|p|)) && y[..] == MacState(cipher, base, p)
      modifies y
      ensures v == Stream(cipher, nonce, |p|, u)
      ensures var p' := p + if enc then u else v;
        y[..] == if last then Mac(cipher, base, p') else MacState(cipher, base, p')
    {
      hide Mac, MacState, CounterBlock, Stream;
      if enc {
        Mix(off, u, last, base, p);
        v := CryptPiece(off, u, nonce, |p|);
      } else {
        v := CryptPiece(off, u, nonce, |p|);
        Mix(off, v, last, base, p);
      }
    }

    /** The counter moves on at the end of a block and at the end of the message. */
    method CountOn(move: bool, q: nat, ghost nonce: seq<byte>, ghost k: nat)
      requires Buffers() && 7 <= |nonce| <= 13 && q == 15 - |nonce| && ctr[..] == CounterBlock(nonce, k)
      modifies ctr
      ensures ctr[..] == CounterBlock(nonce, if move then k + 1 else k)
    {
      if move {
        CounterSteps(nonce, k);
        NextCounter(q);
      }
    }

    /** A piece of the message within one block. */
    method Piece(enc: bool, q: nat, off: nat, u: seq<byte>, last: bool, ghost base: Block, ghost nonce: seq<byte>,
                 ghost total: nat, ghost p: seq<byte>)
      returns (v: seq<byte>)
      requires Buffers() && q == 15 - |nonce| && u != [] && off == Offset(|p|) && off + |u| <= BLOCK
      requires last == (|p| + |u| == total)
      requires InMessage(cipher, base, nonce, total, p, y[..], ctr[..]) && (p != [] ==> |p| != total)
      modifies y, ctr
      ensures v == Stream(cipher, nonce, |p|, u)
      ensures InMessage(cipher, base, nonce, total, p + (if enc then u else v), y[..], ctr[..])
    {
      hide Mac, MacState, CounterBlock, Stream;
      v := MixAndCrypt(enc, off, u, last, base, nonce, p);
      CountOn(off + |u| == BLOCK || last, q, nonce, 1 + Blocks(|p|));
      ghost var p' := p + if enc then u else v;
      StillInMessage(cipher, base, nonce, total, |p|, p', y[..], ctr[..]);
    }

    /** at bytes of the input are done: o is their output. */
    static ghost predicate Taken(c: BlockCipher, nonce: seq<byte>, enc: bool, p0: seq<byte>, input: seq<byte>, at: nat,
                                 p: seq<byte>, o: seq<byte>) {
      && 7 <= |nonce| <= 13 && at <= |input| && o == Stream(c, nonce, |p0|, input[..at])
      && p == p0 + if enc then input[..at] else o
    }

    static lemma {:induction false} TakeMore(c: BlockCipher, nonce: seq<byte>, enc: bool, p0: seq<byte>,
                                            input: seq<byte>, at: nat, at': nat,
        p: seq<byte>, o: seq<byte>, u: seq<byte>, v: seq<byte>)
      requires Taken(c, nonce, enc, p0, input, at, p, o) && at <= at' <= |input| && u == input[at..at']
      requires v == Stream(c, nonce, |p|, u)
      ensures Taken(c, nonce, enc, p0, input, at', p + (if enc then u else v), o + v)
    {
      assert input[..at] + u == input[..at'];
      StreamAppend(c, nonce, |p0|, input[..at], u);
      assert p0 + input[..at] + u == p0 + (input[..at] + u);
      assert p0 + o + v == p0 + (o + v);
    }

    /** The longest piece that stays within the current block. */
    method TakePiece(enc: bool, q: nat, total: nat, input: seq<byte>, at: nat, done: nat,
        ghost base: Block, ghost nonce: seq<byte>, ghost p: seq<byte>) returns (at': nat, v: seq<byte>)
      requires Buffers() && q == 15 - |nonce| && at < |input| && done == |p| && (p != [] ==> |p| != total)
      requires InMessage(cipher, base, nonce, total, p, y[..], ctr[..])
      modifies y, ctr
      ensures at < at' <= |input| && v == Stream(cipher, nonce, |p|, input[at..at'])
      ensures InMessage(cipher, base, nonce, total, p + (if enc then input[at..at'] else v), y[..], ctr[..])
    {
      var offset := done % BLOCK;
      OffsetIs(done);
      var useLen := BLOCK - offset;
      if useLen > |input| - at {
        useLen := |input| - at;
      }
      at' := at + useLen;
      v := Piece(enc, q, offset, input[at..at'], done + useLen == total, base, nonce, total, p);
    }

    /** All pieces of the input. */
    method TakeAll(enc: bool, q: nat, total: nat, input: seq<byte>, done: nat, output: array<byte>,
        ghost base: Block, ghost nonce: seq<byte>, ghost p0: seq<byte>) returns (ghost p: seq<byte>)
      requires Buffers() && output != y && output != ctr && |input| <= output.Length && q == 15 - |nonce|
      requires done == |p0|
      requires InMessage(cipher, base, nonce, total, p0, y[..], ctr[..])
      requires total == 0 || |p0| + |input| <= total
      modifies y, ctr, output
      ensures InMessage(cipher, base, nonce, total, p, y[..], ctr[..])
      ensures Taken(cipher, nonce, enc, p0, input, |input|, p, output[..|input|])
      ensures output[|input|..] == old(output[|input|..])
    {
      p := p0;
      var at := 0;
      assert p0 + [] == p0;
      while at < |input|
        invariant 0 <= at <= |input| && |p| == |p0| + at
        invariant InMessage(cipher, base, nonce, total, p, y[..], ctr[..])
        invariant Taken(cipher, nonce, enc, p0, input, at, p, output[..at])
        invariant output[|input|..] == old(output[|input|..])
        decreases |input| - at
      {
        var from := at;
        ghost var o := output[..from];
        var v;
        at, v := TakePiece(enc, q, total, input, at, done + at, base, nonce, p);
        assert output[..from] == o;
        PutNext(output, from, v, |input|);
        TakeMore(cipher, nonce, enc, p0, input, from, at, p, o, input[from..at], v);
        p := p + if enc then input[from..at] else v;
      }
    }

    predicate Fits(input: seq<byte>, size: nat)
      reads `tagLen, `processed, `plaintextLen
    {
      (tagLen == 0 || processed + |input| <= plaintextLen) && |input| <= size
    }

    /** Feed part of the message; the output is as long as the input. */
    method Update(input: seq<byte>, output: array<byte>) returns (ret: CcmResult)
      requires Valid() && !MidAd() && output != y && output != ctr
      modifies `processed, `plain, y, ctr, output
      ensures Valid() && ret == if old(Fits(input, output.Length)) then Success else BadInput
      ensures ret == Success <==>
              (tagLen != 0 ==> |old(plain)| + |input| <= plaintextLen) && |input| <= output.Length
      ensures ret == BadInput ==> plain == old(plain) && output[..] == old(output[..])
      ensures ret == Success ==>
                |input| <= output.Length && output[..|input|] == Stream(cipher, nonce, old(|plain|), input)
      ensures ret == Success ==> plain == old(plain) + (if Encrypting() then input else output[..|input|])
      ensures ret == Success ==> output[|input|..] == old(output[|input|..])
    {
      hide InMessage, Mac, MacState, FirstBlock, CounterBlock, TooLong;
      if tagLen != 0 && processed + |input| > plaintextLen { return BadInput; }
      if output.Length < |input| { return BadInput; }
      Feed(input, output);
      return Success;
    }

    method Feed(input: seq<byte>, output: array<byte>)
      requires Fixed() && MessageOk() && output != y && output != ctr && Fits(input, output.Length)
      modifies `processed, `plain, y, ctr, output
      ensures MessageOk() && output[..|input|] == Stream(cipher, nonce, old(|plain|), input)
      ensures plain == old(plain) + (if Encrypting() then input else output[..|input|])
      ensures output[|input|..] == old(output[|input|..])
    {
      hide InMessage;
      ghost var p := TakeAll(Encrypting(), q, plaintextLen, input, processed, output, Base(), nonce, plain);
      assert input[..|input|] == input;
      processed := processed + |input|;
      plain := p;
    }

    // ----- the end

    /** May the computation end here? */
    ghost predicate Complete()
      reads `addLen, `adFinished, `plaintextLen, `processed
    {
      (addLen > 0 ==> adFinished) && (plaintextLen > 0 ==> processed == plaintextLen)
    }

    /** Counter zero. */
    method ZeroCounter(q: nat, ghost nonce: seq<byte>)
      requires Buffers() && 7 <= |nonce| <= 13 && q == 15 - |nonce|
      requires ctr[..1 + |nonce|] == [ByteOf(14 - |nonce|)] + nonce
      modifies ctr
      ensures ctr[..] == CounterBlock(nonce, 0)
    {
      ghost var head := ctr[..1 + |nonce|];
      for i := 0 to q
        invariant ctr[..1 + |nonce|] == head && forall k :: BLOCK - i <= k < BLOCK ==> ctr[k] == 0
      {
        ctr[15 - i] := 0;
      }
      assert ctr[1 + |nonce|..] == Fill(0, q) == Count(q, 0);
      assert ctr[..] == ctr[..1 + |nonce|] + ctr[1 + |nonce|..];
    }

    method ClearState()
      requires Buffers()
      modifies `started, `lengthsSet, `adStarted, `adFinished, `error, `ad, `plain, y, ctr
      ensures Cleared()
    {
      started, lengthsSet, adStarted, adFinished, error := false, false, false, false, false;
      ad, plain := [], [];
      Put(y, 0, Fill(0, BLOCK));
      Put(ctr, 0, Fill(0, BLOCK));
      assert y[..] == Fill(0, BLOCK);
    }

    lemma {:induction false} CodeIsMac()
      requires Valid() && Complete() && tagLen != 0
      ensures 4 <= tagLen <= 16 && |plain| == plaintextLen && |ad| == addLen
      ensures y[..] == MessageMac(cipher, nonce, tagLen, ad, plain)
    {
      if plain == [] { MacStart(cipher, Base()); }
    }

    /** The tag, in as many bytes as the caller asks for; the context is cleared. */
    method Finish(tagBytes: nat) returns (ret: CcmResult, tag: seq<byte>)
      requires Valid() && tagBytes <= BLOCK
      modifies `started, `lengthsSet, `adStarted, `adFinished, `error, `ad, `plain, y, ctr
      ensures ret == if old(Complete()) then Success else BadInput
      ensures ret == Success <==>
              |old(ad)| == old(addLen) && (old(tagLen) != 0 ==> |old(plain)| == old(plaintextLen))
      ensures ret == BadInput ==> Valid() && plain == old(plain) && ad == old(ad)
      ensures ret == Success ==> Cleared() && |tag| == tagBytes
      ensures ret == Success && old(tagLen) != 0 && tagBytes <= old(tagLen) ==>
        tag == Tag(cipher, old(nonce), old(tagLen), old(ad), old(plain))[..tagBytes]
      ensures ret == Success && old(tagLen) != 0 && tagBytes <= old(tagLen) ==>
        TaggedAs(cipher, old(nonce), old(tagLen), old(ad), old(plain), tag)
    {
      tag := [];
      if addLen > 0 && !adFinished { return BadInput, tag; }
      if plaintextLen > 0 && processed != plaintextLen { return BadInput, tag; }
      if tagLen != 0 && tagBytes <= tagLen { TagDescribed(tagBytes); }
      tag := MakeTag(tagBytes);
      ClearState();
      return Success, tag;
    }

    lemma {:induction false} TagDescribed(n: nat)
      requires Valid() && Complete() && tagLen != 0 && n <= tagLen
      ensures TagLength(tagLen) && 4 <= tagLen <= 16 && 7 <= |nonce| <= 13 && |ad| < 0xFF00
      ensures TaggedAs(cipher, nonce, tagLen, ad, plain, Tag(cipher, nonce, tagLen, ad, plain)[..n])
    {
      hide TaggedAs, Tag, InMessage, MacState, Mac, FirstBlock;
      TagIs(cipher, nonce, tagLen, ad, plain, n);
    }

    method MakeTag(tagBytes: nat) returns (tag: seq<byte>)
      requires Valid() && Complete() && tagBytes <= BLOCK
      modifies y, ctr
      ensures |tag| == tagBytes
      ensures tagLen != 0 && tagBytes <= tagLen ==> tag == Tag(cipher, nonce, tagLen, ad, plain)[..tagBytes]
    {
      hide MessageMac, CounterBlock, Mac, MacState, FirstBlock, Xor;
      if tagLen != 0 { CodeIsMac(); }
      ghost var code := y[..];
      ZeroCounter(q, nonce);
      Put(y, 0, Xor(y[..], cipher.enc(ctr[..])));
      assert y[..] == Xor(code, cipher.enc(CounterBlock(nonce, 0)));
      tag := y[..tagBytes];
      if tagLen != 0 && tagBytes <= tagLen { assert tag == y[..][..tagLen][..tagBytes]; }
    }

    // ----- one-shot

    /** Nonce and lengths. */
    method Begin(mode: CcmMode, iv: seq<byte>, addLen: nat, length: nat, tagLen: nat) returns (ret: CcmResult)
      requires Cleared()
      modifies this, y, ctr
      ensures ret == if Parameters(mode, iv, addLen, length, tagLen) then Success else BadInput
      ensures ret == Success ==>
                Ready() && this.mode == mode && nonce == iv && this.addLen == addLen && this.tagLen == tagLen
      ensures ret == Success ==> plaintextLen == if tagLen == 0 then 0 else length
    {
      hide FirstBlock, CounterBlock, Mac, MacState, InMessage;
      ret := Starts(mode, iv);
      if ret == Success {
        ret := SetLengths(addLen, length, tagLen);
      }
    }

    /** Data and what has come out for it. */
    ghost predicate Crypted(input: seq<byte>, output: seq<byte>)
      reads `nonce
    {
      7 <= |nonce| <= 13 && output == Stream(cipher, nonce, 0, input)
    }

    /** Part of the associated data is in, or all of it, and nothing of the message. */
    ghost predicate AdSoFar(add: seq<byte>)
      reads this, y, ctr
    {
      Valid() && ad == add && plain == [] && |add| <= addLen
    }

    method NextAd(add: seq<byte>, ghost done: seq<byte>)
      requires AdSoFar(done) && |done| + |add| <= addLen
      modifies `processed, `ad, `adStarted, `adFinished, y
      ensures AdSoFar(done + add)
    {
      AdNotDone();
      var ret := UpdateAd(add);
    }

    lemma {:induction false} AdNotDone()
      requires Valid()
      ensures adFinished ==> |ad| == addLen
    {
    }

    lemma {:induction false} AdAllIn(add: seq<byte>)
      requires AdSoFar(add) && |add| == addLen
      ensures AdDone(add)
    {
    }

    /** All of the associated data is in and nothing of the message. */
    ghost predicate AdDone(add: seq<byte>)
      reads this, y, ctr
    {
      Valid() && !MidAd() && ad == add && plain == [] && (addLen > 0 ==> adFinished)
    }

    method UpdateWholeAd(add: seq<byte>)
      requires Ready() && addLen == |add|
      modifies `processed, `ad, `adStarted, `adFinished, y
      ensures AdDone(add)
    {
      var ret := UpdateAd(add);
      assert ad == add;
    }

    /** Everything is in. */
    ghost predicate AllDone(add: seq<byte>, m: seq<byte>)
      reads this, y, ctr
    {
      Valid() && Complete() && ad == add && plain == m
    }

    lemma {:induction false} NowDone(add: seq<byte>, m: seq<byte>)
      requires Valid() && !MidAd() && ad == add && plain == m && (addLen > 0 ==> adFinished)
      requires plaintextLen == if tagLen == 0 then 0 else |m|
      ensures AllDone(add, m)
    {
    }

    method UpdateWhole(input: seq<byte>, output: array<byte>, ghost add: seq<byte>)
      requires AdDone(add) && output != y && output != ctr && |input| <= output.Length
      requires plaintextLen == if tagLen == 0 then 0 else |input|
      modifies `processed, `plain, y, ctr, output
      ensures Crypted(input, output[..|input|]) && AllDone(add, PlainOf(mode, input, output[..|input|]))
    {
      MessageLength();
      var ret := Update(input, output);
      NowDone(add, PlainOf(mode, input, output[..|input|]));
    }

    lemma {:induction false} MessageLength()
      requires Valid() && !MidAd()
      ensures processed == |plain| && (tagLen != 0 ==> |plain| <= plaintextLen)
    {
    }

    /** A piece of the message with an output buffer of its own. */
    method UpdatePiece(input: seq<byte>) returns (out: seq<byte>)
      requires Valid() && !MidAd() && (tagLen != 0 ==> |plain| + |input| <= plaintextLen)
      modifies `processed, `plain, y, ctr
      ensures Valid() && out == Stream(cipher, nonce, old(|plain|), input)
      ensures plain == old(plain) + PlainOf(mode, input, out)
    {
      MessageLength();
      var buffer := new byte[|input|](_ => 0);
      var ret := Update(input, buffer);
      out := buffer[..|input|];
    }

    /** After the associated data, part of the message is in, and `output` has come out. */
    ghost predicate MessageSoFar(add: seq<byte>, done: seq<byte>, output: seq<byte>)
      reads this, y, ctr
    {
      Valid() && !MidAd() && ad == add && (addLen > 0 ==> adFinished) && SoFar(cipher, nonce, mode, done, output, plain)
    }

    lemma {:induction false} NothingYet(add: seq<byte>)
      requires AdDone(add)
      ensures MessageSoFar(add, [], [])
    {
    }

    method NextPiece(input: seq<byte>, ghost add: seq<byte>, ghost done: seq<byte>, ghost output: seq<byte>)
      returns (out: seq<byte>)
      requires MessageSoFar(add, done, output) && (tagLen != 0 ==> |done| + |input| <= plaintextLen)
      modifies `processed, `plain, y, ctr
      ensures MessageSoFar(add, done + input, output + out)
    {
      ghost var p := plain;
      out := UpdatePiece(input);
      Extended(cipher, nonce, mode, done, output, p, input, out, plain);
    }

    lemma {:induction false} MessageAllIn(add: seq<byte>, m: seq<byte>, output: seq<byte>)
      requires MessageSoFar(add, m, output) && plaintextLen == if tagLen == 0 then 0 else |m|
      ensures AllDone(add, PlainOf(mode, m, output)) && Crypted(m, output)
    {
      NowDone(add, PlainOf(mode, m, output));
    }

    method FinishAll(tagBytes: nat, ghost add: seq<byte>, ghost input: seq<byte>, ghost output: seq<byte>)
      returns (tag: seq<byte>)
      requires AllDone(add, PlainOf(mode, input, output)) && tagBytes <= BLOCK && tagBytes == tagLen
      requires Crypted(input, output)
      modifies `started, `lengthsSet, `adStarted, `adFinished, `error, `ad, `plain, y, ctr
      ensures Cleared() && SealedAs(cipher, nonce, mode, tagBytes, add, input, output, tag)
    {
      hide StreamedAs, TaggedAs, Tag, Stream;
      if tagLen != 0 { CodeIsMac(); }
      StreamIs(cipher, nonce, input);
      ghost var all := if tagLen != 0 then Tag(cipher, nonce, tagLen, ad, plain) else [];
      assert all[..|all|] == all;
      var ret;
      ret, tag := Finish(tagBytes);
    }

    method AdAndMessage(add: seq<byte>, input: seq<byte>, output: array<byte>)
      requires Ready() && output != y && output != ctr && |input| <= output.Length
      requires addLen == |add| && plaintextLen == if tagLen == 0 then 0 else |input|
      modifies `processed, `ad, `adStarted, `adFinished, `plain, y, ctr, output
      ensures Crypted(input, output[..|input|]) && AllDone(add, PlainOf(mode, input, output[..|input|]))
    {
      UpdateWholeAd(add);
      UpdateWhole(input, output, add);
    }

    /** With everything announced: associated data, message and tag. */
    method Run(add: seq<byte>, input: seq<byte>, output: array<byte>) returns (tag: seq<byte>)
      requires Ready() && output != y && output != ctr && |input| <= output.Length && tagLen <= BLOCK
      requires addLen == |add| && plaintextLen == if tagLen == 0 then 0 else |input|
      modifies this, y, ctr, output
      ensures Cleared() && SealedAs(cipher, old(nonce), old(mode), old(tagLen), add, input, output[..|input|], tag)
    {
      AdAndMessage(add, input, output);
      ghost var out := output[..|input|];
      tag := FinishAll(tagLen, add, input, out);
      assert output[..|input|] == out;
    }

    method AuthCrypt(mode: CcmMode, iv: seq<byte>, add: seq<byte>, input: seq<byte>, output: array<byte>, tagLen: nat)
      returns (ret: CcmResult, tag: seq<byte>)
      requires Cleared() && output != y && output != ctr && |input| <= output.Length && tagLen <= BLOCK
      modifies this, y, ctr, output
      ensures ret == if Parameters(mode, iv, |add|, |input|, tagLen) then Success else BadInput
      ensures ret == Success ==> Cleared() && SealedAs(cipher, iv, mode, tagLen, add, input, output[..|input|], tag)
      ensures ret == Success ==> StreamedAs(cipher, iv, input, output[..|input|])
      ensures ret == Success && tagLen != 0 ==>
                TaggedAs(cipher, iv, tagLen, add, PlainOf(mode, input, output[..|input|]), tag)
    {
      tag := [];
      ret := Begin(mode, iv, |add|, |input|, tagLen);
      if ret == Success {
        tag := Run(add, input, output);
      }
    }

    /** Decrypt and compare the tag; the output is wiped when it is wrong. */
    method AuthDecrypt(mode: CcmMode, iv: seq<byte>, add: seq<byte>, input: seq<byte>, output: array<byte>,
                       tag: seq<byte>)
      returns (ret: CcmResult)
      requires Cleared() && output != y && output != ctr && |input| <= output.Length && |tag| <= BLOCK
      requires mode == CcmDecrypt || mode == CcmStarDecrypt
      modifies this, y, ctr, output
      ensures ret == BadInput <==> !Parameters(mode, iv, |add|, |input|, |tag|)
      ensures ret != BadInput ==> (ret == Success <==> Opened(cipher, iv, add, input, tag).Some?)
      ensures ret == Success ==> Opened(cipher, iv, add, input, tag) == Some(output[..|input|])
      ensures ret == AuthFailed ==> output[..|input|] == Fill(0, |input|)
      ensures ret == Success ==> StreamedAs(cipher, iv, input, output[..|input|])
      ensures ret == Success && |tag| != 0 ==> TaggedAs(cipher, iv, |tag|, add, output[..|input|], tag)
      ensures ret == AuthFailed ==> !TaggedAs(cipher, iv, |tag|, add, Stream(cipher, iv, 0, input), tag)
    {
      hide TaggedAs, StreamedAs, Tag, Stream;
      var checkTag;
      ret, checkTag := AuthCrypt(mode, iv, add, input, output, |tag|);
      if ret != Success { return; }
      ghost var m := output[..|input|];
      if tag != checkTag {
        OneTag(cipher, iv, add, m, tag, checkTag);
        PutNext(output, 0, Fill(0, |input|), |input|);
        assert output[..0 + |input|] == output[..|input|];
        return AuthFailed;
      }
    }
  }

  lemma {:induction false} OneTag(c: BlockCipher, iv: seq<byte>, add: seq<byte>, m: seq<byte>, tag: seq<byte>,
                                  right: seq<byte>)
    requires |tag| == |right| && tag != right && TaggedAs(c, iv, |right|, add, m, right)
    ensures !TaggedAs(c, iv, |tag|, add, m, tag)
  {
    hide TaggedAs;
    if TaggedAs(c, iv, |tag|, add, m, tag) { TaggedOnce(c, iv, |tag|, add, m, tag, right); }
  }

  function PlainOf(mode: CcmMode, input: seq<byte>, output: seq<byte>): seq<byte> {
    if mode == CcmEncrypt || mode == CcmStarEncrypt then input else output
  }

  /** Output and tag are those of NIST SP 800-38C for the plaintext. */
  ghost predicate SealedAs(c: BlockCipher, nonce: seq<byte>, mode: CcmMode, tagLen: nat, add: seq<byte>,
                           input: seq<byte>,
      output: seq<byte>, tag: seq<byte>)
  {
    && 7 <= |nonce| <= 13 && |tag| == tagLen && output == Stream(c, nonce, 0, input)
    && StreamedAs(c, nonce, input, output)
    && (tagLen != 0 ==> TaggedAs(c, nonce, tagLen, add, PlainOf(mode, input, output), tag))
    && (tagLen != 0 ==> 4 <= tagLen <= 16 && |add| < 0xFF00)
    && (tagLen != 0 ==> tag == Tag(c, nonce, tagLen, add, PlainOf(mode, input, output)))
  }

  /** Are the parameters of a one-shot call acceptable? */
  ghost predicate Parameters(mode: CcmMode, iv: seq<byte>, addLen: nat, length: nat, tagLen: nat) {
    && 7 <= |iv| <= 13 && TagLength(tagLen) && addLen < 0xFF00
    && if tagLen == 0 then mode == CcmStarEncrypt || mode == CcmStarDecrypt else !TooLong(length, 15 - |iv|)
  }

  /** A one-shot call accepts nonces of 7 to 13 bytes, tags of 4, 6, ... 16 bytes with a message
      whose length fits into the bytes that the nonce leaves, and an empty tag in the star modes. */
  lemma {:induction false} ParametersAre(mode: CcmMode, iv: seq<byte>, addLen: nat, length: nat, tagLen: nat)
    ensures Parameters(mode, iv, addLen, length, tagLen) <==>
            && 7 <= |iv| <= 13 && addLen < 0xFF00
            && (|| (tagLen == 0 && (mode == CcmStarEncrypt || mode == CcmStarDecrypt))
                || (tagLen in [4, 6, 8, 10, 12, 14, 16] && length < Pow(256, 15 - |iv|)))
  {
    hide TagLength, TooLong, Pow;
    TagLengthsAre(tagLen);
    if 7 <= |iv| <= 13 { TooLongIs(length, 15 - |iv|); }
  }

  lemma {:induction false} TagLengthsAre(n: nat)
    ensures TagLength(n) <==> n in [0, 4, 6, 8, 10, 12, 14, 16]
  {
    if n <= 16 {
      assert n == 2 * (n / 2) + n % 2 && n / 2 <= 8;
    }
  }

  /** What a receiver gets out of ciphertext and tag: the message, if the tag is right. */
  ghost function Opened(c: BlockCipher, iv: seq<byte>, add: seq<byte>, input: seq<byte>,
                        tag: seq<byte>): Option<seq<byte>>
    requires 7 <= |iv| <= 13 && TagLength(|tag|) && |add| < 0xFF00
  {
    var m := Stream(c, iv, 0, input);
    if |tag| == 0 || tag == Tag(c, iv, |tag|, add, m) then Some(m) else None
  }

  /** Opening what was sealed gives the message back, with a tag or without one. */
  lemma {:induction false} OpenedSealed(c: BlockCipher, iv: seq<byte>, add: seq<byte>, m: seq<byte>, tagLen: nat)
    requires 7 <= |iv| <= 13 && TagLength(tagLen) && |add| < 0xFF00
    ensures Opened(c, iv, add, Stream(c, iv, 0, m), if tagLen == 0 then [] else Tag(c, iv, tagLen, add, m)) == Some(m)
  {
    StreamUndone(c, iv, 0, m);
  }

  // ----- a whole run in pieces

  /** However associated data and message are cut, ciphertext and tag are those of the one-shot
      call. */
  method CryptPieces(c: BlockCipher, mode: CcmMode, iv: seq<byte>, ads: seq<seq<byte>>, pieces: seq<seq<byte>>,
                     tagLen: nat)
    returns (ret: CcmResult, output: seq<byte>, tag: seq<byte>)
    requires tagLen <= BLOCK
    ensures ret == if Parameters(mode, iv, |Flatten(ads)|, |Flatten(pieces)|, tagLen) then Success else BadInput
    ensures ret == Success ==> SealedAs(c, iv, mode, tagLen, Flatten(ads), Flatten(pieces), output, tag)
  {
    var ctx := new CcmContext(c);
    output, tag := [], [];
    ret := ctx.Begin(mode, iv, |Flatten(ads)|, |Flatten(pieces)|, tagLen);
    if ret == Success {
      output, tag := FeedAll(ctx, ads, pieces, Flatten(ads), Flatten(pieces));
    }
  }

  method FeedAll(ctx: CcmContext, ads: seq<seq<byte>>, pieces: seq<seq<byte>>, ghost ad: seq<byte>, ghost m: seq<byte>)
    returns (output: seq<byte>, tag: seq<byte>)
    requires ctx.Ready() && ctx.addLen == |ad| && ctx.tagLen <= BLOCK
    requires ctx.plaintextLen == if ctx.tagLen == 0 then 0 else |m|
    requires ad == Flatten(ads) && m == Flatten(pieces)
    modifies ctx, ctx.y, ctx.ctr
    ensures SealedAs(ctx.cipher, old(ctx.nonce), old(ctx.mode), old(ctx.tagLen), ad, m, output, tag)
  {
    hide *;
    output := FeedBoth(ctx, ads, pieces, ad, m);
    tag := ctx.FinishAll(ctx.tagLen, ad, m, output);
  }

  method FeedBoth(ctx: CcmContext, ads: seq<seq<byte>>, pieces: seq<seq<byte>>, ghost ad: seq<byte>, ghost m: seq<byte>)
    returns (output: seq<byte>)
    requires ctx.Ready() && ctx.addLen == |ad| && ctx.plaintextLen == if ctx.tagLen == 0 then 0 else |m|
    requires ad == Flatten(ads) && m == Flatten(pieces)
    modifies ctx`processed, ctx`ad, ctx`adStarted, ctx`adFinished, ctx`plain, ctx.y, ctx.ctr
    ensures ctx.AllDone(ad, PlainOf(ctx.mode, m, output)) && ctx.Crypted(m, output)
  {
    hide Flatten, SoFar, CcmContext.Valid;
    FeedAd(ctx, ads, ad);
    output := FeedMessage(ctx, pieces, ad, m);
  }

  method FeedAd(ctx: CcmContext, ads: seq<seq<byte>>, ghost ad: seq<byte>)
    requires ctx.Ready() && ctx.addLen == |ad| && ad == Flatten(ads)
    modifies ctx`processed, ctx`ad, ctx`adStarted, ctx`adFinished, ctx.y
    ensures ctx.AdDone(ad)
  {
    hide CcmContext.Valid;
    var i := 0;
    ghost var done := [];
    while i < |ads|
      invariant 0 <= i <= |ads| && done == FirstChunks(ads, i)
      invariant ctx.AdSoFar(done)
    {
      ChunksGrow(ads, i + 1, |ads|);
      ctx.NextAd(ads[i], done);
      done := done + ads[i];
      i := i + 1;
    }
    ctx.AdAllIn(ad);
  }

  /** `done` is in, `output` has come out, and p is the plaintext of the two. */
  ghost predicate SoFar(c: BlockCipher, nonce: seq<byte>, mode: CcmMode, done: seq<byte>, output: seq<byte>,
                        p: seq<byte>) {
    7 <= |nonce| <= 13 && output == Stream(c, nonce, 0, done) && p == PlainOf(mode, done, output)
  }

  lemma {:induction false} Extended(c: BlockCipher, nonce: seq<byte>, mode: CcmMode, done: seq<byte>,
                                    output: seq<byte>, p: seq<byte>,
      input: seq<byte>, out: seq<byte>, p': seq<byte>)
    requires SoFar(c, nonce, mode, done, output, p) && out == Stream(c, nonce, |p|, input)
    requires p' == p + PlainOf(mode, input, out)
    ensures SoFar(c, nonce, mode, done + input, output + out, p')
  {
    StreamAppend(c, nonce, 0, done, input);
  }

  method FeedMessage(ctx: CcmContext, pieces: seq<seq<byte>>, ghost add: seq<byte>, ghost m: seq<byte>)
    returns (output: seq<byte>)
    requires ctx.AdDone(add) && m == Flatten(pieces) && ctx.plaintextLen == if ctx.tagLen == 0 then 0 else |m|
    modifies ctx`processed, ctx`plain, ctx.y, ctx.ctr
    ensures ctx.AllDone(add, PlainOf(ctx.mode, m, output)) && ctx.Crypted(m, output)
  {
    hide CcmContext.Valid, SoFar, Stream;
    output := [];
    ghost var done := [];
    var i := 0;
    ctx.NothingYet(add);
    while i < |pieces|
      invariant 0 <= i <= |pieces| && done == FirstChunks(pieces, i)
      invariant ctx.MessageSoFar(add, done, output)
    {
      var out := FeedPiece(ctx, pieces, i, add, m, done, output);
      output := output + out;
      done := done + pieces[i];
      i := i + 1;
    }
    ctx.MessageAllIn(add, m, output);
  }

  method FeedPiece(ctx: CcmContext, pieces: seq<seq<byte>>, i: nat, ghost add: seq<byte>, ghost m: seq<byte>,
                   ghost done: seq<byte>,
      ghost output: seq<byte>) returns (out: seq<byte>)
    requires i < |pieces| && m == Flatten(pieces) && done == FirstChunks(pieces, i)
    requires ctx.MessageSoFar(add, done, output) && (ctx.tagLen != 0 ==> ctx.plaintextLen == |m|)
    modifies ctx`processed, ctx`plain, ctx.y, ctx.ctr
    ensures ctx.MessageSoFar(add, done + pieces[i], output + out)
  {
    ChunksGrow(pieces, i + 1, |pieces|);
    out := ctx.NextPiece(pieces[i], add, done, output);
  }
}
