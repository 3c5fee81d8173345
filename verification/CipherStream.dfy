/** Streaming encryption and decryption in CBC mode (cipher.c): a buffer for the bytes that do
    not fill a block, the last block of a decryption held back for its padding. */
module CipherStream {
  import opened Bytes
  import opened Cbc
  import opened Padding

  // ----- what the whole of a message becomes

  function Fill16(n: nat): (k: nat)
    ensures 0 < k <= BLOCK && (n + k) % BLOCK == 0
  {
    BLOCK - n % BLOCK
  }

  /** The message with its padding; without a padding mode it must consist of whole blocks. */
  function Prepared(mode: PaddingMode, m: seq<byte>): Option<seq<byte>> {
    if mode != NoPadding then Some(m + Tail(mode, Fill16(|m|)))
    else if |m| % BLOCK == 0 then Some(m) else None
  }

  /** Decrypted whole blocks without their padding. */
  ghost function Unprepared(mode: PaddingMode, p: seq<byte>): Option<seq<byte>> {
    if mode == NoPadding then Some(p)
    else if |p| < BLOCK then None
    else
      var n := DataLen(mode, p[|p| - BLOCK..]);
      if n == None then None else Some(p[..|p| - BLOCK + n.value])
  }

  /** One-shot encryption or decryption of a message. */
  ghost function OneShot(c: BlockCipher, op: Operation, mode: PaddingMode, iv: Block, m: seq<byte>): Option<seq<byte>> {
    match op
    case Encrypt =>
      var p := Prepared(mode, m);
      if p == None then None else
      PreparedWhole(mode, m);
      Some(Chain(c, Encrypt, iv, p.value))
    case Decrypt =>
      if |m| % BLOCK != 0 then None else
      WholeIs(m);
      Unprepared(mode, Chain(c, Decrypt, iv, m))
  }

  lemma {:induction false} PreparedWhole(mode: PaddingMode, m: seq<byte>)
    requires Prepared(mode, m).Some?
    ensures Whole(Prepared(mode, m).value)
  {
    WholeIs(Prepared(mode, m).value);
  }

  /** The message with its padding, as its whole blocks, a rest that shares the last block with
      the padding, and the padding. */
  lemma {:induction false} LastBlock(mode: PaddingMode, m: seq<byte>) returns (cut: nat, k: nat)
    requires mode != NoPadding
    ensures cut <= |m| && 0 < k && |m| - cut + k == BLOCK && (|m| == cut <==> |m| % BLOCK == 0)
    ensures var p := Prepared(mode, m).value;
      |p| == cut + BLOCK && p[..cut] == m[..cut] && p[cut..] == m[cut..] + Tail(mode, k)
  {
    k := Fill16(|m|);
    cut := |m| + k - BLOCK;
  }

  /** Taking the padding off what was padded. */
  lemma {:induction false} UnpreparedPrepared(mode: PaddingMode, m: seq<byte>)
    requires Prepared(mode, m).Some?
    ensures Unprepared(mode, Prepared(mode, m).value) == Some(m)
         <==> (mode == Zeros ==> |m| % BLOCK == 0 || m[|m| - 1] != 0)
  {
    hide Tail;
    if mode != NoPadding {
      var p := Prepared(mode, m).value;
      var cut, k := LastBlock(mode, m);
      var data := m[cut..];
      WrittenIsRead(mode, data, k);
      assert p[|p| - BLOCK..] == data + Tail(mode, k);
      assert p[..cut + |data|] == m;
      assert data != [] ==> data[|data| - 1] == m[|m| - 1];
      var n := DataLen(mode, data + Tail(mode, k));
      if n != Some(|data|) && n.Some? {
        assert |p[..cut + n.value]| != |m|;
      }
    }
  }

  /** Decryption gives a message back for the three paddings that mark their length, for whole
      blocks without padding, and with zero padding exactly for messages whose last incomplete
      block does not end in a zero byte. */
  lemma {:induction false} OneShotUndone(c: BlockCipher, mode: PaddingMode, iv: Block, m: seq<byte>)
    requires Permutation(c) && Prepared(mode, m).Some?
    ensures OneShot(c, Decrypt, mode, iv, OneShot(c, Encrypt, mode, iv, m).value) == Some(m)
            <==> (mode == Zeros ==> |m| % BLOCK == 0 || m[|m| - 1] != 0)
  {
    var p := Prepared(mode, m).value;
    PreparedWhole(mode, m);
    DecryptUndoes(c, iv, p);
    WholeIs(Chain(c, Encrypt, iv, p));
    UnpreparedPrepared(mode, m);
  }

  /** Encryption is the chaining of the message, without a padding mode, or of the message with
      a padding that fills up its last block; without one it must consist of whole blocks. */
  lemma {:induction false} Encrypts(c: BlockCipher, mode: PaddingMode, iv: Block, m: seq<byte>) returns (p: seq<byte>)
    ensures OneShot(c, Encrypt, mode, iv, m) == None <==> mode == NoPadding && |m| % BLOCK != 0
    ensures OneShot(c, Encrypt, mode, iv, m).Some? ==>
              InBlocks(c, Encrypt, iv, p, OneShot(c, Encrypt, mode, iv, m).value)
    ensures mode == NoPadding ==> p == m
    ensures mode != NoPadding ==> |p| % BLOCK == 0 && |m| < |p| <= |m| + BLOCK && p[..|m|] == m
    ensures mode != NoPadding ==> Padded(mode, p[|p| - BLOCK..], BLOCK - (|p| - |m|))
  {
    hide Padded, InBlocks, Tail;
    p := m;
    if mode != NoPadding {
      p := Prepared(mode, m).value;
      PaddedLast(mode, m);
    }
    if Prepared(mode, m).Some? {
      PreparedWhole(mode, m);
      ChainInBlocks(c, Encrypt, iv, p);
    }
  }

  lemma {:induction false} PaddedLast(mode: PaddingMode, m: seq<byte>)
    requires mode != NoPadding
    ensures var p := Prepared(mode, m).value;
      Padded(mode, p[|p| - BLOCK..], BLOCK - (|p| - |m|))
  {
    hide Tail;
    var cut, k := LastBlock(mode, m);
    var p := Prepared(mode, m).value;
    assert p[|p| - BLOCK..][BLOCK - (|p| - |m|)..] == Tail(mode, k);
  }

  /** The last block of a decryption. */
  function LastPlain(c: BlockCipher, iv: Block, m: seq<byte>): Block
    requires |m| >= BLOCK
  {
    Xor(c.dec(m[|m| - BLOCK..]), if |m| < 2 * BLOCK then iv else m[|m| - 2 * BLOCK..|m| - BLOCK])
  }

  lemma {:induction false} LastPlainIs(c: BlockCipher, iv: Block, m: seq<byte>)
    requires Whole(m) && m != []
    ensures |m| >= BLOCK && Chain(c, Decrypt, iv, m)[|m| - BLOCK..] == LastPlain(c, iv, m)
  {
    hide Chain;
    WholeIs(m);
    var j := |m| / BLOCK - 1;
    ChainBlock(c, Decrypt, iv, m, j);
    var p := Chain(c, Decrypt, iv, m);
    assert BlockAt(p, j) == p[|m| - BLOCK..] && BlockAt(m, j) == m[|m| - BLOCK..];
  }

  /** Decryption fails exactly for input that is not whole blocks, and in a padding mode for
      empty input and, where the padding marks its length, for a last block without a padding. */
  lemma {:induction false} DecryptFails(c: BlockCipher, mode: PaddingMode, iv: Block, m: seq<byte>)
    ensures OneShot(c, Decrypt, mode, iv, m) == None <==>
            || |m| % BLOCK != 0 || (mode != NoPadding && m == [])
            || (mode in {Pkcs7, OneAndZeros, ZerosAndLen} && forall n: nat :: !Padded(mode, LastPlain(c, iv, m), n))
  {
    hide Padded, Chain, LastPlain;
    if |m| % BLOCK == 0 {
      WholeIs(m);
      if m != [] { LastPlainIs(c, iv, m); }
    }
  }

  /** What decrypts is the decryption of the blocks without the padding of the last one. */
  lemma {:induction false} Decrypts(c: BlockCipher, mode: PaddingMode, iv: Block, m: seq<byte>) returns (p: seq<byte>)
    requires OneShot(c, Decrypt, mode, iv, m).Some?
    ensures var r := OneShot(c, Decrypt, mode, iv, m).value;
      && InBlocks(c, Decrypt, iv, m, p) && r <= p && (mode == NoPadding ==> r == p)
      && (mode != NoPadding ==> BLOCK <= |p| <= |r| + BLOCK)
      && (mode in {Pkcs7, OneAndZeros, ZerosAndLen} ==> Padded(mode, p[|p| - BLOCK..], |r| - (|p| - BLOCK)))
      && (mode == Zeros ==> (forall k :: |r| <= k < |p| ==> p[k] == 0)
                            && (|r| > |p| - BLOCK ==> r[|r| - 1] != 0))
  {
    hide Chain, InBlocks;
    WholeIs(m);
    p := Chain(c, Decrypt, iv, m);
    ChainInBlocks(c, Decrypt, iv, m);
    if mode != NoPadding {
      var last := p[|p| - BLOCK..];
      var n := DataLen(mode, last).value;
      assert forall k :: |p| - BLOCK + n <= k < |p| ==> p[k] == last[k - (|p| - BLOCK)];
    }
  }

  // ----- the context

  /** How many of n bytes are still in the buffer. */
  function Kept(op: Operation, mode: PaddingMode, n: nat): (k: nat)
    ensures k <= n && k <= BLOCK && (n - k) % BLOCK == 0
  {
    if op == Decrypt && mode != NoPadding then (if n == 0 then 0 else (n - 1) % BLOCK + 1)
    else n % BLOCK
  }

  /** After whole blocks, a rest that may wait is what is kept. */
  lemma {:induction false} KeptRest(op: Operation, mode: PaddingMode, whole: seq<byte>, k: nat)
    requires Whole(whole)
    requires if op == Decrypt && mode != NoPadding then k <= BLOCK && (k == 0 ==> whole == []) else k < BLOCK
    ensures Kept(op, mode, |whole| + k) == k
  {
    WholeIs(whole);
  }

  datatype FinishResult = Finished(olen: int, invalidPadding: bool) | FullBlockExpected

  class CipherContext {
    const cipher: BlockCipher
    const operation: Operation
    const padding: PaddingMode
    const iv: array<byte>
    const unprocessedData: array<byte>
    var unprocessedLen: nat
    ghost const iv0: Block
    ghost var processed: seq<byte>   // input that has gone through the cipher
    ghost var out: seq<byte>         // output so far

    ghost predicate Valid()
      reads this, iv, unprocessedData
    {
      && iv.Length == unprocessedData.Length == BLOCK && iv != unprocessedData && unprocessedLen <= BLOCK
      && Whole(processed) && out == Chain(cipher, operation, iv0, processed)
      && iv[..] == NextIv(cipher, operation, iv0, processed)
    }

    ghost function Fed(): seq<byte>
      reads this, unprocessedData
      requires unprocessedLen <= unprocessedData.Length
    {
      processed + unprocessedData[..unprocessedLen]
    }

    /** Exactly the bytes that must wait are in the buffer. */
    ghost predicate Steady()
      reads this, iv, unprocessedData
    {
      Valid() && unprocessedLen == Kept(operation, padding, |Fed()|)
    }

    constructor (cipher: BlockCipher, operation: Operation, padding: PaddingMode, iv: Block)
      ensures Steady() && fresh(this.iv) && fresh(unprocessedData) && Fed() == [] && out == []
      ensures this.cipher == cipher && this.operation == operation && this.padding == padding && iv0 == iv
    {
      this.cipher, this.operation, this.padding := cipher, operation, padding;
      this.iv := new byte[BLOCK](i requires 0 <= i < BLOCK => iv[i]);
      unprocessedData := new byte[BLOCK](_ => 0);
      unprocessedLen := 0;
      iv0, processed, out := iv, [], [];
      new;
      assert this.iv[..] == iv;
    }

    /** Run whole blocks through the cipher. */
    method Process(data: seq<byte>, output: array<byte>, at: nat)
      requires Valid() && Whole(data) && output != iv && at + |data| <= output.Length
      modifies `processed, `out, iv, output
      ensures Whole(processed) && processed == old(processed) + data
      ensures out == Chain(cipher, operation, iv0, processed) && iv[..] == NextIv(cipher, operation, iv0, processed)
      ensures output[..at] == old(output[..at]) && out == old(out) + output[at..at + |data|]
    {
      ghost var o := output[..];
      WholeIs(data);
      var ret := CryptCbc(cipher, operation, iv, data, output, at);
      ChainAppend(cipher, operation, iv0, processed, data);
      processed := processed + data;
      out := Chain(cipher, operation, iv0, processed);
      assert output[..at] == o[..at];
      assert output[at..at + |data|] == output[..][at..at + |data|];
    }

    /** Keep the input in the buffer. */
    method Hold(input: seq<byte>)
      requires Valid() && unprocessedLen + |input| <= BLOCK
      modifies `unprocessedLen, unprocessedData
      ensures Valid() && unprocessedLen == old(unprocessedLen) + |input| && Fed() == old(Fed()) + input
      ensures unprocessedData[..unprocessedLen] == old(unprocessedData[..unprocessedLen]) + input
    {
      ghost var before := unprocessedData[..];
      Put(unprocessedData, unprocessedLen, input);
      ghost var l := unprocessedLen;
      unprocessedLen := unprocessedLen + |input|;
      assert unprocessedData[..unprocessedLen] == before[..l] + input;
    }

    /** Complete the block in the buffer and run it through the cipher. */
    method Flush(input: seq<byte>, output: array<byte>)
      requires Valid() && unprocessedLen + |input| == BLOCK
      requires output != iv && output != unprocessedData && BLOCK <= output.Length
      modifies this, iv, unprocessedData, output
      ensures Valid() && unprocessedLen == 0 && processed == old(Fed()) + input && out == old(out) + output[..BLOCK]
    {
      Hold(input);
      ghost var fed := Fed();
      unprocessedLen := 0;
      ghost var x := unprocessedData[..];
      assert Whole(x) by { WholeIs(x); }
      Process(unprocessedData[..], output, 0);
      assert output[0..0 + BLOCK] == output[..BLOCK];
      assert fed == old(Fed()) + input && fed == old(processed) + x;
    }

    /** Is a full block held back? */
    predicate HoldsBack() {
      operation == Decrypt && padding != NoPadding
    }

    /** With an empty buffer: keep the input from n on and process what is before. */
    method KeepTail(input: seq<byte>, n: nat, output: array<byte>, at: nat)
      requires Valid() && unprocessedLen == 0 && n <= |input| <= n + BLOCK && Whole(input[..n])
      requires output != iv && output != unprocessedData && at + n <= output.Length
      modifies this, iv, unprocessedData, output
      ensures Valid() && processed == old(processed) + input[..n] && unprocessedData[..unprocessedLen] == input[n..]
      ensures output[..at] == old(output[..at]) && out == old(out) + output[at..at + n]
    {
      Hold(input[n..]);
      ghost var tail := unprocessedData[..unprocessedLen];
      Process(input[..n], output, at);
      assert unprocessedData[..unprocessedLen] == tail;
    }

    /** With an empty buffer: process whole blocks and keep the rest. */
    method Rest(input: seq<byte>, output: array<byte>, at: nat) returns (n: nat)
      requires Valid() && unprocessedLen == 0 && (HoldsBack() ==> input != [])
      requires output != iv && output != unprocessedData && at + |input| <= output.Length
      modifies this, iv, unprocessedData, output
      ensures Steady() && Fed() == old(processed) + input
      ensures n <= |input| && output[..at] == old(output[..at]) && out == old(out) + output[at..at + n]
    {
      hide CipherContext.Valid, Kept;
      n := CopyFrom(input);
      KeepTail(input, n, output, at);
      assert processed + input[n..] == old(processed) + input by { assert input[..n] + input[n..] == input; }
      KeptRest(operation, padding, processed, unprocessedLen);
    }

    /** Where the bytes that are only kept begin. */
    method CopyFrom(input: seq<byte>) returns (n: nat)
      ensures n <= |input| <= n + BLOCK && Whole(input[..n])
      ensures if HoldsBack() then input != [] ==> n < |input| else |input| < n + BLOCK
    {
      var copyLen: nat := |input| % BLOCK;
      if input != [] && copyLen == 0 && HoldsBack() {
        copyLen := BLOCK;
      }
      n := |input| - copyLen;
      WholeIs(input[..n]);
    }

    /** With bytes in the buffer: complete their block, then go on with an empty buffer. */
    method FlushThenRest(input: seq<byte>, output: array<byte>) returns (olen: nat)
      requires Valid() && 0 < unprocessedLen && unprocessedLen + |input| >= BLOCK
      requires HoldsBack() ==> unprocessedLen + |input| > BLOCK
      requires output != iv && output != unprocessedData && |input| + BLOCK <= output.Length
      modifies this, iv, unprocessedData, output
      ensures Steady() && Fed() == old(Fed()) + input
      ensures olen <= |input| + BLOCK && out == old(out) + output[..olen]
    {
      hide CipherContext.Fed, Chain;
      var copyLen: nat := BLOCK - unprocessedLen;
      ghost var fed := Fed();
      Flush(input[..copyLen], output);
      ghost var first := output[..BLOCK];
      var n := Rest(input[copyLen..], output, BLOCK);
      olen := BLOCK + n;
      assert output[..olen] == first + output[BLOCK..BLOCK + n];
      assert fed + input[..copyLen] + input[copyLen..] == fed + input;
    }

    lemma {:induction false} EmptyBuffer()
      requires Steady()
      ensures HoldsBack() && unprocessedLen == 0 ==> processed == []
    {
    }

    /** What is out is the chaining of what was fed, up to the last incomplete block; when
        decrypting with padding, up to the last block. */
    lemma {:induction false} WhatIsOut()
      requires Steady()
      ensures |out| <= |Fed()| && Whole(Fed()[..|out|]) && out == Chain(cipher, operation, iv0, Fed()[..|out|])
      ensures if operation == Decrypt && padding != NoPadding then (Fed() != [] ==> 1 <= |Fed()| - |out| <= BLOCK)
              else |Fed()| - |out| < BLOCK
    {
      hide Whole, Chain;
      assert Fed()[..|processed|] == processed;
    }

    /** Feed more input; the output so far grows by the first `olen` bytes of the buffer. */
    method Update(input: seq<byte>, output: array<byte>) returns (olen: nat)
      requires Steady() && output != iv && output != unprocessedData && |input| + BLOCK <= output.Length
      modifies this, iv, unprocessedData, output
      ensures Steady() && Fed() == old(Fed()) + input
      ensures olen <= |input| + BLOCK && out == old(out) + output[..olen]
      ensures |out| <= |Fed()| && Whole(Fed()[..|out|]) && out == Chain(cipher, operation, iv0, Fed()[..|out|])
      ensures if operation == Decrypt && padding != NoPadding then (Fed() != [] ==> 1 <= |Fed()| - |out| <= BLOCK)
              else |Fed()| - |out| < BLOCK
    {
      if (HoldsBack() && |input| <= BLOCK - unprocessedLen) || (!HoldsBack() && |input| < BLOCK - unprocessedLen) {
        EmptyBuffer();
        Hold(input);
        KeptRest(operation, padding, processed, unprocessedLen);
        olen := 0;
      } else if unprocessedLen == 0 {
        olen := Rest(input, output, 0);
        assert output[0..0 + olen] == output[..olen];
      } else {
        olen := FlushThenRest(input, output);
      }
      WhatIsOut();
    }

    /** Run the full buffer through the cipher. */
    method LastBlockOut(output: array<byte>)
      requires Valid() && unprocessedLen <= BLOCK <= output.Length && output != iv && output != unprocessedData
      modifies this, iv, unprocessedData, output
      ensures Whole(old(processed) + old(unprocessedData[..]))
      ensures out
           == Chain(cipher, operation, iv0, old(processed) + old(unprocessedData[..])) == old(out) + output[..BLOCK]
    {
      WholeIs(unprocessedData[..]);
      Process(unprocessedData[..], output, 0);
      assert output[0..0 + BLOCK] == output[..BLOCK];
    }

    method FinishEncrypt(output: array<byte>) returns (res: FinishResult)
      requires Steady() && operation == Encrypt && output != iv && output != unprocessedData && BLOCK <= output.Length
      modifies this, iv, unprocessedData, output
      ensures var all := OneShot(cipher, operation, padding, iv0, old(Fed()));
        if res == FullBlockExpected then all == None
        else !res.invalidPadding && 0 <= res.olen <= BLOCK && all == Some(old(out) + output[..res.olen])
    {
      hide Tail, Chain, Unprepared, NextIv;
      if padding == NoPadding {
        assert Fed()[..|processed|] == processed;
        if unprocessedLen != 0 { return FullBlockExpected; }
        assert Fed() == processed && out + output[..0] == out;
        WholeIs(processed);
        return Finished(0, false);
      }
      ghost var fed, data := Fed(), unprocessedData[..unprocessedLen];
      AddPadding(padding, unprocessedData, unprocessedLen);
      assert processed + unprocessedData[..] == fed + Tail(padding, Fill16(|fed|));
      LastBlockOut(output);
      return Finished(BLOCK, false);
    }

    /** Without a full block in the buffer a decryption has ended at a wrong place, unless there
        is no padding and nothing left over. */
    lemma {:induction false} NoFullBlock()
      requires Steady() && operation == Decrypt && unprocessedLen != BLOCK
      ensures OneShot(cipher, operation, padding, iv0, Fed())
           == if padding == NoPadding && unprocessedLen == 0 then Some(out) else None
    {
      WholeIs(processed);
      if padding == NoPadding && unprocessedLen == 0 {
        assert Fed() == processed;
      }
    }

    method FinishHeld(output: array<byte>) returns (res: FinishResult)
      requires Steady() && operation == Decrypt && unprocessedLen == BLOCK
      requires output != iv && output != unprocessedData && BLOCK <= output.Length
      modifies this, iv, unprocessedData, output
      ensures res.Finished?
      ensures var all := OneShot(cipher, operation, padding, iv0, old(Fed()));
        if res.invalidPadding then all == None else 0 <= res.olen <= BLOCK && all == Some(old(out) + output[..res.olen])
    {
      hide Kept, Padded, Chain, NextIv, DataLen, Whole;
      ghost var fed, before := Fed(), out;
      assert processed + unprocessedData[..] == fed;
      LastBlockOut(output);
      WholeIs(fed);
      var dataLen, bad := GetPadding(padding, output[..BLOCK]);
      assert out[|out| - BLOCK..] == output[..BLOCK];
      if !bad {
        assert out[..|out| - BLOCK + dataLen] == before + output[..dataLen];
      }
      return Finished(dataLen, bad);
    }

    method FinishDecrypt(output: array<byte>) returns (res: FinishResult)
      requires Steady() && operation == Decrypt && output != iv && output != unprocessedData && BLOCK <= output.Length
      modifies this, iv, unprocessedData, output
      ensures var all := OneShot(cipher, operation, padding, iv0, old(Fed()));
        if res == FullBlockExpected || res.invalidPadding then all == None
        else 0 <= res.olen <= BLOCK && all == Some(old(out) + output[..res.olen])
    {
      if unprocessedLen != BLOCK {
        NoFullBlock();
        if padding == NoPadding && unprocessedLen == 0 {
          assert out + output[..0] == out;
          return Finished(0, false);
        }
        return FullBlockExpected;
      }
      res := FinishHeld(output);
    }

    /** The last output. All the output together is the one-shot result, and an error is
        reported exactly when there is none. */
    method Finish(output: array<byte>) returns (res: FinishResult)
      requires Steady() && output != iv && output != unprocessedData && BLOCK <= output.Length
      modifies this, iv, unprocessedData, output
      ensures var all := OneShot(cipher, operation, padding, iv0, old(Fed()));
        if res == FullBlockExpected || res.invalidPadding then all == None
        else 0 <= res.olen <= BLOCK && all == Some(old(out) + output[..res.olen])
    {
      if operation == Encrypt {
        res := FinishEncrypt(output);
      } else {
        res := FinishDecrypt(output);
      }
    }
  }

  // ----- a whole run

  /** However the input is cut, the collected outputs are the one-shot result. */
  method CryptAll(c: BlockCipher, op: Operation, mode: PaddingMode, iv: Block, chunks: seq<seq<byte>>)
    returns (r: Option<seq<byte>>)
    ensures r == OneShot(c, op, mode, iv, Flatten(chunks))
    ensures op == Decrypt ==> var m := Flatten(chunks);
      r == None <==>
      || |m| % BLOCK != 0 || (mode != NoPadding && m == [])
      || (mode in {Pkcs7, OneAndZeros, ZerosAndLen} && forall n: nat :: !Padded(mode, LastPlain(c, iv, m), n))
  {
    hide Padded, LastPlain, OneShot, CipherContext.Fed, Kept, Chain, NextIv;
    DecryptFails(c, mode, iv, Flatten(chunks));
    var ctx := new CipherContext(c, op, mode, iv);
    var collected: seq<byte> := [];
    var i := 0;
    while i < |chunks|
      invariant 0 <= i <= |chunks| && ctx.Steady() && ctx.Fed() == FirstChunks(chunks, i) && ctx.out == collected
      invariant fresh(ctx.iv) && fresh(ctx.unprocessedData)
    {
      var output := new byte[|chunks[i]| + BLOCK](_ => 0);
      var olen := ctx.Update(chunks[i], output);
      collected := collected + output[..olen];
      i := i + 1;
    }
    var output := new byte[BLOCK](_ => 0);
    var res := ctx.Finish(output);
    if res == FullBlockExpected || res.invalidPadding {
      return None;
    }
    return Some(collected + output[..res.olen]);
  }

  /** Encrypting in any pieces and decrypting in any pieces gives the message back. */
  lemma {:induction false} PiecesUndone(c: BlockCipher, mode: PaddingMode, iv: Block, pieces: seq<seq<byte>>,
                                        pieces': seq<seq<byte>>)
    requires Permutation(c) && mode != Zeros && Prepared(mode, Flatten(pieces)).Some?
    requires Some(Flatten(pieces')) == OneShot(c, Encrypt, mode, iv, Flatten(pieces))
    ensures OneShot(c, Decrypt, mode, iv, Flatten(pieces')) == Some(Flatten(pieces))
  {
    OneShotUndone(c, mode, iv, Flatten(pieces));
  }
}
