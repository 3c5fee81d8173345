/** Cipher block chaining over any permutation of 16-byte blocks (aes.c). */
module Cbc {
  import opened Arith
  import opened Bytes

  datatype Operation = Encrypt | Decrypt

  const BLOCK := 16

  type Block = x: seq<byte> | |x| == BLOCK witness Fill(0, 16)

  /** A keyed block cipher: its two directions on single blocks. */
  datatype BlockCipher = BlockCipher(enc: Block -> Block, dec: Block -> Block)

  /** The two directions are inverse permutations of the blocks. */
  ghost predicate Permutation(c: BlockCipher) {
    && (forall x: Block :: c.dec(c.enc(x)) == x)
    && (forall x: Block :: c.enc(c.dec(x)) == x)
  }

  function XorBlock(x: Block, y: Block): Block { Xor(x, y) }

  /** One block: its output. */
  function OneBlock(c: BlockCipher, op: Operation, iv: Block, x: Block): Block {
    match op
    case Encrypt => c.enc(XorBlock(x, iv))
    case Decrypt => XorBlock(c.dec(x), iv)
  }

  /** One block: the chaining value for the next one, which is the ciphertext. */
  function Link(c: BlockCipher, op: Operation, iv: Block, x: Block): Block {
    match op
    case Encrypt => OneBlock(c, op, iv, x)
    case Decrypt => x
  }

  /** Whole blocks. */
  predicate Whole(s: seq<byte>)
    decreases |s|
  {
    s == [] || (|s| >= BLOCK && Whole(s[BLOCK..]))
  }

  lemma {:induction false} WholeAppend(a: seq<byte>, b: seq<byte>)
    requires Whole(a)
    ensures Whole(a + b) <==> Whole(b)
    decreases |a|
  {
    if a == [] {
      assert a + b == b;
    } else {
      assert (a + b)[BLOCK..] == a[BLOCK..] + b;
      WholeAppend(a[BLOCK..], b);
    }
  }

  lemma {:induction false} WholeIs(s: seq<byte>)
    ensures Whole(s) <==> |s| % BLOCK == 0
    decreases |s|
  {
    if |s| >= BLOCK { WholeIs(s[BLOCK..]); }
  }

  /** Of n bytes, those after the last whole block, and the number of whole blocks. */
  function Offset(n: nat): (r: nat)
    ensures r < BLOCK && r <= n
  {
    if n < BLOCK then n else Offset(n - BLOCK)
  }

  function Blocks(n: nat): nat {
    if n < BLOCK then 0 else 1 + Blocks(n - BLOCK)
  }

  lemma {:induction false} OffsetIs(n: nat)
    ensures Offset(n) == n % BLOCK && Blocks(n) == n / BLOCK
  {
    if n >= BLOCK { OffsetIs(n - BLOCK); }
  }

  lemma {:induction false} OffsetAdd(n: nat, k: nat)
    requires Offset(n) + k <= BLOCK
    ensures if Offset(n) + k < BLOCK then Offset(n + k) == Offset(n) + k && Blocks(n + k) == Blocks(n)
            else Offset(n + k) == 0 && Blocks(n + k) == Blocks(n) + 1
  {
    OffsetIs(n);
    OffsetIs(n + k);
  }

  lemma {:induction false} WholeOffset(s: seq<byte>)
    ensures Whole(s) <==> Offset(|s|) == 0
    decreases |s|
  {
    if |s| >= BLOCK { WholeOffset(s[BLOCK..]); }
  }

  lemma {:induction false} CutWhole(s: seq<byte>)
    ensures Whole(s[..|s| - Offset(|s|)])
  {
    var w := |s| - Offset(|s|);
    OffsetIs(|s|);
    WholeIs(s[..w]);
  }

  lemma {:induction false} OffsetAfter(s: seq<byte>, k: nat)
    requires Whole(s) && k < BLOCK
    ensures Offset(|s| + k) == k && Blocks(|s| + k) == Blocks(|s|)
  {
    WholeOffset(s);
    OffsetAdd(|s|, k);
  }

  /** The chained data: encrypted or decrypted. */
  function Chain(c: BlockCipher, op: Operation, iv: Block, data: seq<byte>): (r: seq<byte>)
    requires Whole(data)
    ensures |r| == |data|
    decreases |data|
  {
    if data == [] then []
    else OneBlock(c, op, iv, data[..BLOCK]) + Chain(c, op, Link(c, op, iv, data[..BLOCK]), data[BLOCK..])
  }

  /** The chaining value after the data. */
  function NextIv(c: BlockCipher, op: Operation, iv: Block, data: seq<byte>): Block
    requires Whole(data)
    decreases |data|
  {
    if data == [] then iv else NextIv(c, op, Link(c, op, iv, data[..BLOCK]), data[BLOCK..])
  }

  lemma {:induction false} ChainStep(c: BlockCipher, op: Operation, iv: Block, x: Block, rest: seq<byte>)
    requires Whole(rest)
    ensures Whole(x + rest)
    ensures Chain(c, op, iv, x + rest) == OneBlock(c, op, iv, x) + Chain(c, op, Link(c, op, iv, x), rest)
    ensures NextIv(c, op, iv, x + rest) == NextIv(c, op, Link(c, op, iv, x), rest)
  {
    assert (x + rest)[..BLOCK] == x && (x + rest)[BLOCK..] == rest;
  }

  /** Chaining works on pieces one after the other. */
  lemma {:induction false} ChainAppend(c: BlockCipher, op: Operation, iv: Block, a: seq<byte>, b: seq<byte>)
    requires Whole(a) && Whole(b)
    ensures Whole(a + b) && Chain(c, op, iv, a + b) == Chain(c, op, iv, a) + Chain(c, op, NextIv(c, op, iv, a), b)
    ensures NextIv(c, op, iv, a + b) == NextIv(c, op, NextIv(c, op, iv, a), b)
    decreases |a|, 0
  {
    WholeAppend(a, b);
    if a == [] {
      assert a + b == b;
    } else {
      AppendBlock(c, op, iv, a[..BLOCK], a[BLOCK..], b);
      assert a == a[..BLOCK] + a[BLOCK..];
    }
  }

  lemma {:induction false} AppendBlock(c: BlockCipher, op: Operation, iv: Block, x: Block, rest: seq<byte>,
                                       b: seq<byte>)
    requires Whole(rest) && Whole(b)
    ensures Whole(x + rest) && Whole(x + rest + b)
    ensures Chain(c, op, iv, x + rest + b) == Chain(c, op, iv, x + rest) + Chain(c, op, NextIv(c, op, iv, x + rest), b)
    ensures NextIv(c, op, iv, x + rest + b) == NextIv(c, op, NextIv(c, op, iv, x + rest), b)
    decreases |rest|, 1
  {
    hide *;
    var next := Link(c, op, iv, x);
    ChainAppend(c, op, next, rest, b);
    ChainStep(c, op, iv, x, rest);
    ChainStep(c, op, iv, x, rest + b);
    assert x + rest + b == x + (rest + b);
    var y, p, q := OneBlock(c, op, iv, x), Chain(c, op, next, rest), Chain(c, op, NextIv(c, op, next, rest), b);
    assert y + (p + q) == (y + p) + q;
  }

  lemma {:induction false} BlockUndone(c: BlockCipher, iv: Block, x: Block)
    requires Permutation(c)
    ensures OneBlock(c, Decrypt, iv, OneBlock(c, Encrypt, iv, x)) == x
  {
    XorCancel(x, iv);
  }

  /** Decryption undoes encryption, and both leave the same chaining value. */
  lemma {:induction false} DecryptUndoes(c: BlockCipher, iv: Block, m: seq<byte>)
    requires Permutation(c) && Whole(m)
    ensures var e := Chain(c, Encrypt, iv, m); Whole(e) && Chain(c, Decrypt, iv, e) == m
    ensures NextIv(c, Decrypt, iv, Chain(c, Encrypt, iv, m)) == NextIv(c, Encrypt, iv, m)
    decreases |m|
  {
    if m != [] {
      var x, rest := m[..BLOCK], m[BLOCK..];
      var y := OneBlock(c, Encrypt, iv, x);
      DecryptUndoes(c, y, rest);
      BlockUndone(c, iv, x);
      assert m == x + rest;
      ChainStep(c, Encrypt, iv, x, rest);
      ChainStep(c, Decrypt, iv, y, Chain(c, Encrypt, y, rest));
    }
  }

  /** Block j of the data. */
  function BlockAt(s: seq<byte>, j: nat): Block
    requires BLOCK * j + BLOCK <= |s|
  {
    s[BLOCK * j..BLOCK * j + BLOCK]
  }

  /** The block before block j; the iv before the first. */
  function Before(iv: Block, s: seq<byte>, j: nat): Block
    requires BLOCK * j <= |s|
  {
    if j == 0 then iv else BlockAt(s, j - 1)
  }

  /** Cipher block chaining in the blocks alone: a plaintext block is combined with the ciphertext
      block before it and then encrypted, and decryption goes the other way round. */
  lemma {:induction false} ChainBlock(c: BlockCipher, op: Operation, iv: Block, data: seq<byte>, j: nat)
    requires Whole(data) && BLOCK * j + BLOCK <= |data|
    ensures var out := Chain(c, op, iv, data);
      BlockAt(out, j) == match op
                         case Encrypt => c.enc(Xor(BlockAt(data, j), Before(iv, out, j)))
                         case Decrypt => Xor(c.dec(BlockAt(data, j)), Before(iv, data, j))
    decreases j
  {
    var x, rest := data[..BLOCK], data[BLOCK..];
    var y := OneBlock(c, op, iv, x);
    var out, more := Chain(c, op, iv, data), Chain(c, op, Link(c, op, iv, x), rest);
    assert out[..BLOCK] == y && out[BLOCK..] == more && BlockAt(out, 0) == y && BlockAt(data, 0) == x;
    if j > 0 {
      ChainBlock(c, op, Link(c, op, iv, x), rest, j - 1);
      Later(data, j - 1);
      Later(out, j - 1);
      if j > 1 {
        Later(data, j - 2);
        Later(out, j - 2);
      }
    }
  }

  /** The output block by block. */
  ghost predicate InBlocks(c: BlockCipher, op: Operation, iv: Block, data: seq<byte>, out: seq<byte>) {
    && |out| == |data|
    && forall j: nat :: BLOCK * j + BLOCK <= |data| ==>
         BlockAt(out, j) == match op
                            case Encrypt => c.enc(Xor(BlockAt(data, j), Before(iv, out, j)))
                            case Decrypt => Xor(c.dec(BlockAt(data, j)), Before(iv, data, j))
  }

  lemma {:induction false} ChainInBlocks(c: BlockCipher, op: Operation, iv: Block, data: seq<byte>)
    requires Whole(data)
    ensures InBlocks(c, op, iv, data, Chain(c, op, iv, data))
  {
    forall j: nat | BLOCK * j + BLOCK <= |data|
      ensures var out := Chain(c, op, iv, data);
        BlockAt(out, j) == match op
                           case Encrypt => c.enc(Xor(BlockAt(data, j), Before(iv, out, j)))
                           case Decrypt => Xor(c.dec(BlockAt(data, j)), Before(iv, data, j))
    {
      ChainBlock(c, op, iv, data, j);
    }
  }

  lemma {:induction false} Later(s: seq<byte>, j: nat)
    requires BLOCK + BLOCK * j + BLOCK <= |s|
    ensures BlockAt(s[BLOCK..], j) == BlockAt(s, j + 1)
  {
  }

  datatype Outcome = Done | InvalidInputLength

  /** The state of the loop below: `done` bytes of `data` processed into a buffer that was `o`. */
  ghost predicate Chained(c: BlockCipher, op: Operation, data: seq<byte>, v: Block, o: seq<byte>, at: nat,
      done: nat, iv: seq<byte>, out: seq<byte>)
  {
    && done <= |data| && at + |data| <= |o| && Whole(data[..done]) && Whole(data[done..])
    && iv == NextIv(c, op, v, data[..done])
    && out == o[..at] + Chain(c, op, v, data[..done]) + o[at + done..]
  }

  lemma {:induction false} NothingYet(c: BlockCipher, op: Operation, data: seq<byte>, v: Block, o: seq<byte>, at: nat)
    requires Whole(data) && at + |data| <= |o|
    ensures Chained(c, op, data, v, o, at, 0, v, o)
  {
    assert data[..0] == [] && data[0..] == data;
    assert o == o[..at] + [] + o[at + 0..];
  }

  lemma {:induction false} Advance(c: BlockCipher, op: Operation, data: seq<byte>, v: Block, o: seq<byte>, at: nat,
      done: nat, iv: Block, out: seq<byte>)
    requires Chained(c, op, data, v, o, at, done, iv, out) && done < |data|
    ensures done + BLOCK <= |data| && at + done + BLOCK <= |out|
    ensures var x := data[done..done + BLOCK];
      Chained(c, op, data, v, o, at, done + BLOCK, Link(c, op, iv, x),
              out[..at + done] + OneBlock(c, op, iv, x) + out[at + done + BLOCK..])
  {
    hide Link, OneBlock;
    var x := data[done..done + BLOCK];
    assert data[done..][BLOCK..] == data[done + BLOCK..];
    assert data[..done + BLOCK] == data[..done] + x;
    ChainStep(c, op, iv, x, []);
    assert x + [] == x;
    ChainAppend(c, op, v, data[..done], x);
  }

  /** CBC of the input into the output buffer, updating the chaining value. */
  method CryptCbc(c: BlockCipher, op: Operation, iv: array<byte>, input: seq<byte>, output: array<byte>, outAt: nat)
    returns (ret: Outcome)
    requires iv.Length == BLOCK && iv != output && outAt + |input| <= output.Length
    modifies iv, output
    ensures ret == InvalidInputLength <==> |input| % BLOCK != 0
    ensures ret == InvalidInputLength ==> iv[..] == old(iv[..]) && output[..] == old(output[..])
    ensures ret == Done ==> Whole(input) && iv[..] == NextIv(c, op, old(iv[..]), input)
    ensures ret == Done ==>
              output[..]
                == old(output[..])[..outAt] + Chain(c, op, old(iv[..]), input) + old(output[..])[outAt + |input|..]
    ensures ret == Done ==> InBlocks(c, op, old(iv[..]), input, output[outAt..outAt + |input|])
  {
    hide Chained, Chain, NextIv, Whole, Link, OneBlock, InBlocks;
    if |input| % BLOCK != 0 { return InvalidInputLength; }
    ghost var v, o := iv[..], output[..];
    WholeIs(input);
    var done := 0;
    NothingYet(c, op, input, v, o, outAt);
    while done < |input|
      invariant Chained(c, op, input, v, o, outAt, done, iv[..], output[..])
      decreases |input| - done
      modifies iv, output
    {
      Advance(c, op, input, v, o, outAt, done, iv[..], output[..]);
      NextBlock(c, op, iv, input[done..done + BLOCK], output, outAt + done);
      done := done + BLOCK;
    }
    Finished(c, op, input, v, o, outAt, done, iv[..], output[..]);
    ChainInBlocks(c, op, v, input);
    assert output[outAt..outAt + |input|] == output[..][outAt..outAt + |input|] == Chain(c, op, v, input);
    return Done;
  }

  lemma {:induction false} Finished(c: BlockCipher, op: Operation, data: seq<byte>, v: Block, o: seq<byte>, at: nat,
      done: nat, iv: seq<byte>, out: seq<byte>)
    requires Chained(c, op, data, v, o, at, done, iv, out) && done >= |data|
    ensures Whole(data) && iv == NextIv(c, op, v, data) && out == o[..at] + Chain(c, op, v, data) + o[at + |data|..]
  {
    assert data[..done] == data;
  }

  /** One block, updating the chaining value. */
  method NextBlock(c: BlockCipher, op: Operation, iv: array<byte>, x: Block, output: array<byte>, outAt: nat)
    requires iv.Length == BLOCK && iv != output && outAt + BLOCK <= output.Length
    modifies iv, output
    ensures var v := old(iv[..]);
      && iv[..] == Link(c, op, v, x)
      && output[..] == old(output[..])[..outAt] + OneBlock(c, op, v, x) + old(output[..])[outAt + BLOCK..]
  {
    var y := OneBlock(c, op, iv[..], x);
    Put(output, outAt, y);
    match op {
      case Encrypt => Put(iv, 0, y);
      case Decrypt => Put(iv, 0, x);
    }
  }
}
