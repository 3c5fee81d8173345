/** XTS with ciphertext stealing over any permutation of 16-byte blocks (aes.c; IEEE Std
    1619-2007, section 5). */
module Xts {
  import opened Bytes
  import opened Cbc
  import opened XtsTweak

  // ----- what a data unit becomes, for any succession of tweaks

  type NextTweak = Block -> Block

  function Direction(c: BlockCipher, op: Operation, x: Block): Block {
    match op
    case Encrypt => c.enc(x)
    case Decrypt => c.dec(x)
  }

  /** One block under a tweak. */
  function Tweaked(c: BlockCipher, op: Operation, t: Block, x: Block): Block {
    XorBlock(Direction(c, op, XorBlock(x, t)), t)
  }

  /** The last full block x under tweak t and a shorter rest under tweak u: the rest is filled
      up with bytes of the transformed block, which gives up those bytes to the end. */
  function Steal(c: BlockCipher, op: Operation, t: Block, u: Block, x: Block, rest: seq<byte>): (r: seq<byte>)
    requires |rest| < BLOCK
    ensures |r| == BLOCK + |rest|
  {
    var full := Tweaked(c, op, t, x);
    Tweaked(c, op, u, rest + full[|rest|..]) + full[..|rest|]
  }

  /** A data unit, with the tweak of its first block. When decrypting, the tweaks of the last
      full block and of the rest change places. */
  function DataUnit(c: BlockCipher, op: Operation, next: NextTweak, t: Block, data: seq<byte>): (r: seq<byte>)
    requires |data| >= BLOCK
    ensures |r| == |data|
    decreases |data|
  {
    if |data| == BLOCK then Tweaked(c, op, t, data)
    else if |data| < 2 * BLOCK then
      if op == Encrypt then Steal(c, op, t, next(t), data[..BLOCK], data[BLOCK..])
      else Steal(c, op, next(t), t, data[..BLOCK], data[BLOCK..])
    else Tweaked(c, op, t, data[..BLOCK]) + DataUnit(c, op, next, next(t), data[BLOCK..])
  }

  lemma {:induction false} TweakedUndone(c: BlockCipher, t: Block, x: Block)
    requires Permutation(c)
    ensures Tweaked(c, Decrypt, t, Tweaked(c, Encrypt, t, x)) == x
  {
    XorCancel(c.enc(XorBlock(x, t)), t);
    XorCancel(x, t);
  }

  lemma {:induction false} StealUndone(c: BlockCipher, t: Block, u: Block, x: Block, rest: seq<byte>)
    requires Permutation(c) && |rest| < BLOCK
    ensures var e := Steal(c, Encrypt, t, u, x, rest); Steal(c, Decrypt, u, t, e[..BLOCK], e[BLOCK..]) == x + rest
  {
    var r := |rest|;
    var full := Tweaked(c, Encrypt, t, x);
    var filled: Block := rest + full[r..];
    var last := Tweaked(c, Encrypt, u, filled);
    var e := last + full[..r];
    assert e[..BLOCK] == last && e[BLOCK..] == full[..r];
    TweakedUndone(c, u, filled);
    assert filled[..r] == rest && full[..r] + filled[r..] == full;
    TweakedUndone(c, t, x);
  }

  lemma {:induction false} DataUnitStep(c: BlockCipher, op: Operation, next: NextTweak, t: Block, x: Block,
                                        rest: seq<byte>)
    requires |rest| >= BLOCK
    ensures DataUnit(c, op, next, t, x + rest) == Tweaked(c, op, t, x) + DataUnit(c, op, next, next(t), rest)
  {
    assert (x + rest)[..BLOCK] == x && (x + rest)[BLOCK..] == rest;
  }

  /** Decryption undoes encryption for every length from one block on. */
  lemma {:induction false} DataUnitUndone(c: BlockCipher, next: NextTweak, t: Block, m: seq<byte>)
    requires Permutation(c) && |m| >= BLOCK
    ensures DataUnit(c, Decrypt, next, t, DataUnit(c, Encrypt, next, t, m)) == m
    decreases |m|
  {
    if |m| == BLOCK {
      TweakedUndone(c, t, m);
    } else if |m| < 2 * BLOCK {
      StealUndone(c, t, next(t), m[..BLOCK], m[BLOCK..]);
      assert m == m[..BLOCK] + m[BLOCK..];
    } else {
      var x, rest := m[..BLOCK], m[BLOCK..];
      assert m == x + rest;
      TweakedUndone(c, t, x);
      DataUnitUndone(c, next, next(t), rest);
      DataUnitStep(c, Encrypt, next, t, x, rest);
      DataUnitStep(c, Decrypt, next, t, Tweaked(c, Encrypt, t, x), DataUnit(c, Encrypt, next, next(t), rest));
    }
  }

  // ----- the same in the cipher, exclusive or and the tweaks alone

  /** The tweak j steps on. */
  function TweakAt(next: NextTweak, t: Block, j: nat): Block {
    if j == 0 then t else next(TweakAt(next, t, j - 1))
  }

  lemma {:induction false} TweakLater(next: NextTweak, t: Block, j: nat)
    ensures TweakAt(next, next(t), j) == TweakAt(next, t, j + 1)
  {
    if j > 0 { TweakLater(next, t, j - 1); }
  }

  /** Every full block that gives up no bytes is transformed between two additions of its tweak. */
  ghost predicate FullBlocksIn(c: BlockCipher, op: Operation, next: NextTweak, t: Block, data: seq<byte>,
                               out: seq<byte>)
  {
    && |out| == |data|
    && forall j: nat :: BLOCK * j + BLOCK == |data| || BLOCK * j + 2 * BLOCK <= |data| ==>
         var u := TweakAt(next, t, j);
         BlockAt(out, j) == match op
                            case Encrypt => Xor(c.enc(Xor(BlockAt(data, j), u)), u)
                            case Decrypt => Xor(c.dec(Xor(BlockAt(data, j), u)), u)
  }

  /** The last two blocks, of which the second is shorter. Encryption takes the tweaks in order;
      decryption takes the later tweak for the full block and the earlier one for the block that
      is filled up. The leftover bytes of the output are the first ones of the full block. */
  ghost predicate LastTwoIn(c: BlockCipher, op: Operation, next: NextTweak, t: Block, data: seq<byte>, out: seq<byte>) {
    |out| == |data| && (|data| > BLOCK && |data| % BLOCK != 0 ==>
      var k, r := |data| / BLOCK - 1, |data| % BLOCK;
      var u, v := TweakAt(next, t, k), TweakAt(next, t, k + 1);
      var rest := data[|data| - r..];
      match op
      case Encrypt =>
        var full := Xor(c.enc(Xor(BlockAt(data, k), u)), u);
        BlockAt(out, k) == Xor(c.enc(Xor(rest + full[r..], v)), v) && out[|data| - r..] == full[..r]
      case Decrypt =>
        var full := Xor(c.dec(Xor(BlockAt(data, k), v)), v);
        BlockAt(out, k) == Xor(c.dec(Xor(rest + full[r..], u)), u) && out[|data| - r..] == full[..r])
  }

  lemma {:induction false} UnitFirst(c: BlockCipher, op: Operation, next: NextTweak, t: Block, data: seq<byte>)
    requires |data| == BLOCK || 2 * BLOCK <= |data|
    ensures BlockAt(DataUnit(c, op, next, t, data), 0) == match op
                                                          case Encrypt => Xor(c.enc(Xor(BlockAt(data, 0), t)), t)
                                                          case Decrypt => Xor(c.dec(Xor(BlockAt(data, 0), t)), t)
  {
    hide Xor;
    assert BlockAt(data, 0) == data[..BLOCK];
    if |data| == BLOCK { assert data[..BLOCK] == data; }
  }

  lemma {:induction false} UnitRest(c: BlockCipher, op: Operation, next: NextTweak, t: Block, data: seq<byte>)
    requires 2 * BLOCK <= |data|
    ensures DataUnit(c, op, next, t, data)[BLOCK..] == DataUnit(c, op, next, next(t), data[BLOCK..])
  {
    hide Tweaked;
  }

  lemma {:induction false} UnitBlock(c: BlockCipher, op: Operation, next: NextTweak, t: Block, data: seq<byte>, j: nat)
    requires BLOCK * j + BLOCK == |data| || BLOCK * j + 2 * BLOCK <= |data|
    ensures var u := TweakAt(next, t, j);
      BlockAt(DataUnit(c, op, next, t, data), j) == match op
                                                    case Encrypt => Xor(c.enc(Xor(BlockAt(data, j), u)), u)
                                                    case Decrypt => Xor(c.dec(Xor(BlockAt(data, j), u)), u)
    decreases j
  {
    hide Xor, DataUnit, BlockAt;
    if j == 0 {
      UnitFirst(c, op, next, t, data);
    } else {
      UnitRest(c, op, next, t, data);
      UnitBlock(c, op, next, next(t), data[BLOCK..], j - 1);
      TweakLater(next, t, j - 1);
      Later(data, j - 1);
      Later(DataUnit(c, op, next, t, data), j - 1);
    }
  }

  lemma {:induction false} UnitFullBlocks(c: BlockCipher, op: Operation, next: NextTweak, t: Block, data: seq<byte>)
    requires |data| >= BLOCK
    ensures FullBlocksIn(c, op, next, t, data, DataUnit(c, op, next, t, data))
  {
    forall j: nat | BLOCK * j + BLOCK == |data| || BLOCK * j + 2 * BLOCK <= |data|
      ensures var u := TweakAt(next, t, j);
        BlockAt(DataUnit(c, op, next, t, data), j) == match op
                                                      case Encrypt => Xor(c.enc(Xor(BlockAt(data, j), u)), u)
                                                      case Decrypt => Xor(c.dec(Xor(BlockAt(data, j), u)), u)
    {
      UnitBlock(c, op, next, t, data, j);
    }
  }

  lemma {:induction false} UnitLastTwo(c: BlockCipher, op: Operation, next: NextTweak, t: Block, data: seq<byte>)
    requires |data| >= BLOCK
    ensures LastTwoIn(c, op, next, t, data, DataUnit(c, op, next, t, data))
    decreases |data|
  {
    hide Xor;
    var out := DataUnit(c, op, next, t, data);
    if BLOCK < |data| < 2 * BLOCK {
      var r := |data| - BLOCK;
      assert |data| / BLOCK == 1 && |data| % BLOCK == r && TweakAt(next, t, 1) == next(TweakAt(next, t, 0));
      assert BlockAt(data, 0) == data[..BLOCK] && BlockAt(out, 0) == out[..BLOCK];
    } else if |data| > 2 * BLOCK {
      var x, rest := data[..BLOCK], data[BLOCK..];
      assert data == x + rest;
      DataUnitStep(c, op, next, t, x, rest);
      assert out[BLOCK..] == DataUnit(c, op, next, next(t), rest);
      UnitLastTwo(c, op, next, next(t), rest);
      LastTwoLater(c, op, next, t, data, out);
    }
  }

  lemma {:induction false} LastTwoLater(c: BlockCipher, op: Operation, next: NextTweak, t: Block, data: seq<byte>,
                                        out: seq<byte>)
    requires |data| > 2 * BLOCK && |out| == |data| && LastTwoIn(c, op, next, next(t), data[BLOCK..], out[BLOCK..])
    ensures LastTwoIn(c, op, next, t, data, out)
  {
    hide TweakAt, BlockAt;
    if |data| % BLOCK != 0 {
      var k := |data| / BLOCK - 1;
      assert |data[BLOCK..]| / BLOCK == k && |data[BLOCK..]| % BLOCK == |data| % BLOCK;
      TweakLater(next, t, k - 1);
      TweakLater(next, t, k);
      Later(data, k - 1);
      Later(out, k - 1);
    }
  }

  // ----- the code

  const MAX_LENGTH := 0x10_0000 * 16

  /** The first `at` bytes are in the output and the tweak is the one for what follows. */
  ghost predicate Progress(c: BlockCipher, op: Operation, next: NextTweak, first: Block, input: seq<byte>, at: nat,
                           tweak: Block, out: seq<byte>) {
    && at + BLOCK <= |input| && |out| == at
    && out + DataUnit(c, op, next, tweak, input[at..]) == DataUnit(c, op, next, first, input)
  }

  lemma {:induction false} OneMore(c: BlockCipher, op: Operation, next: NextTweak, first: Block, input: seq<byte>,
                                   at: nat, tweak: Block, out: seq<byte>)
    requires Progress(c, op, next, first, input, at, tweak, out) && at + 2 * BLOCK <= |input|
    ensures Progress(c, op, next, first, input, at + BLOCK, next(tweak),
                     out + Tweaked(c, op, tweak, input[at..at + BLOCK]))
  {
    hide Tweaked;
    var x, rest := input[at..at + BLOCK], input[at + BLOCK..];
    assert input[at..] == x + rest;
    DataUnitStep(c, op, next, tweak, x, rest);
    assert out + (Tweaked(c, op, tweak, x) + DataUnit(c, op, next, next(tweak), rest))
        == (out + Tweaked(c, op, tweak, x)) + DataUnit(c, op, next, next(tweak), rest);
  }

  /** All blocks but the last full one. */
  method FirstBlocks(c: BlockCipher, op: Operation, next: NextTweak, first: Block, input: seq<byte>,
                     output: array<byte>)
    returns (at: nat, tweak: Block)
    requires BLOCK <= |input| <= output.Length
    modifies output
    ensures at + BLOCK <= |input| < at + 2 * BLOCK
    ensures Progress(c, op, next, first, input, at, tweak, output[..at])
    ensures output[|input|..] == old(output[|input|..])
  {
    at, tweak := 0, first;
    assert input[at..] == input;
    assert output[..at] + DataUnit(c, op, next, first, input) == DataUnit(c, op, next, first, input);
    var blocks := |input| / BLOCK;
    while blocks > 1
      invariant 1 <= blocks && at + blocks * BLOCK <= |input| < at + (blocks + 1) * BLOCK
      invariant Progress(c, op, next, first, input, at, tweak, output[..at])
      invariant output[|input|..] == old(output[|input|..])
      decreases blocks
    {
      OneMore(c, op, next, first, input, at, tweak, output[..at]);
      PutNext(output, at, Tweaked(c, op, tweak, input[at..at + BLOCK]), |input|);
      tweak := next(tweak);
      at := at + BLOCK;
      blocks := blocks - 1;
    }
  }

  lemma {:induction false} LastUnit(c: BlockCipher, op: Operation, next: NextTweak, t: Block, data: seq<byte>)
    requires BLOCK <= |data| < 2 * BLOCK
    ensures |data| == BLOCK ==> DataUnit(c, op, next, t, data) == Tweaked(c, op, t, data)
    ensures |data| > BLOCK ==>
              var rest, full := data[BLOCK..], Tweaked(c, op, if op == Decrypt then next(t) else t, data[..BLOCK]);
              DataUnit(c, op, next, t, data)
              == Tweaked(c, op, if op == Decrypt then t else next(t), rest + full[|rest|..]) + full[..|rest|]
  {
    hide Tweaked;
  }

  /** The last full block and the leftover bytes. */
  method LastBlocks(c: BlockCipher, op: Operation, next: NextTweak, t: Block, input: seq<byte>, at: nat,
                    output: array<byte>)
    requires at + BLOCK <= |input| < at + 2 * BLOCK && |input| <= output.Length
    modifies output
    ensures output[..|input|] == old(output[..at]) + DataUnit(c, op, next, t, input[at..])
    ensures output[|input|..] == old(output[|input|..])
  {
    hide Tweaked, DataUnit;
    LastUnit(c, op, next, t, input[at..]);
    var full, rest := input[at..at + BLOCK], input[at + BLOCK..];
    assert input[at..][..BLOCK] == full && input[at..][BLOCK..] == rest;
    var leftover := |input| - at - BLOCK;
    var tweak, prevTweak := t, t;
    if leftover > 0 && op == Decrypt {
      prevTweak := tweak;
      tweak := next(tweak);
    }
    var tmp := Tweaked(c, op, tweak, full);
    PutNext(output, at, tmp, |input|);
    if leftover > 0 {
      ghost var before := output[..at + BLOCK];
      assert before[..at] == output[..at];
      StealInto(c, op, tmp, if op == Decrypt then prevTweak else next(tweak), rest, output, at);
    } else {
      assert input[at..] == full;
    }
  }

  /** The leftover bytes, filled up from the block before, which moves to the end. */
  method StealInto(c: BlockCipher, op: Operation, full: Block, u: Block, rest: seq<byte>, output: array<byte>, at: nat)
    requires |rest| < BLOCK && at + BLOCK + |rest| <= output.Length && output[at..at + BLOCK] == full
    modifies output
    ensures output[..at + BLOCK + |rest|]
         == old(output[..at]) + (Tweaked(c, op, u, rest + full[|rest|..]) + full[..|rest|])
    ensures output[at + BLOCK + |rest|..] == old(output[at + BLOCK + |rest|..])
  {
    hide Tweaked;
    ghost var before, after := output[..at], output[at + BLOCK + |rest|..];
    Put(output, at + BLOCK, full[..|rest|]);
    var tmp := Tweaked(c, op, u, rest + full[|rest|..]);
    assert output[..at] == before && output[at + BLOCK..at + BLOCK + |rest|] == full[..|rest|];
    assert output[at + BLOCK + |rest|..] == after;
    Put(output, at, tmp);
    assert output[..at + BLOCK + |rest|] == before + (tmp + full[..|rest|]) && output[at + BLOCK + |rest|..] == after;
  }

  /** A data unit of XTS; the tweak starts from the encrypted number of the unit. */
  method CryptXts(crypt: BlockCipher, tweakCipher: BlockCipher, mode: Operation, dataUnit: Block, input: seq<byte>,
                  output: array<byte>)
    returns (ret: Outcome)
    requires |input| <= output.Length
    modifies output
    ensures ret == InvalidInputLength <==> |input| < BLOCK || |input| > MAX_LENGTH
    ensures ret == InvalidInputLength ==> output[..] == old(output[..])
    ensures ret == Done ==> output[..|input|] == DataUnit(crypt, mode, Gf128MulXBle, tweakCipher.enc(dataUnit), input)
    ensures ret == Done ==> output[|input|..] == old(output[|input|..])
    ensures ret == Done ==>
              var first := tweakCipher.enc(dataUnit);
              && FullBlocksIn(crypt, mode, Gf128MulXBle, first, input, output[..|input|])
              && LastTwoIn(crypt, mode, Gf128MulXBle, first, input, output[..|input|])
  {
    if |input| < BLOCK || |input| > MAX_LENGTH { return InvalidInputLength; }
    var first := tweakCipher.enc(dataUnit);
    var at, tweak := FirstBlocks(crypt, mode, Gf128MulXBle, first, input, output);
    LastBlocks(crypt, mode, Gf128MulXBle, tweak, input, at, output);
    UnitFullBlocks(crypt, mode, Gf128MulXBle, first, input);
    UnitLastTwo(crypt, mode, Gf128MulXBle, first, input);
    return Done;
  }
}
