/** The tweak of XTS as an element of the field with 2^128 elements (aes.c). */
module XtsTweak {
  import opened Bytes
  import opened Cbc

  /** Eight bytes as a little-endian word. */
  function Word(s: seq<byte>): bv64
    requires |s| == 8
  {
    (s[0] as bv64) | ((s[1] as bv64) << 8) | ((s[2] as bv64) << 16) | ((s[3] as bv64) << 24)
    | ((s[4] as bv64) << 32) | ((s[5] as bv64) << 40) | ((s[6] as bv64) << 48) | ((s[7] as bv64) << 56)
  }

  function Octets(w: bv64): (s: seq<byte>)
    ensures |s| == 8
  {
    [(w & 0xff) as byte, ((w >> 8) & 0xff) as byte, ((w >> 16) & 0xff) as byte, ((w >> 24) & 0xff) as byte,
     ((w >> 32) & 0xff) as byte, ((w >> 40) & 0xff) as byte, ((w >> 48) & 0xff) as byte, ((w >> 56) & 0xff) as byte]
  }

  lemma {:induction false} OctetsWord(w: bv64)
    ensures Word(Octets(w)) == w
  {
  }

  /** Low and high word of twice the element whose words are a and b. */
  function DoubleLow(a: bv64, b: bv64): bv64 {
    (a << 1) ^ ((0x0087 as bv64) >> (8 - ((b >> 63) << 3)))
  }

  function DoubleHigh(a: bv64, b: bv64): bv64 {
    (a >> 63) | (b << 1)
  }

  /** The next tweak: the tweak times x in the field of 2^128 elements. */
  function Gf128MulXBle(x: Block): Block {
    var a, b := Word(x[..8]), Word(x[8..]);
    Octets(DoubleLow(a, b)) + Octets(DoubleHigh(a, b))
  }

  function Element(a: bv64, b: bv64): bv128 {
    ((b as bv128) << 64) | (a as bv128)
  }

  /** Multiplication by x: every coefficient moves up by one, which is doubling without the top
      bit, reduced by x^128 = x^7 + x^2 + x + 1. */
  function TimesX(v: bv128): bv128 {
    (v + v) ^ (if v & 0x8000_0000_0000_0000_0000_0000_0000_0000 != 0 then 0x87 else 0)
  }

  lemma {:induction false} TopBit(b: bv64)
    ensures b >> 63 == 0 || b >> 63 == 1
  {
  }

  lemma {:induction false} Reduction(a: bv64, b: bv64)
    ensures DoubleLow(a, b) == (a << 1) ^ (if b >> 63 == 1 then 0x87 else 0)
  {
    TopBit(b);
    if b >> 63 == 1 {
      assert (b >> 63) << 3 == 8;
    } else {
      assert (b >> 63) << 3 == 0;
      assert (0x0087 as bv64) >> 8 == 0;
    }
  }

  lemma {:induction false} TopOfElement(a: bv64, b: bv64)
    ensures Element(a, b) & 0x8000_0000_0000_0000_0000_0000_0000_0000 != 0 <==> b >> 63 == 1
  {
  }

  lemma {:induction false} ShiftedElement(a: bv64, b: bv64, r: bv64)
    ensures Element((a << 1) ^ r, DoubleHigh(a, b)) == (Element(a, b) + Element(a, b)) ^ (r as bv128)
  {
  }

  lemma {:induction false} DoubleIsTimesX(a: bv64, b: bv64)
    ensures Element(DoubleLow(a, b), DoubleHigh(a, b)) == TimesX(Element(a, b))
  {
    hide Element, DoubleHigh, DoubleLow;
    Reduction(a, b);
    TopOfElement(a, b);
    ShiftedElement(a, b, if b >> 63 == 1 then 0x87 else 0);
  }

  function ElementOf(x: Block): bv128 {
    Element(Word(x[..8]), Word(x[8..]))
  }

  lemma {:induction false} NextTweakIsTimesX(x: Block)
    ensures ElementOf(Gf128MulXBle(x)) == TimesX(ElementOf(x))
  {
    var a, b := Word(x[..8]), Word(x[8..]);
    var y := Gf128MulXBle(x);
    assert y[..8] == Octets(DoubleLow(a, b)) && y[8..] == Octets(DoubleHigh(a, b));
    OctetsWord(DoubleLow(a, b));
    OctetsWord(DoubleHigh(a, b));
    DoubleIsTimesX(a, b);
  }

  // ----- the same in bytes

  /** A byte that has moved up by one bit and taken the top bit of the byte below it. */
  function Moved(x: byte, below: byte): byte {
    (x << 1) | (below >> 7)
  }

  function Reducer(top: byte): byte { if top >> 7 == 1 then 0x87 else 0 }

  /** A low word that has moved up, with a byte added. */
  function Shifted(w: bv64, r: byte): bv64 { (w << 1) ^ (r as bv64) }

  /** The byte has the word's top bit. */
  predicate SameTop(w: bv64, x: byte) { w >> 63 == (x >> 7) as bv64 }

  lemma {:induction false} DoubledLowBytes(s: seq<byte>, r: byte)
    requires |s| == 8
    ensures var w := Octets(Shifted(Word(s), r));
      && w[0] == (s[0] << 1) ^ r && w[1] == Moved(s[1], s[0]) && w[2] == Moved(s[2], s[1])
      && w[3] == Moved(s[3], s[2]) && w[4] == Moved(s[4], s[3]) && w[5] == Moved(s[5], s[4])
      && w[6] == Moved(s[6], s[5]) && w[7] == Moved(s[7], s[6])
  {
  }

  lemma {:induction false} DoubledHighBytes(a: bv64, s: seq<byte>, low: byte)
    requires |s| == 8 && SameTop(a, low)
    ensures var w := Octets(DoubleHigh(a, Word(s)));
      && w[0] == Moved(s[0], low) && w[1] == Moved(s[1], s[0]) && w[2] == Moved(s[2], s[1])
      && w[3] == Moved(s[3], s[2]) && w[4] == Moved(s[4], s[3]) && w[5] == Moved(s[5], s[4])
      && w[6] == Moved(s[6], s[5]) && w[7] == Moved(s[7], s[6])
  {
  }

  lemma {:induction false} TopOfWord(s: seq<byte>)
    requires |s| == 8
    ensures SameTop(Word(s), s[7])
  {
  }

  lemma {:induction false} LowWord(s: seq<byte>, b: bv64, top: byte)
    requires |s| == 8 && SameTop(b, top)
    ensures DoubleLow(Word(s), b) == Shifted(Word(s), Reducer(top))
  {
    hide Word, DoubleLow;
    Reduction(Word(s), b);
    assert (top >> 7) as bv64 == 1 <==> top >> 7 == 1;
  }

  lemma {:induction false} LowByte(s: seq<byte>, r: byte, i: nat)
    requires |s| == 8 && i < 8
    ensures Octets(Shifted(Word(s), r))[i] == if i == 0 then (s[0] << 1) ^ r else Moved(s[i], s[i - 1])
  {
    hide Word, Octets, Moved, Shifted;
    DoubledLowBytes(s, r);
  }

  lemma {:induction false} HighByte(a: bv64, s: seq<byte>, low: byte, i: nat)
    requires |s| == 8 && SameTop(a, low) && i < 8
    ensures Octets(DoubleHigh(a, Word(s)))[i] == Moved(s[i], if i == 0 then low else s[i - 1])
  {
    hide Word, Octets, DoubleHigh, Moved, SameTop;
    DoubledHighBytes(a, s, low);
  }

  /** The next tweak byte by byte, the first byte being the lowest: every byte moves up by one bit
      and takes the top bit of the byte below; a bit that leaves the last byte comes back as 0x87. */
  lemma {:induction false} NextTweakBytes(x: Block, i: nat)
    requires i < BLOCK
    ensures Gf128MulXBle(x)[i] == if i == 0 then (x[0] << 1) ^ Reducer(x[15]) else Moved(x[i], x[i - 1])
  {
    hide Word, Octets, DoubleHigh, DoubleLow, Moved, Reducer, Shifted, SameTop;
    var s, t := x[..8], x[8..];
    TopOfWord(s);
    TopOfWord(t);
    LowWord(s, Word(t), t[7]);
    if i < 8 {
      LowByte(s, Reducer(t[7]), i);
    } else {
      HighByte(Word(s), t, s[7], i - 8);
    }
  }
}
