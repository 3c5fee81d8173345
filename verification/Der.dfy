/** The distinguished encoding of lengths, integers, bit strings and sequences (X.690), and how
    it reads back. */
module Der {
  import opened Arith
  import opened Octets

  datatype DerError = BufTooSmall | InvalidLength | OutOfData | UnexpectedTag | LengthMismatch

  datatype Parsed<T> = Parsed(value: T, used: nat) | Failed(error: DerError)

  const INTEGER: octet := 0x02
  const BIT_STRING: octet := 0x03
  const SEQUENCE: octet := 0x30

  // ----- numbers in bytes

  /** The bytes of a number, most significant first, in as many as it needs; none for zero. */
  function Big(n: nat): (s: seq<octet>) {
    if n == 0 then [] else Big(n / 256) + [n % 256]
  }

  /** The number that bytes stand for. */
  function Num(s: seq<octet>): nat {
    if s == [] then 0 else Num(s[..|s| - 1]) * 256 + s[|s| - 1]
  }

  lemma {:induction false} NumPush(s: seq<octet>, x: octet)
    ensures Num(s + [x]) == Num(s) * 256 + x
  {
    assert (s + [x])[..|s|] == s;
  }

  lemma {:induction false} NumBig(n: nat)
    ensures Num(Big(n)) == n && (n > 0 ==> Big(n) != [] && Big(n)[0] > 0)
  {
    if n != 0 {
      NumBig(n / 256);
      NumPush(Big(n / 256), n % 256);
      if n >= 256 { assert Big(n)[0] == Big(n / 256)[0]; }
    }
  }

  lemma {:induction false} NumBound(s: seq<octet>)
    ensures Num(s) < Pow(256, |s|)
  {
    if s != [] {
      NumBound(s[..|s| - 1]);
      PowStep(256, |s| - 1);
    }
  }

  /** No string of bytes that stands for n is shorter than Big(n). */
  lemma {:induction false} BigShortest(s: seq<octet>)
    ensures |Big(Num(s))| <= |s|
    ensures s != [] && s[0] > 0 ==> Big(Num(s)) == s
  {
    if s != [] {
      var t := s[..|s| - 1];
      BigShortest(t);
      DivModUnique(Num(s), 256, Num(t), s[|s| - 1]);
      if Num(s) == 0 {
        if s[0] > 0 { FirstNonzero(s); }
      } else if s[0] > 0 && t != [] {
        assert t[0] == s[0];
        assert s == t + [s[|s| - 1]];
      }
    }
  }

  lemma {:induction false} FirstNonzero(s: seq<octet>)
    requires s != [] && s[0] > 0
    ensures Num(s) > 0
  {
    if |s| > 1 { FirstNonzero(s[..|s| - 1]); }
  }

  lemma {:induction false} NumZero(s: seq<octet>)
    ensures Num([0] + s) == Num(s)
  {
    if s == [] {
      assert [0] + s == [] + [0];
      NumPush([], 0);
    } else {
      NumZero(s[..|s| - 1]);
      assert [0] + s == ([0] + s[..|s| - 1]) + [s[|s| - 1]];
      NumPush([0] + s[..|s| - 1], s[|s| - 1]);
    }
  }

  // ----- lengths and tags

  /** The shortest form of a length. */
  function Length(n: nat): (s: seq<octet>)
    requires n <= 0xFFFF_FFFF
    ensures s != []
  {
    if n < 0x80 then [n] else
    BigFits(n);
    [0x80 + |Big(n)|] + Big(n)
  }

  lemma {:induction false} BigLength(n: nat, k: nat)
    requires n < Pow(256, k)
    ensures |Big(n)| <= k
    decreases k
  {
    if n != 0 {
      PowStep(256, k - 1);
      BigLength(n / 256, k - 1);
    }
  }

  lemma {:induction false} BigFits(n: nat)
    requires n <= 0xFFFF_FFFF
    ensures |Big(n)| <= 4
  {
    FourBytes();
    BigLength(n, 4);
  }

  /** Tag, length and content. */
  function Tlv(tag: octet, content: seq<octet>): seq<octet>
    requires |content| <= 0xFFFF_FFFF
  {
    [tag] + Length(|content|) + content
  }

  /** Reading a length at the front of a string that it must not exceed. */
  function ParseLen(s: seq<octet>): (r: Parsed<nat>)
    ensures r.Parsed? ==> 1 <= r.used && r.used + r.value <= |s|
  {
    if s == [] then Failed(OutOfData)
    else if s[0] < 0x80 then (var v: nat := s[0]; if v > |s| - 1 then Failed(OutOfData) else Parsed(v, 1))
    else
      var n: nat := s[0] - 0x80;
      if n == 0 || n > 4 then Failed(InvalidLength)
      else if |s| <= n then Failed(OutOfData)
      else if Num(s[1..n + 1]) > |s| - (n + 1) then Failed(OutOfData)
      else Parsed(Num(s[1..n + 1]), n + 1)
  }

  function ParseTag(s: seq<octet>, tag: octet): (r: Parsed<nat>)
    ensures r.Parsed? ==> 2 <= r.used && r.used + r.value <= |s|
  {
    if s == [] then Failed(OutOfData)
    else if s[0] != tag then Failed(UnexpectedTag)
    else
      var r := ParseLen(s[1..]);
      if r.Failed? then r else Parsed(r.value, r.used + 1)
  }

  /** A written length reads back, using up what was written. */
  lemma {:induction false} LengthReads(n: nat, rest: seq<octet>)
    requires n <= 0xFFFF_FFFF && n <= |rest|
    ensures ParseLen(Length(n) + rest) == Parsed(n, |Length(n)|)
  {
    var s := Length(n) + rest;
    if n >= 0x80 {
      BigFits(n);
      NumBig(n);
      assert s[1..|Big(n)| + 1] == Big(n);
    }
  }

  /** No accepted form of a length is shorter than the written one. */
  lemma {:induction false} LengthShortest(s: seq<octet>)
    requires ParseLen(s).Parsed?
    ensures ParseLen(s).value <= 0xFFFF_FFFF && |Length(ParseLen(s).value)| <= ParseLen(s).used
  {
    if s[0] >= 0x80 {
      var n: nat := s[0] - 0x80;
      var t := s[1..n + 1];
      NumBound(t);
      FourBytes();
      PowMonotone(256, n, 4);
      BigShortest(t);
      LengthOf(Num(t), n);
    }
  }

  lemma {:induction false} LengthOf(n: nat, k: nat)
    requires n <= 0xFFFF_FFFF && |Big(n)| <= k && k > 0
    ensures |Length(n)| <= k + 1
  {
  }

  lemma {:induction false} FourBytes()
    ensures Pow(256, 4) == 0x1_0000_0000
  {
    PowStep(256, 0); PowStep(256, 1); PowStep(256, 2); PowStep(256, 3);
  }

  lemma {:induction false} TagReads(tag: octet, content: seq<octet>, rest: seq<octet>)
    requires |content| <= 0xFFFF_FFFF
    ensures ParseTag(Tlv(tag, content) + rest, tag) == Parsed(|content|, |Tlv(tag, content)| - |content|)
  {
    LengthReads(|content|, content + rest);
    assert (Tlv(tag, content) + rest)[1..] == Length(|content|) + (content + rest);
  }

  lemma {:induction false} ContentOf(tag: octet, content: seq<octet>, rest: seq<octet>)
    requires |content| <= 0xFFFF_FFFF
    ensures (Tlv(tag, content) + rest)[|Tlv(tag, content)| - |content|..|Tlv(tag, content)|] == content
  {
  }

  // ----- integers

  /** Content of a non-negative integer: no leading zero bytes but one before a set top bit, and
      one for zero. */
  function IntContent(n: nat): (s: seq<octet>)
    ensures s != []
  {
    NumBig(n);
    if n == 0 || Big(n)[0] >= 0x80 then [0] + Big(n) else Big(n)
  }

  lemma {:induction false} IntContentIs(n: nat)
    ensures Num(IntContent(n)) == n && IntContent(n)[0] < 0x80
  {
    NumBig(n);
    NumZero(Big(n));
  }

  /** Number of zero bytes in front. */
  function LeadingZeros(s: seq<octet>): (k: nat)
    ensures k <= |s| && (forall i :: 0 <= i < k ==> s[i] == 0) && (k < |s| ==> s[k] != 0)
  {
    if s == [] || s[0] != 0 then 0 else 1 + LeadingZeros(s[1..])
  }

  /** The value of an integer content of at most 31 bits. */
  function IntOf(content: seq<octet>): Parsed<nat> {
    if content == [] || content[0] >= 0x80 then Failed(InvalidLength)
    else
      var digits := content[LeadingZeros(content)..];
      if |digits| > 4 || (|digits| == 4 && digits[0] >= 0x80) then Failed(InvalidLength)
      else Parsed(Num(digits), |content|)
  }

  /** Reading an integer of at most 31 bits. */
  function ParseInt(s: seq<octet>, tag: octet): Parsed<nat> {
    var r := ParseTag(s, tag);
    if r.Failed? then r
    else
      var v := IntOf(s[r.used..r.used + r.value]);
      if v.Failed? then v else Parsed(v.value, r.used + r.value)
  }

  lemma {:induction false} NumWithoutZeros(s: seq<octet>)
    ensures Num(s[LeadingZeros(s)..]) == Num(s)
  {
    if s != [] && s[0] == 0 {
      NumWithoutZeros(s[1..]);
      NumZero(s[1..]);
      assert [0] + s[1..] == s && s[1..][LeadingZeros(s[1..])..] == s[LeadingZeros(s)..];
    } else {
      assert s[0..] == s;
    }
  }

  lemma {:induction false} SmallInt(n: nat)
    requires n <= 0x7FFF_FFFF
    ensures |Big(n)| <= 4 && (|Big(n)| == 4 ==> Big(n)[0] < 0x80)
    ensures |IntContent(n)| <= 5 && LeadingZeros(Big(n)) == 0
    ensures IntContent(n)[LeadingZeros(IntContent(n))..] == Big(n)
  {
    BigFits(n);
    NumBig(n);
    if |Big(n)| == 4 {
      var b := Big(n);
      var m := n / 256;
      assert b[..3] == Big(m) && Big(m)[..2] == Big(m / 256) && Big(m / 256)[..1] == Big(m / 256 / 256);
      assert b[0] == m / 256 / 256 % 256;
    }
    assert ([0] + Big(n))[1..] == Big(n);
  }

  /** A written integer reads back. */
  lemma {:induction false} IntReads(n: nat, tag: octet, rest: seq<octet>)
    requires n <= 0x7FFF_FFFF
    ensures |IntContent(n)| <= 5
    ensures ParseInt(Tlv(tag, IntContent(n)) + rest, tag) == Parsed(n, |Tlv(tag, IntContent(n))|)
  {
    hide IntContent;
    SmallInt(n);
    var c := IntContent(n);
    TagReads(tag, c, rest);
    IntContentIs(n);
    NumBig(n);
    var s := Tlv(tag, c) + rest;
    var at := |Tlv(tag, c)| - |c|;
    assert s[at..at + |c|] == c && s[at] == c[0];
  }

  /** Reading an integer of any size. */
  function ParseMpi(s: seq<octet>): Parsed<nat> {
    var r := ParseTag(s, INTEGER);
    if r.Failed? then r else Parsed(Num(s[r.used..r.used + r.value]), r.used + r.value)
  }

  /** A written number of any size reads back. */
  lemma {:induction false} MpiReads(n: nat, rest: seq<octet>)
    requires |IntContent(n)| <= 0xFFFF_FFFF
    ensures ParseMpi(Tlv(INTEGER, IntContent(n)) + rest) == Parsed(n, |Tlv(INTEGER, IntContent(n))|)
  {
    hide IntContent;
    var c := IntContent(n);
    TagReads(INTEGER, c, rest);
    IntContentIs(n);
    ContentOf(INTEGER, c, rest);
  }

  // ----- bit strings

  /** A byte without its lowest bits. */
  function Masked(x: octet, unused: nat): (r: octet) {
    DivBounds(x, Pow(2, unused));
    x - x % Pow(2, unused)
  }

  /** Content of a bit string: the number of unused bits, and the bytes with those bits zero. */
  function BitContent(buf: seq<octet>, bits: nat): (s: seq<octet>)
    requires bits <= 8 * |buf|
    ensures |s| == (bits + 7) / 8 + 1
  {
    var n := (bits + 7) / 8;
    var unused := 8 * n - bits;
    [unused] + if n == 0 then [] else buf[..n - 1] + [Masked(buf[n - 1], unused)]
  }

  /** Bit i of a string, the first bit being the highest of the first byte. */
  function Bit(buf: seq<octet>, i: nat): (r: nat)
    requires i < 8 * |buf|
    ensures r <= 1
  {
    DivBounds(buf[i / 8], Pow(2, 7 - i % 8));
    buf[i / 8] / Pow(2, 7 - i % 8) % 2
  }

  lemma {:induction false} MaskedBit(x: octet, unused: nat, k: nat)
    requires unused <= k
    ensures 0 <= Masked(x, unused) / Pow(2, k) == x / Pow(2, k)
  {
    var p := Pow(2, unused);
    PowAdd(2, unused, k - unused);
    DivBounds(x, p);
    var y := x / p;
    assert Masked(x, unused) == y * p;
    DivMul(y, p);
    DivDiv(Masked(x, unused), p, Pow(2, k - unused));
    DivDiv(x, p, Pow(2, k - unused));
    DivBounds(x, Pow(2, k));
  }

  /** The bits of the content are the given ones, and the unused bits are zero. */
  lemma {:induction false} ContentBits(buf: seq<octet>, bits: nat, i: nat)
    requires bits <= 8 * |buf| && i < 8 * ((bits + 7) / 8)
    ensures Bit(BitContent(buf, bits)[1..], i) == if i < bits then Bit(buf, i) else 0
  {
    var n := (bits + 7) / 8;
    var unused := 8 * n - bits;
    var c := BitContent(buf, bits)[1..];
    var k := 7 - i % 8;
    if i / 8 < n - 1 {
      assert c[i / 8] == buf[i / 8];
    } else {
      assert i / 8 == n - 1 && c[i / 8] == Masked(buf[n - 1], unused);
      if i < bits {
        MaskedBit(buf[n - 1], unused, k);
      } else {
        ZeroBit(buf[n - 1], unused, k);
      }
    }
  }

  lemma {:induction false} ZeroBit(x: octet, unused: nat, k: nat)
    requires k < unused
    ensures 0 <= Masked(x, unused) / Pow(2, k) && Masked(x, unused) / Pow(2, k) % 2 == 0
  {
    var p, q := Pow(2, k), Pow(2, unused - k - 1);
    PowAdd(2, k, unused - k);
    PowStep(2, unused - k - 1);
    DivBounds(x, Pow(2, unused));
    var y := x / Pow(2, unused);
    assert Masked(x, unused) == y * Pow(2, unused);
    assert y * Pow(2, unused) == p * (2 * (q * y)) by { MulAssoc(p, 2 * q, y); MulAssoc(2, q, y); }
    MulMonotone(q, 0, y);
    DivMul(2 * (q * y), p);
    DivMul(q * y, 2);
  }

  /** The bits up to the last one that is set. */
  function TrimmedBits(buf: seq<octet>, bits: nat): (r: nat)
    requires bits <= 8 * |buf|
    ensures r <= bits && (forall i :: r <= i < bits ==> Bit(buf, i) == 0) && (r > 0 ==> Bit(buf, r - 1) == 1)
  {
    if bits == 0 || Bit(buf, bits - 1) == 1 then bits else TrimmedBits(buf, bits - 1)
  }

  /** Reading a bit string that makes up all of the string: unused bits and bytes. */
  function ParseBits(s: seq<octet>): Parsed<(nat, seq<octet>)> {
    var r := ParseTag(s, BIT_STRING);
    if r.Failed? then Failed(r.error)
    else if r.value < 1 then Failed(OutOfData)
    else if s[r.used] > 7 then Failed(InvalidLength)
    else if r.used + r.value != |s| then Failed(LengthMismatch)
    else Parsed((s[r.used], s[r.used + 1..]), |s|)
  }

  /** A written bit string reads back. */
  lemma {:induction false} BitsRead(buf: seq<octet>, bits: nat)
    requires bits <= 8 * |buf| && (bits + 7) / 8 < 0xFFFF_FFFF
    ensures var c := BitContent(buf, bits);
      ParseBits(Tlv(BIT_STRING, c)) == Parsed((8 * ((bits + 7) / 8) - bits, c[1..]), |Tlv(BIT_STRING, c)|)
  {
    var c := BitContent(buf, bits);
    var t := Tlv(BIT_STRING, c);
    TagReads(BIT_STRING, c, []);
    assert t + [] == t;
    var at := |t| - |c|;
    assert t[at..] == c;
    assert t[at] == c[0] && t[at + 1..] == c[1..];
  }

  // ----- sequences

  datatype Element = Element(tag: octet, content: seq<octet>)

  predicate Small(es: seq<Element>) {
    forall i :: 0 <= i < |es| ==> |es[i].content| <= 0xFFFF_FFFF
  }

  function Concat(es: seq<Element>): seq<octet>
    requires Small(es)
  {
    if es == [] then [] else Tlv(es[0].tag, es[0].content) + Concat(es[1..])
  }

  /** Reading an element with any tag. */
  function ParseElement(s: seq<octet>): (r: Parsed<Element>)
    requires s != []
    ensures r.Parsed? ==> 0 < r.used <= |s| && r.value.tag == s[0]
  {
    var r := ParseLen(s[1..]);
    if r.Failed? then Failed(r.error)
    else Parsed(Element(s[0], s[1 + r.used..1 + r.used + r.value]), 1 + r.used + r.value)
  }

  /** Reading the elements of a sequence up to the end of the string. */
  function ParseElements(s: seq<octet>): Parsed<seq<Element>>
    decreases |s|
  {
    if s == [] then Parsed([], 0)
    else
      var e := ParseElement(s);
      if e.Failed? then Failed(e.error)
      else
        var rest := ParseElements(s[e.used..]);
        if rest.Failed? then rest else Parsed([e.value] + rest.value, |s|)
  }

  /** Written elements read back. */
  lemma {:induction false} ElementsRead(es: seq<Element>)
    requires Small(es)
    ensures ParseElements(Concat(es)) == Parsed(es, |Concat(es)|)
  {
    if es != [] {
      var e, rest := es[0], Concat(es[1..]);
      ElementsRead(es[1..]);
      FirstElement(e, rest);
      assert es == [e] + es[1..];
    }
  }

  lemma {:induction false} FirstElement(e: Element, rest: seq<octet>)
    requires |e.content| <= 0xFFFF_FFFF
    ensures var s := Tlv(e.tag, e.content) + rest;
      ParseElement(s) == Parsed(e, |Tlv(e.tag, e.content)|) && s[|Tlv(e.tag, e.content)|..] == rest
  {
    hide Length;
    var s := Tlv(e.tag, e.content) + rest;
    LengthReads(|e.content|, e.content + rest);
    assert s[1..] == Length(|e.content|) + (e.content + rest);
    var at := 1 + |Length(|e.content|)|;
    assert s[at..at + |e.content|] == e.content;
  }
}
