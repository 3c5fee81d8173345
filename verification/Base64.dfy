/** Base64 encoding and decoding through buffers (base64.c). */
module Base64 {
  import opened Arith
  import opened Octets
  import opened Base64Spec
  import opened Base64Text

  const SIZE_MAX: nat := 0xFFFF_FFFF_FFFF_FFFF

  datatype Outcome = Done | BufferTooSmall | InvalidCharacter

  // ----- the encoder

  /** Write characters at a place in the buffer. */
  method PutChars(dst: array<octet>, at: nat, s: seq<octet>)
    requires at + |s| <= dst.Length
    modifies dst
    ensures dst[..at + |s|] == old(dst[..at]) + s
  {
    forall i | 0 <= i < |s| {
      dst[at + i] := s[i];
    }
  }

  /** Three bytes to four characters. */
  method EncodeGroup(dst: array<octet>, p: nat, C1: octet, C2: octet, C3: octet)
    requires p + 4 <= dst.Length
    modifies dst
    ensures dst[..p + 4] == old(dst[..p]) + Chars(Digits(C1, C2, C3))
  {
    FourChars(Digits(C1, C2, C3));
    PutChars(dst, p, [EncChar(C1 / 4), EncChar(C1 % 4 * 16 + C2 / 16),
                      EncChar(C2 % 16 * 4 + C3 / 64), EncChar(C3 % 64)]);
  }

  /** One or two bytes to characters and padding. */
  method EncodeRest(dst: array<octet>, p: nat, s: seq<octet>)
    requires 1 <= |s| <= 2 && p + 4 <= dst.Length
    modifies dst
    ensures dst[..p + 4] == old(dst[..p]) + Encoded(s)
  {
    var C1 := s[0];
    var C2: octet := if |s| == 2 then s[1] else 0;
    FourChars(Digits(C1, C2, 0));
    PutChars(dst, p, [EncChar(C1 / 4), EncChar(C1 % 4 * 16 + C2 / 16),
                      if |s| == 2 then EncChar(C2 % 16 * 4) else EQUALS, EQUALS]);
  }

  lemma {:induction false} EncodedStep(s: seq<octet>, i: nat)
    requires i + 3 <= |s|
    ensures Encoded(s[i..]) == Chars(Digits(s[i], s[i + 1], s[i + 2])) + Encoded(s[i + 3..])
  {
    assert s[i..][3..] == s[i + 3..];
  }

  /** Encode into a buffer that must also hold a final zero; says how much room is needed. */
  method Encode(dst: array<octet>, src: seq<octet>) returns (ret: Outcome, olen: nat)
    modifies dst
    ensures src == [] ==> ret == Done && olen == 0
    ensures src != [] ==> (ret == Done <==> (|src| + 2) / 3 <= (SIZE_MAX - 1) / 4 && |Encoded(src)| + 1 <= dst.Length)
    ensures src != [] && ret == Done ==> olen < dst.Length && dst[..olen] == Encoded(src) && dst[olen] == 0
    ensures ret != Done ==>
              ret == BufferTooSmall
              && olen == if (|src| + 2) / 3 > (SIZE_MAX - 1) / 4 then SIZE_MAX else |Encoded(src)| + 1
  {
    if |src| == 0 { return Done, 0; }
    EncodedLength(src);
    var n := |src| / 3 + if |src| % 3 != 0 then 1 else 0;
    if n > (SIZE_MAX - 1) / 4 { return BufferTooSmall, SIZE_MAX; }
    n := n * 4;
    if dst.Length < n + 1 { return BufferTooSmall, n + 1; }
    olen := EncodeInto(dst, src);
    dst[olen] := 0;
    ret := Done;
  }

  /** The encoding of the first i bytes is written. */
  ghost predicate Written(src: seq<octet>, i: nat, o: seq<octet>) {
    i <= |src| && o + Encoded(src[i..]) == Encoded(src)
  }

  function FullGroups(src: seq<octet>): (n: nat)
    ensures 3 * n <= |src| < 3 * n + 3
  {
    |src| / 3
  }

  method EncodeInto(dst: array<octet>, src: seq<octet>) returns (p: nat)
    requires src != [] && |Encoded(src)| < dst.Length
    modifies dst
    ensures p == |Encoded(src)| && dst[..p] == Encoded(src)
  {
    var i;
    i, p := EncodeGroups(dst, src);
    p := EncodeLast(dst, p, src, i);
  }

  /** All groups of three bytes. */
  method EncodeGroups(dst: array<octet>, src: seq<octet>) returns (i: nat, p: nat)
    requires |Encoded(src)| < dst.Length
    modifies dst
    ensures i <= |src| < i + 3 && p < dst.Length && Written(src, i, dst[..p])
  {
    var n := FullGroups(src) * 3;
    i, p := 0, 0;
    NothingWritten(src, dst[..0]);
    ghost var left := FullGroups(src);
    while i < n
      invariant i + 3 * left == n && p < dst.Length
      invariant Written(src, i, dst[..p])
      decreases left
    {
      EncodeNext(dst, p, src, i);
      i, p, left := i + 3, p + 4, left - 1;
    }
  }

  lemma {:induction false} NothingWritten(src: seq<octet>, o: seq<octet>)
    requires o == []
    ensures Written(src, 0, o)
  {
    assert src[0..] == src;
  }

  method EncodeNext(dst: array<octet>, p: nat, src: seq<octet>, i: nat)
    requires i + 3 <= |src| && p < dst.Length && Written(src, i, dst[..p]) && |Encoded(src)| < dst.Length
    modifies dst
    ensures p + 4 < dst.Length && Written(src, i + 3, dst[..p + 4])
  {
    ghost var o, c, rest := dst[..p], Chars(Digits(src[i], src[i + 1], src[i + 2])), Encoded(src[i + 3..]);
    EncodedStep(src, i);
    assert |o + (c + rest)| == p + 4 + |rest|;
    EncodeGroup(dst, p, src[i], src[i + 1], src[i + 2]);
    assert (o + c) + rest == o + (c + rest);
  }

  method EncodeLast(dst: array<octet>, p: nat, src: seq<octet>, i: nat) returns (p': nat)
    requires |src| < i + 3 && p < dst.Length && Written(src, i, dst[..p]) && |Encoded(src)| < dst.Length
    modifies dst
    ensures p' == |Encoded(src)| && dst[..p'] == Encoded(src)
  {
    p' := p;
    if i < |src| {
      EncodeRest(dst, p, src[i..]);
      p' := p + 4;
    } else {
      assert src[i..] == [];
    }
  }

  // ----- the decoder

  lemma {:induction false} ScanEnds(s: seq<octet>, spaces: bool, e: nat)
    requires e <= 2 && s == []
    ensures Scan(s, spaces, e) == Scanned([], e)
  {
  }

  /** What is left to read after `ds` and `equals` padding characters. */
  ghost predicate ToRead(src: seq<octet>, i: nat, spaces: bool, ds: seq<digit>, equals: nat) {
    i <= |src| && equals <= 2 && Scan(src, false, 0) == Prepend(ds, Scan(src[i..], spaces, equals))
  }

  lemma {:induction false} ReadStep(src: seq<octet>, i: nat, spaces: bool, ds: seq<digit>, equals: nat)
    requires ToRead(src, i, spaces, ds, equals) && i < |src|
    ensures src[i] == SPACE ==> ToRead(src, i + 1, true, ds, equals)
    ensures src[i] != SPACE && LineBreak(src[i..]) ==> ToRead(src, i + 1, false, ds, equals)
    ensures src[i] != SPACE && !LineBreak(src[i..]) ==>
      if spaces then Scan(src, false, 0) == Malformed
      else if src[i] == EQUALS then
        (if equals == 2 then Scan(src, false, 0) == Malformed else ToRead(src, i + 1, false, ds, equals + 1))
      else if equals != 0 || DecValue(src[i]) < 0 then Scan(src, false, 0) == Malformed
      else ToRead(src, i + 1, false, ds + [DecValue(src[i])], equals)
  {
    var t := src[i..];
    assert t[1..] == src[i + 1..];
    if t[0] != SPACE && !LineBreak(t) && !spaces && t[0] != EQUALS && equals == 0 && DecValue(t[0]) >= 0 {
      PrependTwice(ds, [DecValue(t[0])], Scan(t[1..], false, equals));
    }
  }

  /** First pass: count digits and padding characters, and check that they are in place. */
  method CheckAndCount(src: seq<octet>) returns (ok: bool, n: nat, equals: nat)
    ensures ok <==> Scan(src, false, 0).Scanned?
    ensures ok ==> Scan(src, false, 0).equals == equals && n == |Scan(src, false, 0).digits| + equals
  {
    n, equals := 0, 0;
    var i := 0;
    ghost var ds: seq<digit> := [];
    assert src[0..] == src;
    PrependTwice([], [], Scan(src, false, 0));
    while i < |src|
      invariant ToRead(src, i, false, ds, equals) && n == |ds| + equals
    {
      var spaces := false;
      while i < |src| && src[i] == SPACE
        invariant ToRead(src, i, spaces, ds, equals)
        decreases |src| - i
      {
        ReadStep(src, i, spaces, ds, equals);
        i := i + 1;
        spaces := true;
      }
      if i == |src| {
        ScanEnds(src[i..], spaces, equals);
        ScanEnds(src[i..], false, equals);
        break;
      }
      ReadStep(src, i, spaces, ds, equals);
      if (|src| - i >= 2 && src[i] == CR && src[i + 1] == LF) || src[i] == LF {
        i := i + 1;
        continue;
      }
      assert !LineBreak(src[i..]);
      if spaces || src[i] > 127 { return false, n, equals; }
      if src[i] == EQUALS {
        equals := equals + 1;
        if equals > 2 { return false, n, equals; }
      } else {
        if equals != 0 || DecValue(src[i]) < 0 { return false, n, equals; }
        ds := ds + [DecValue(src[i])];
      }
      n := n + 1;
      i := i + 1;
    }
    ScanEnds(src[i..], false, equals);
    assert ds + [] == ds;
    ok := true;
  }

  /** The digits up to the padding. */
  function Stop(s: seq<octet>): seq<digit> {
    if s == [] then []
    else if s[0] == CR || s[0] == LF || s[0] == SPACE then Stop(s[1..])
    else if s[0] == EQUALS || DecValue(s[0]) < 0 then []
    else [DecValue(s[0])] + Stop(s[1..])
  }

  lemma {:induction false} ScanStops(s: seq<octet>, spaces: bool, e: nat)
    requires e <= 2 && Scan(s, spaces, e).Scanned?
    ensures Scan(s, spaces, e).digits == if e == 0 then Stop(s) else []
    decreases |s|
  {
    if s != [] {
      if s[0] == SPACE {
        ScanStops(s[1..], true, e);
      } else if LineBreak(s) {
        ScanStops(s[1..], false, e);
      } else if s[0] == EQUALS {
        ScanStops(s[1..], false, e + 1);
      } else {
        ScanStops(s[1..], false, e);
      }
    }
  }

  /** Bytes 2, 1 and 0 of a 32-bit word. */
  function Byte2(x: nat): octet { x / 65536 % 256 }

  function Byte1(x: nat): octet { x / 256 % 256 }

  function Byte0(x: nat): octet { x % 256 }

  /** The low digits of the accumulator, which wraps around at 32 bits. */
  ghost predicate Accumulated(x: nat, part: seq<digit>) {
    match |part|
    case 0 => true
    case 1 => x % 64 == Number(part)
    case 2 => x % 4096 == Number(part)
    case 3 => x % 262144 == Number(part)
    case _ => x % 16777216 == Number(part)
  }

  function Shift(x: nat, k: nat): nat { x * k % 0x1_0000_0000 }

  lemma {:induction false} Accumulate(x: nat, part: seq<digit>, v: digit)
    requires Accumulated(x, part) && |part| <= 3
    ensures Accumulated(Shift(x, 64) + v, part + [v])
  {
    assert (part + [v])[..|part|] == part;
    NumberLow(x, v);
  }

  lemma {:induction false} NumberLow(x: nat, v: digit)
    ensures (Shift(x, 64) + v) % 64 == v && (Shift(x, 64) + v) % 4096 == x % 64 * 64 + v
    ensures (Shift(x, 64) + v) % 262144 == x % 4096 * 64 + v && (Shift(x, 64) + v) % 16777216 == x % 262144 * 64 + v
  {
    var m := x * 64 / 0x1_0000_0000;
    var y := Shift(x, 64) + v;
    assert y == x * 64 + v - m * 0x1_0000_0000;
    DivModUnique(y, 64, x - m * 0x400_0000, v);
    DivModUnique(y, 4096, x / 64 - m * 0x10_0000, x % 64 * 64 + v);
    DivModUnique(y, 262144, x / 4096 - m * 0x4000, x % 4096 * 64 + v);
    DivModUnique(y, 16777216, x / 262144 - m * 0x100, x % 262144 * 64 + v);
  }

  /** The three low bytes of a number given by its four low digits. */
  lemma {:induction false} BytesOf(x: nat, a: nat, b: nat, c: nat, e: nat)
    requires a < 64 && b < 64 && c < 64 && e < 64 && x % 16777216 == Next(Next(Next(a, b), c), e)
    ensures Byte2(x) == First(a, b) && Byte1(x) == Second(b, c) && Byte0(x) == Third(c, e)
  {
    var k, b1, b0, c1, c0 := x / 16777216, b / 16, b % 16, c / 4, c % 4;
    var high, mid, low := a * 4 + b1, b0 * 16 + c1, c0 * 64 + e;
    assert x == (k * 256 + high) * 65536 + mid * 256 + low;
    DivModUnique(x, 65536, k * 256 + high, mid * 256 + low);
    DivModUnique(k * 256 + high, 256, k, high);
    DivModUnique(x, 256, (k * 256 + high) * 256 + mid, low);
    DivModUnique((k * 256 + high) * 256 + mid, 256, k * 256 + high, mid);
  }

  lemma {:induction false} FourDigits(x: nat, d: seq<digit>)
    requires |d| == 4 && Accumulated(x, d)
    ensures Grouped(d) == [Byte2(x), Byte1(x), Byte0(x)]
  {
    NumberOf(d);
    BytesOf(x, d[0], d[1], d[2], d[3]);
    OneGroup(d);
  }

  /** Shifted up to four digits, the lowest being zero. */
  lemma {:induction false} FewerDigits(x: nat, d: seq<digit>)
    requires Accumulated(x, d)
    ensures |d| == 3 ==> Grouped(d) == [Byte2(Shift(x, 64)), Byte1(Shift(x, 64))]
    ensures |d| == 2 ==> Grouped(d) == [Byte2(Shift(x, 4096))]
  {
    NumberOf(d);
    if |d| == 3 {
      NumberLow(x, 0);
      BytesOf(Shift(x, 64), d[0], d[1], d[2], 0);
    }
    if |d| == 2 {
      TwoShifted(x);
      BytesOf(Shift(x, 4096), d[0], d[1], 0, 0);
    }
  }

  lemma {:induction false} TwoShifted(x: nat)
    ensures Shift(x, 4096) % 16777216 == x % 4096 * 4096
  {
    var k, r := x / 4096, x % 4096;
    var m, n := k / 256, k % 256;
    assert x * 4096 == (m * 256 + n) * 16777216 + r * 4096;
    DivModUnique(x * 4096, 0x1_0000_0000, m, n * 16777216 + r * 4096);
    DivModUnique(n * 16777216 + r * 4096, 16777216, n, r * 4096);
  }

  /** `full` digits are in the buffer, `part` in the accumulator, and the rest is still to come. */
  ghost predicate Decoding(d: seq<digit>, full: seq<digit>, part: seq<digit>, rest: seq<digit>, x: nat, o: seq<octet>) {
    && d == full + part + rest && |full| % 4 == 0 && |part| <= 3
    && Accumulated(x, part) && o == Grouped(full)
  }

  lemma {:induction false} OneDigit(d: seq<digit>, full: seq<digit>, part: seq<digit>, rest: seq<digit>, x: nat,
                                    o: seq<octet>)
    requires Decoding(d, full, part, rest, x, o) && rest != [] && |part| < 3
    ensures Decoding(d, full, part + [rest[0]], rest[1..], Shift(x, 64) + rest[0], o)
  {
    Accumulate(x, part, rest[0]);
    assert full + (part + [rest[0]]) + rest[1..] == d;
  }

  lemma {:induction false} FourthDigit(d: seq<digit>, full: seq<digit>, part: seq<digit>, rest: seq<digit>, x: nat,
                                       o: seq<octet>)
    requires Decoding(d, full, part, rest, x, o) && rest != [] && |part| == 3
    ensures var y := Shift(x, 64) + rest[0];
      Decoding(d, full + (part + [rest[0]]), [], rest[1..], y, o + [Byte2(y), Byte1(y), Byte0(y)])
  {
    hide Byte2, Byte1, Byte0, Shift, Grouped;
    var y, more := Shift(x, 64) + rest[0], part + [rest[0]];
    Accumulate(x, part, rest[0]);
    FourDigits(y, more);
    GroupedAppend(full, more);
    assert full + more + [] + rest[1..] == d;
    FullGroup(full, more);
  }

  lemma {:induction false} FullGroup(full: seq<digit>, more: seq<digit>)
    requires |full| % 4 == 0 && |more| == 4
    ensures |full + more| % 4 == 0
  {
  }

  /** Room for the next three bytes. */
  lemma {:induction false} RoomForGroup(d: seq<digit>, full: seq<digit>, part: seq<digit>, rest: seq<digit>, x: nat,
                                        o: seq<octet>)
    requires Decoding(d, full, part, rest, x, o) && rest != [] && |part| == 3
    ensures |o| + 3 <= |Grouped(d)|
  {
    var more := part + [rest[0]];
    assert d == full + more + rest[1..];
    GroupedAppend(full + more, rest[1..]);
    GroupedAppend(full, more);
  }

  lemma {:induction false} LastDigits(d: seq<digit>, full: seq<digit>, part: seq<digit>, x: nat, o: seq<octet>)
    requires Decoding(d, full, part, [], x, o)
    ensures |part| == 3 ==> Grouped(d) == o + [Byte2(Shift(x, 64)), Byte1(Shift(x, 64))]
    ensures |part| == 2 ==> Grouped(d) == o + [Byte2(Shift(x, 4096))]
    ensures |part| <= 1 ==> Grouped(d) == o
  {
    assert d == full + part;
    GroupedAppend(full, part);
    FewerDigits(x, part);
  }

  /** A digit goes into the accumulator; with four digits, three bytes are written. */
  method TakeDigit(dst: array<octet>, p: nat, x: nat, accumulated: nat, v: digit,
      ghost d: seq<digit>, ghost full: seq<digit>, ghost part: seq<digit>, ghost rest: seq<digit>)
    returns (p': nat, x': nat, accumulated': nat, ghost full': seq<digit>, ghost part': seq<digit>)
    requires p <= dst.Length && |Grouped(d)| <= dst.Length && accumulated == |part|
    requires Decoding(d, full, part, rest, x, dst[..p]) && rest != [] && v == rest[0]
    modifies dst
    ensures p' <= dst.Length && accumulated' == |part'| && Decoding(d, full', part', rest[1..], x', dst[..p'])
  {
    x' := Shift(x, 64);
    x' := x' + v;
    p', accumulated', full', part' := p, accumulated + 1, full, part + [v];
    if accumulated' == 4 {
      FourthDigit(d, full, part, rest, x, dst[..p]);
      RoomForGroup(d, full, part, rest, x, dst[..p]);
      accumulated', full', part' := 0, full + (part + [v]), [];
      PutChars(dst, p, [Byte2(x'), Byte1(x'), Byte0(x')]);
      p' := p + 3;
    } else {
      OneDigit(d, full, part, rest, x, dst[..p]);
    }
  }

  /** A rest of three or two digits. */
  method TakeRest(dst: array<octet>, p: nat, x: nat, accumulated: nat, ghost d: seq<digit>, ghost full: seq<digit>,
                  ghost part: seq<digit>)
    returns (p': nat)
    requires p <= dst.Length && |Grouped(d)| <= dst.Length && accumulated == |part|
    requires Decoding(d, full, part, [], x, dst[..p])
    modifies dst
    ensures p' == |Grouped(d)| && dst[..p'] == Grouped(d)
  {
    LastDigits(d, full, part, x, dst[..p]);
    p' := p;
    if accumulated == 3 {
      PutChars(dst, p, [Byte2(Shift(x, 64)), Byte1(Shift(x, 64))]);
      p' := p + 2;
    } else if accumulated == 2 {
      PutChars(dst, p, [Byte2(Shift(x, 4096))]);
      p' := p + 1;
    }
  }

  /** Nothing but digits, padding and white space. */
  ghost predicate Clean(s: seq<octet>) {
    forall i :: 0 <= i < |s| ==> s[i] == CR || s[i] == LF || s[i] == SPACE || s[i] == EQUALS || DecValue(s[i]) >= 0
  }

  /** Second pass: collect digits and write bytes. */
  method DecodeDigits(dst: array<octet>, src: seq<octet>) returns (p: nat)
    requires Clean(src) && |Grouped(Stop(src))| <= dst.Length
    modifies dst
    ensures p == |Grouped(Stop(src))| && dst[..p] == Grouped(Stop(src))
  {
    ghost var d := Stop(src);
    ghost var full: seq<digit>, part: seq<digit> := [], [];
    var x: nat, accumulated: nat, i := 0, 0, 0;
    p := 0;
    assert src[0..] == src && [] + [] + d == d;
    while i < |src| && src[i] != EQUALS
      invariant 0 <= i <= |src| && p <= dst.Length && accumulated == |part|
      invariant Decoding(d, full, part, Stop(src[i..]), x, dst[..p])
    {
      ghost var rest := Stop(src[i..]);
      StopStep(src, i);
      if src[i] != CR && src[i] != LF && src[i] != SPACE {
        p, x, accumulated, full, part := TakeDigit(dst, p, x, accumulated, DecValue(src[i]), d, full, part, rest);
      }
      i := i + 1;
    }
    p := TakeRest(dst, p, x, accumulated, d, full, part);
  }

  /** A text that has been scanned holds nothing but digits, padding and white space. */
  lemma {:induction false} ScanClean(s: seq<octet>, spaces: bool, e: nat)
    requires e <= 2 && Scan(s, spaces, e).Scanned?
    ensures Clean(s)
    decreases |s|
  {
    if s != [] {
      if s[0] == SPACE {
        ScanClean(s[1..], true, e);
      } else if LineBreak(s) {
        ScanClean(s[1..], false, e);
      } else if s[0] == EQUALS {
        ScanClean(s[1..], false, e + 1);
      } else {
        ScanClean(s[1..], false, e);
      }
      assert forall i :: 1 <= i < |s| ==> s[i] == s[1..][i - 1];
    }
  }

  lemma {:induction false} StopStep(src: seq<octet>, i: nat)
    requires i < |src|
    ensures src[i] == CR || src[i] == LF || src[i] == SPACE ==> Stop(src[i..]) == Stop(src[i + 1..])
    ensures src[i] != CR && src[i] != LF && src[i] != SPACE && src[i] != EQUALS && DecValue(src[i]) >= 0 ==>
      Stop(src[i..]) == [DecValue(src[i])] + Stop(src[i + 1..])
  {
    assert src[i..][1..] == src[i + 1..];
  }

  /** Decode a text. The length is computed before anything is written, and the second pass
      writes exactly that many bytes. */
  method Decode(dst: array<octet>, src: seq<octet>) returns (ret: Outcome, olen: nat)
    modifies dst
    ensures ret == InvalidCharacter <==> !Complete(Scan(src, false, 0))
    ensures ret != InvalidCharacter ==>
              olen == |Grouped(Scan(src, false, 0).digits)| && (ret == Done <==> olen <= dst.Length)
    ensures ret == Done ==> dst[..olen] == Grouped(Scan(src, false, 0).digits)
    ensures ret != Done ==> dst[..] == old(dst[..])
    ensures ret != InvalidCharacter <==>
            TextForm(src) && |Values(src)| % 4 != 1 && (|Values(src)| + multiset(src)[EQUALS]) % 4 == 0
    ensures ret == Done ==> dst[..olen] == Grouped(Values(src))
  {
    hide TextForm, Values, Grouped, Scan;
    AcceptedTexts(src);
    var ok, n, equals := CheckAndCount(src);
    if !ok { return InvalidCharacter, 0; }
    if (n - equals) % 4 == 1 { return InvalidCharacter, 0; }
    if n % 4 != 0 { return InvalidCharacter, 0; }
    ScanStops(src, false, 0);
    ScanClean(src, false, 0);
    CountOut(n, equals, Stop(src));
    olen := n / 4 * 3 - equals;
    if dst.Length < olen { return BufferTooSmall, olen; }
    var p := DecodeDigits(dst, src);
    assert olen == p;
    return Done, olen;
  }

  lemma {:induction false} CountOut(n: nat, equals: nat, d: seq<digit>)
    requires equals <= 2 && n == |d| + equals && n % 4 == 0 && |d| % 4 != 1
    ensures |Grouped(d)| == n / 4 * 3 - equals
  {
    var k := |d| / 4;
    assert |d| == 4 * k + |d| % 4;
  }

  /** Encoding into a buffer of the length it takes, and decoding what stands in front of the
      final zero. */
  method RoundTrip(src: seq<octet>) returns (text: array<octet>, ret: Outcome, olen: nat, back: array<octet>)
    requires (|src| + 2) / 3 <= (SIZE_MAX - 1) / 4
    ensures src != [] ==> text[..] == Encoded(src) + [0]
    ensures ret == Done && olen == |src| == back.Length && back[..] == src
  {
    hide TextForm, Values, Grouped, Scan, Encoded;
    EncodedLength(src);
    text := new octet[|Encoded(src)| + 1](_ => 0);
    ret, olen := Encode(text, src);
    ScanEncoded(src);
    assert text[..olen] == Encoded(src);
    back := new octet[|src|](_ => 0);
    ret, olen := Decode(back, text[..olen]);
  }
}
