/** Numbers as strings in a radix from 2 to 16 (bignum.c). */
module RadixStrings {
  import opened Arith
  import opened BitLength
  import opened MpiResult

  const HEX := "0123456789ABCDEF"
  const LOWER_HEX := "0123456789abcdef"

  // ----- digits

  /** The value of a digit, or -1 when it is no digit of the radix. */
  function GetDigit(radix: nat, c: char): (d: int)
    ensures radix <= 16 ==> -1 <= d < radix
  {
    var d := if '0' <= c <= '9' then (c - '0') as int
             else if 'A' <= c <= 'F' then (c - 'A') as int + 10
             else if 'a' <= c <= 'f' then (c - 'a') as int + 10
             else 255;
    if d >= radix then -1 else d
  }

  lemma {:induction false} DigitBack(radix: nat, r: nat)
    requires r < 16
    ensures GetDigit(radix, HEX[r]) == if r < radix then r else -1
  {
    assert HEX[0] == '0' && HEX[1] == '1' && HEX[2] == '2' && HEX[3] == '3' && HEX[4] == '4' && HEX[5] == '5';
    assert HEX[6] == '6' && HEX[7] == '7' && HEX[8] == '8' && HEX[9] == '9' && HEX[10] == 'A' && HEX[11] == 'B';
    assert HEX[12] == 'C' && HEX[13] == 'D' && HEX[14] == 'E' && HEX[15] == 'F';
  }

  lemma {:induction false} LowerDigitBack(radix: nat, r: nat)
    requires r < 16
    ensures GetDigit(radix, LOWER_HEX[r]) == if r < radix then r else -1
  {
    var L := LOWER_HEX;
    assert L[0] == '0' && L[1] == '1' && L[2] == '2' && L[3] == '3' && L[4] == '4' && L[5] == '5' && L[6] == '6';
    assert L[7] == '7' && L[8] == '8' && L[9] == '9' && L[10] == 'a' && L[11] == 'b' && L[12] == 'c';
    assert L[13] == 'd' && L[14] == 'e' && L[15] == 'f';
  }

  /** The digits of a radix are the first so many of the upper-case and the lower-case ones, each
      with its place as value, and there are no others. */
  lemma {:induction false} DigitsAre(radix: nat, c: char, r: nat)
    requires radix <= 16
    ensures GetDigit(radix, c) == r <==> r < radix && (c == HEX[r] || c == LOWER_HEX[r])
    ensures GetDigit(radix, c) < 0 <==> forall k: nat :: k < radix ==> c != HEX[k] && c != LOWER_HEX[k]
  {
    var d := GetDigit(radix, c);
    forall k: nat | k < radix ensures c == HEX[k] || c == LOWER_HEX[k] ==> d == k {
      DigitBack(radix, k);
      LowerDigitBack(radix, k);
    }
    if d >= 0 { DigitIs(radix, c); }
  }

  lemma {:induction false} DigitIs(radix: nat, c: char)
    requires radix <= 16 && GetDigit(radix, c) >= 0
    ensures c == HEX[GetDigit(radix, c)] || c == LOWER_HEX[GetDigit(radix, c)]
  {
    var L := LOWER_HEX;
    assert HEX[0] == '0' && HEX[1] == '1' && HEX[2] == '2' && HEX[3] == '3' && HEX[4] == '4' && HEX[5] == '5';
    assert HEX[6] == '6' && HEX[7] == '7' && HEX[8] == '8' && HEX[9] == '9' && HEX[10] == 'A' && HEX[11] == 'B';
    assert HEX[12] == 'C' && HEX[13] == 'D' && HEX[14] == 'E' && HEX[15] == 'F';
    assert L[10] == 'a' && L[11] == 'b' && L[12] == 'c' && L[13] == 'd' && L[14] == 'e' && L[15] == 'f';
  }

  predicate AllDigits(radix: nat, s: string) {
    forall i :: 0 <= i < |s| ==> GetDigit(radix, s[i]) >= 0
  }

  /** The number that a string of digits stands for. */
  function Num(radix: nat, s: string): nat
    requires AllDigits(radix, s)
  {
    if s == "" then 0 else Mul(radix, Num(radix, s[..|s| - 1])) + GetDigit(radix, s[|s| - 1])
  }

  lemma {:induction false} NumPush(radix: nat, a: string, c: char)
    requires AllDigits(radix, a) && GetDigit(radix, c) >= 0
    ensures AllDigits(radix, a + [c]) && Num(radix, a + [c]) == Mul(radix, Num(radix, a)) + GetDigit(radix, c)
  {
    assert (a + [c])[..|a|] == a;
  }

  lemma {:induction false} NumAppend(radix: nat, a: string, b: string)
    requires AllDigits(radix, a) && AllDigits(radix, b)
    ensures AllDigits(radix, a + b) && Num(radix, a + b) == Mul(Pow(radix, |b|), Num(radix, a)) + Num(radix, b)
  {
    if b == "" {
      assert a + b == a;
      MulUnit(Num(radix, a));
    } else {
      var n := |b| - 1;
      var c, x, y := b[..n], Num(radix, a), Num(radix, b[..n]);
      NumAppend(radix, a, c);
      NumPush(radix, a + c, b[n]);
      assert a + b == a + c + [b[n]];
      MulAdd(radix, Mul(Pow(radix, n), x), y);
      MulMul(radix, Pow(radix, n), x);
    }
  }

  lemma {:induction false} NumOne(radix: nat, r: nat)
    requires r < 16 && r < radix
    ensures AllDigits(radix, [HEX[r]]) && Num(radix, [HEX[r]]) == r
  {
    DigitBack(radix, r);
    MulUnit(radix);
    assert [HEX[r]][..0] == "";
  }

  /** What reading a string gives. */
  function Read(radix: int, s: string): Result<int> {
    if radix < 2 || radix > 16 then Err(BadInputData)
    else if s == "" then Ok(0)
    else
      var body := if s[0] == '-' then s[1..] else s;
      if !AllDigits(radix, body) then Err(InvalidCharacter)
      else if s[0] == '-' then Ok(0 - Num(radix, body)) else Ok(Num(radix, body))
  }

  // ----- reading

  /** Digits from left to right. */
  method ReadForward(radix: nat, s: string) returns (ok: bool, X: nat)
    ensures ok <==> AllDigits(radix, s)
    ensures ok ==> X == Num(radix, s)
  {
    X := 0;
    var i := 0;
    while i < |s|
      invariant 0 <= i <= |s| && AllDigits(radix, s[..i]) && X == Num(radix, s[..i])
    {
      var d := GetDigit(radix, s[i]);
      if d < 0 { return false, 0; }
      assert s[..i + 1][..i] == s[..i];
      X := Mul(radix, X) + d;
      i := i + 1;
    }
    assert s[..i] == s;
    ok := true;
  }

  /** Hexadecimal digits from right to left, each into its four bits. */
  method ReadHex(s: string) returns (ok: bool, X: nat)
    ensures ok <==> AllDigits(16, s)
    ensures ok ==> X == Num(16, s)
  {
    X := 0;
    var i, j := |s|, 0;
    while i > 0
      invariant i >= 0 && i + j == |s| && AllDigits(16, s[i..]) && X == Num(16, s[i..])
      decreases i
    {
      var d := GetDigit(16, s[i - 1]);
      if d < 0 { return false, 0; }
      assert s[i - 1..] == [s[i - 1]] + s[i..];
      OneDigit(16, s[i - 1]);
      NumAppend(16, [s[i - 1]], s[i..]);
      MulComm(d, Pow(16, j));
      X := X + Mul(d, Pow(16, j));
      i, j := i - 1, j + 1;
    }
    assert s[i..] == s;
    ok := true;
  }

  lemma {:induction false} OneDigit(radix: nat, c: char)
    requires GetDigit(radix, c) >= 0
    ensures AllDigits(radix, [c]) && Num(radix, [c]) == GetDigit(radix, c)
  {
    MulUnit(radix);
    assert [c][..0] == "";
  }

  method ReadString(radix: int, s: string) returns (res: Result<int>)
    ensures res == Read(radix, s)
  {
    if radix < 2 || radix > 16 { return Err(BadInputData); }
    if s == "" { return Ok(0); }
    var sign, digits := 1, s;
    if s[0] == '-' {
      digits := s[1..];
      sign := -1;
    }
    var ok, X;
    if radix == 16 {
      ok, X := ReadHex(digits);
    } else {
      ok, X := ReadForward(radix, digits);
    }
    if !ok { return Err(InvalidCharacter); }
    var value: int := X;
    return Ok(if sign < 0 && Bits(X) != 0 then 0 - value else value);
  }

  // ----- writing

  /** The digits of a number, most significant first. */
  function Text(x: nat, radix: nat): (s: string)
    requires 2 <= radix <= 16
    decreases x
  {
    if x < radix then [HEX[x]] else Text(x / radix, radix) + [HEX[x % radix]]
  }

  lemma {:induction false} TextIsNum(x: nat, radix: nat)
    requires 2 <= radix <= 16
    ensures AllDigits(radix, Text(x, radix)) && Num(radix, Text(x, radix)) == x
    decreases x
  {
    if x < radix {
      NumOne(radix, x);
    } else {
      DivBounds(x, radix);
      TextIsNum(x / radix, radix);
      NumOne(radix, x % radix);
      NumAppend(radix, Text(x / radix, radix), [HEX[x % radix]]);
      MulUnit(radix);
      MulIs(radix, x / radix);
    }
  }

  /** A number below radix^k has at most k digits. */
  lemma {:induction false} TextLength(x: nat, radix: nat, k: nat)
    requires 2 <= radix <= 16 && k > 0 && x < Pow(radix, k)
    ensures 0 < |Text(x, radix)| <= k
    decreases k
  {
    if x >= radix {
      PowStep(radix, k - 1);
      assert Pow(radix, 0) == 1;
      DivBounds(x, radix);
      DivLess(x, radix, Pow(radix, k - 1));
      TextLength(x / radix, radix, k - 1);
    }
  }

  /** Two hexadecimal digits for each of the k low bytes. */
  function HexBytes(x: nat, k: nat): (s: string)
    ensures |s| == 2 * k
  {
    if k == 0 then "" else HexBytes(x / 256, k - 1) + [HEX[x % 256 / 16], HEX[x % 16]]
  }

  lemma {:induction false} Nibbles(x: nat)
    ensures x == 16 * (16 * (x / 256) + x % 256 / 16) + x % 16
  {
  }

  lemma {:induction false} HexPair(h: string, c: nat, d: nat)
    requires AllDigits(16, h) && c < 16 && d < 16
    ensures AllDigits(16, h + [HEX[c], HEX[d]]) && Num(16, h + [HEX[c], HEX[d]]) == 16 * (16 * Num(16, h) + c) + d
  {
    DigitBack(16, c); DigitBack(16, d);
    NumPush(16, h, HEX[c]);
    NumPush(16, h + [HEX[c]], HEX[d]);
    assert h + [HEX[c], HEX[d]] == h + [HEX[c]] + [HEX[d]];
    MulIs(16, Num(16, h));
    MulIs(16, 16 * Num(16, h) + c);
  }

  lemma {:induction false} HexBytesNum(x: nat, k: nat)
    requires x < Pow(256, k)
    ensures AllDigits(16, HexBytes(x, k)) && Num(16, HexBytes(x, k)) == x
  {
    if k != 0 {
      PowStep(256, k - 1);
      HexBytesNum(x / 256, k - 1);
      HexPair(HexBytes(x / 256, k - 1), x % 256 / 16, x % 16);
      Nibbles(x);
    }
  }

  /** The bytes of a number without the leading zero bytes, but at least one of them if there
      are any. */
  function ByteCount(x: nat, bytes: nat): (m: nat)
    ensures m <= bytes
  {
    if bytes == 0 || bytes == 1 || x / Pow(256, bytes - 1) > 0 then bytes else ByteCount(x, bytes - 1)
  }

  lemma {:induction false} ByteCountIs(x: nat, bytes: nat)
    requires x < Pow(256, bytes)
    ensures x < Pow(256, ByteCount(x, bytes))
    ensures ByteCount(x, bytes) > 1 ==> Pow(256, ByteCount(x, bytes) - 1) <= x
  {
    if bytes > 1 {
      var p := Pow(256, bytes - 1);
      DivBounds(x, p);
      if x / p > 0 {
        DivLess(x, p, 1);
      } else {
        assert x == p * (x / p) + x % p;
        ByteCountIs(x, bytes - 1);
      }
    }
  }

  /** The string without sign. */
  function Body(x: nat, radix: nat, bytes: nat): string
    requires 2 <= radix <= 16
  {
    if radix == 16 then HexBytes(x, ByteCount(x, bytes)) else Text(x, radix)
  }

  function Magnitude(X: int): nat { if X < 0 then 0 - X else X }

  function Written(X: int, radix: nat, bytes: nat): string
    requires 2 <= radix <= 16
  {
    (if X < 0 then "-" else "") + Body(Magnitude(X), radix, bytes)
  }

  /** The buffer length that writing asks for. */
  function Needed(X: int, radix: nat): (n: nat) {
    var n := Bits(Magnitude(X));
    var n := if radix >= 4 then n / 2 else n;
    var n := if radix >= 16 then n / 2 else n;
    n + 3 + (n + 3) % 2
  }

  /** The string, with sign and final zero, never exceeds the length asked for. */
  lemma {:induction false} BodyFits(X: int, radix: nat, bytes: nat)
    requires 2 <= radix <= 16 && Magnitude(X) < Pow(256, bytes)
    ensures |Body(Magnitude(X), radix, bytes)| + 2 <= Needed(X, radix)
  {
    hide Bits, Text;
    var x := Magnitude(X);
    var bits := Bits(x);
    BitsRange(x);
    if radix == 16 {
      HexFits(x, bytes);
    } else if radix >= 4 {
      var k := bits / 2 + 1;
      PowMonotone(2, bits, 2 * k);
      PowPow(2, 2, k);
      MulIs(k, 2);
      PowBase(4, radix, k);
      assert Pow(2, 2) == 4 by { PowStep(2, 0); PowStep(2, 1); }
      TextLength(x, radix, k);
    } else {
      PowMonotone(2, bits, bits + 1);
      PowBase(2, radix, bits + 1);
      ShortText(x, radix, bits);
    }
  }

  lemma {:induction false} PowBase(a: nat, b: nat, k: nat)
    requires a <= b
    ensures Pow(a, k) <= Pow(b, k)
  {
    if k != 0 {
      PowBase(a, b, k - 1);
      MulLess(a, Pow(a, k - 1), Pow(b, k - 1));
      MulLess(Pow(b, k - 1), a, b);
    }
  }

  lemma {:induction false} ShortText(x: nat, radix: nat, bits: nat)
    requires 2 <= radix <= 3 && bits == Bits(x)
    ensures |Text(x, radix)| <= bits + 1
  {
    BitsRange(x);
    PowMonotone(2, bits, bits + 1);
    PowBase(2, radix, bits + 1);
    TextLength(x, radix, bits + 1);
  }

  lemma {:induction false} HexFits(x: nat, bytes: nat)
    requires x < Pow(256, bytes)
    ensures 2 * ByteCount(x, bytes) + 2 <= Needed(x, 16)
  {
    hide Pow;
    var m := ByteCount(x, bytes);
    ByteCountIs(x, bytes);
    if m > 1 {
      TwoFiftySix();
      PowPow(2, 8, m - 1);
      BitsFit(x, Mul(m - 1, 8));
      MulIs(m - 1, 8);
    }
    RoundedUp(Bits(x), m);
  }

  lemma {:induction false} TwoFiftySix()
    ensures Pow(2, 8) == 256
  {
    PowStep(2, 0); PowStep(2, 1); PowStep(2, 2); PowStep(2, 3);
    PowStep(2, 4); PowStep(2, 5); PowStep(2, 6); PowStep(2, 7);
  }

  lemma {:induction false} RoundedUp(bits: nat, m: nat)
    requires m > 1 ==> bits > 8 * (m - 1)
    ensures var n := bits / 2 / 2; 2 * m + 2 <= n + 3 + (n + 3) % 2
  {
  }

  /** Reading a written number gives it back, for every radix and every number. */
  lemma {:induction false} ReadWritten(X: int, radix: nat, bytes: nat)
    requires 2 <= radix <= 16 && Magnitude(X) < Pow(256, bytes)
    ensures Read(radix, Written(X, radix, bytes)) == Ok(X)
  {
    var x := Magnitude(X);
    var body, s := Body(x, radix, bytes), Written(X, radix, bytes);
    if radix == 16 {
      ByteCountIs(x, bytes);
      HexBytesNum(x, ByteCount(x, bytes));
    } else {
      TextIsNum(x, radix);
    }
    if X < 0 {
      assert s[1..] == body && s[0] == '-';
    } else {
      assert s == body;
      if s != "" { assert s[0] != '-'; }
    }
  }

  // ----- the writer

  method PutString(buf: array<char>, at: nat, s: string)
    requires at + |s| <= buf.Length
    modifies buf
    ensures buf[..at + |s|] == old(buf[..at]) + s
  {
    forall i | 0 <= i < |s| {
      buf[at + i] := s[i];
    }
  }

  /** Digits from the end of the space at `p` backwards, then moved to its front. The error is
      reported exactly when the digits do not fit. */
  method WriteHelper(X: nat, radix: nat, buf: array<char>, p: nat, buflen: nat) returns (ok: bool, p': nat)
    requires 2 <= radix <= 16 && p + buflen <= buf.Length
    modifies buf
    ensures ok <==> |Text(X, radix)| <= buflen
    ensures ok ==> p' == p + |Text(X, radix)| && buf[..p'] == old(buf[..p]) + Text(X, radix)
  {
    hide Text;
    var end := p + buflen;
    var length, x: nat, done := 0, X, false;
    ghost var head := buf[..p];
    while !done
      invariant 0 <= length <= buflen && buf[..p] == head
      invariant done ==> buf[end - length..end] == Text(X, radix)
      invariant !done ==> Text(X, radix) == Text(x, radix) + buf[end - length..end]
      decreases !done, x
    {
      TextStep(x, radix);
      if length >= buflen { return false, p; }
      ghost var tail := buf[end - length..end];
      DivBounds(x, radix);
      var r: nat := x % radix;
      x := x / radix;
      buf[end - length - 1] := HEX[r];
      length := length + 1;
      assert buf[end - length..end] == [HEX[r]] + tail;
      done := x == 0;
    }
    PutString(buf, p, buf[end - length..end]);
    return true, p + length;
  }

  lemma {:induction false} TextStep(x: nat, radix: nat)
    requires 2 <= radix <= 16
    ensures |Text(x, radix)| > 0 && 0 <= x / radix
    ensures Text(x, radix) == (if x / radix == 0 then "" else Text(x / radix, radix)) + [HEX[x % radix]]
  {
    DivBounds(x, radix);
    if x < radix {
      DivModUnique(x, radix, 0, x);
    } else {
      DivLess(x, radix, 1);
    }
  }

  /** Two digits of one byte. */
  function Pair(c: nat): string
    requires c < 256
  {
    [HEX[c / 16], HEX[c % 16]]
  }

  /** Byte i of a number. */
  function ByteAt(x: nat, i: nat): (c: nat)
    ensures c < 256
  {
    DivBounds(x, Pow(256, i));
    x / Pow(256, i) % 256
  }

  lemma {:induction false} HexTop(x: nat, i: nat)
    requires i > 0
    ensures HexBytes(x, i) == Pair(ByteAt(x, i - 1)) + HexBytes(x, i - 1)
  {
    if i == 1 {
      DivModUnique(x, 1, x, 0);
      LowPair(x);
    } else {
      HexTop(x / 256, i - 1);
      PowStep(256, i - 2);
      DivDiv(x, 256, Pow(256, i - 2));
      LowPair(x);
      assert Pair(ByteAt(x, i - 1)) + HexBytes(x / 256, i - 2) + Pair(x % 256)
          == Pair(ByteAt(x, i - 1)) + (HexBytes(x / 256, i - 2) + Pair(x % 256));
    }
  }

  lemma {:induction false} LowPair(x: nat)
    ensures Pair(x % 256) == [HEX[x % 256 / 16], HEX[x % 16]]
  {
    DivModUnique(x, 16, x / 256 * 16 + x % 256 / 16, x % 256 % 16);
  }

  /** Leading zero bytes are left out, but not the last byte. */
  lemma {:induction false} ByteCountStep(x: nat, i: nat)
    requires i > 0 && x < Pow(256, i)
    ensures ByteCount(x, i) == if ByteAt(x, i - 1) == 0 && i != 1 then ByteCount(x, i - 1) else i
    ensures ByteAt(x, i - 1) == 0 ==> x < Pow(256, i - 1)
  {
    var q := Pow(256, i - 1);
    PowStep(256, i - 1);
    DivBounds(x, q);
    DivLess(x, q, 256);
    DivModUnique(x / q, 256, 0, x / q);
    DivLess(x, q, 1);
  }

  /** i bytes are still to come: after leading zero bytes, or after the first digits. */
  ghost predicate HexState(X: nat, bytes: nat, i: nat, begun: bool, head: string, o: string) {
    && i <= bytes
    && if begun then i < ByteCount(X, bytes) && o + HexBytes(X, i) == head + HexBytes(X, ByteCount(X, bytes))
       else o == head && ByteCount(X, i) == ByteCount(X, bytes) && X < Pow(256, i)
  }

  lemma {:induction false} HexNext(X: nat, bytes: nat, i: nat, begun: bool, head: string, o: string)
    requires HexState(X, bytes, i, begun, head, o) && i > 0
    ensures var c := ByteAt(X, i - 1);
      if c == 0 && !begun && i != 1 then HexState(X, bytes, i - 1, begun, head, o)
      else HexState(X, bytes, i - 1, true, head, o + Pair(c))
  {
    HexTop(X, i);
    if !begun { ByteCountStep(X, i); }
    var c := ByteAt(X, i - 1);
    assert o + (Pair(c) + HexBytes(X, i - 1)) == o + Pair(c) + HexBytes(X, i - 1);
  }

  lemma {:induction false} HexRoom(X: nat, bytes: nat, i: nat, head: string, o: string)
    requires HexState(X, bytes, i, true, head, o)
    ensures |o| + 2 * i == |head| + 2 * ByteCount(X, bytes)
  {
    assert |o + HexBytes(X, i)| == |head + HexBytes(X, ByteCount(X, bytes))|;
  }

  /** Hexadecimal digits byte by byte from the top. */
  method WriteHex(X: nat, bytes: nat, buf: array<char>, p: nat) returns (p': nat)
    requires X < Pow(256, bytes) && p + 2 * ByteCount(X, bytes) <= buf.Length
    modifies buf
    ensures p' == p + 2 * ByteCount(X, bytes) && buf[..p'] == old(buf[..p]) + HexBytes(X, ByteCount(X, bytes))
  {
    var i, k := bytes, false;
    ghost var head := buf[..p];
    p' := p;
    while i > 0
      invariant 0 <= i && p' <= buf.Length && HexState(X, bytes, i, k, head, buf[..p'])
      decreases i
    {
      HexNext(X, bytes, i, k, head, buf[..p']);
      var c := ByteAt(X, i - 1);
      if !(c == 0 && !k && i != 1) {
        HexRoom(X, bytes, i - 1, head, buf[..p'] + Pair(c));
        PutString(buf, p', Pair(c));
        p' := p' + 2;
        k := true;
      }
      i := i - 1;
    }
    if k { HexRoom(X, bytes, 0, head, buf[..p']); }
    assert buf[..p'] + "" == buf[..p'] && head + "" == head;
  }

  /** Write a number; `bytes` is the number of bytes in its limbs. The buffer must have the
      length that is asked for, and is then long enough. */
  method WriteString(X: int, bytes: nat, radix: int, buf: array<char>) returns (res: Result<nat>, olen: nat)
    requires Magnitude(X) < Pow(256, bytes)
    modifies buf
    ensures res == (if radix < 2 || radix > 16 then Err(BadInputData)
                    else if buf.Length < Needed(X, radix) then Err(BufferTooSmall) else Ok(olen))
    ensures res == Err(BufferTooSmall) ==> olen == Needed(X, radix)
    ensures res.Ok? ==> olen <= buf.Length && buf[..olen] == Written(X, radix, bytes) + ['\0']
  {
    if radix < 2 || radix > 16 { return Err(BadInputData), 0; }
    var n := LengthAsked(X, radix);
    if buf.Length < n { return Err(BufferTooSmall), n; }
    BodyFits(X, radix, bytes);
    var p := WriteSigned(X, bytes, radix, buf);
    PutString(buf, p, ['\0']);
    olen := p + 1;
    res := Ok(olen);
  }

  method LengthAsked(X: int, radix: nat) returns (n: nat)
    ensures n == Needed(X, radix)
  {
    n := Bits(Magnitude(X));
    if radix >= 4 { n := n / 2; }
    if radix >= 16 { n := n / 2; }
    n := n + 1;
    n := n + 1;
    n := n + 1;
    n := n + n % 2;
  }

  method WriteSigned(X: int, bytes: nat, radix: nat, buf: array<char>) returns (p: nat)
    requires 2 <= radix <= 16 && Magnitude(X) < Pow(256, bytes) && |Body(Magnitude(X), radix, bytes)| + 2 <= buf.Length
    modifies buf
    ensures p == |Written(X, radix, bytes)| < buf.Length && buf[..p] == Written(X, radix, bytes)
  {
    var buflen := buf.Length;
    p := 0;
    if X < 0 {
      PutString(buf, 0, "-");
      p, buflen := p + 1, buflen - 1;
    }
    ghost var sign := buf[..p];
    assert sign == if X < 0 then "-" else "";
    if radix == 16 {
      p := WriteHex(Magnitude(X), bytes, buf, p);
    } else {
      var ok;
      ok, p := WriteHelper(Magnitude(X), radix, buf, p, buflen);
    }
  }

  /** Asking for the length, writing with a buffer of that length, and reading back. */
  method RoundTrip(X: int, bytes: nat, radix: nat) returns (text: array<char>, olen: nat, back: Result<int>)
    requires 2 <= radix <= 16 && Magnitude(X) < Pow(256, bytes)
    ensures text.Length == Needed(X, radix) && olen <= text.Length && text[..olen] == Written(X, radix, bytes) + ['\0']
    ensures back == Ok(X)
  {
    var none := new char[0];
    var res;
    res, olen := WriteString(X, bytes, radix, none);
    text := new char[olen](_ => ' ');
    res, olen := WriteString(X, bytes, radix, text);
    assert text[..olen - 1] == text[..olen][..olen - 1] == Written(X, radix, bytes);
    ReadWritten(X, radix, bytes);
    back := ReadString(radix, text[..olen - 1]);
  }
}
