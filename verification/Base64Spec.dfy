/** What Base64 encoding and decoding mean (base64.c; RFC 4648, section 4). */
module Base64Spec {
  import opened Octets

  /** One of the 64 digits. */
  type digit = x: nat | x < 64

  const LF: octet := 10
  const CR: octet := 13
  const SPACE: octet := 32
  const EQUALS: octet := 61

  function EncChar(value: octet): octet {
    if value <= 25 then 65 + value
    else if value <= 51 then 97 + value - 26
    else if value <= 61 then 48 + value - 52
    else if value == 62 then 43
    else if value == 63 then 47
    else 0
  }

  function DecValue(c: octet): (v: int)
    ensures v < 64
  {
    if 65 <= c <= 90 then c - 65
    else if 97 <= c <= 122 then c - 97 + 26
    else if 48 <= c <= 57 then c - 48 + 52
    else if c == 43 then 62
    else if c == 47 then 63
    else -1
  }

  /** The two maps are inverse on the 64 digits and the 64 characters. */
  lemma {:induction false} DigitsAndCharacters(v: octet, c: octet)
    ensures v < 64 ==> DecValue(EncChar(v)) == v
    ensures DecValue(c) >= 0 ==> EncChar(DecValue(c)) == c
  {
  }

  // ----- what encoding and decoding mean

  /** Digits of three bytes. */
  function Digits(a: octet, b: octet, c: octet): seq<digit> {
    [a / 4, a % 4 * 16 + b / 16, b % 16 * 4 + c / 64, c % 64]
  }

  function Chars(d: seq<digit>): (r: seq<octet>)
    ensures |r| == |d|
  {
    if d == [] then [] else [EncChar(d[0])] + Chars(d[1..])
  }

  /** The characters for a string of bytes. */
  function Encoded(s: seq<octet>): seq<octet> {
    if s == [] then []
    else if |s| == 1 then Chars(Digits(s[0], 0, 0)[..2]) + [EQUALS, EQUALS]
    else if |s| == 2 then Chars(Digits(s[0], s[1], 0)[..3]) + [EQUALS]
    else Chars(Digits(s[0], s[1], s[2])) + Encoded(s[3..])
  }

  lemma {:induction false} EncodedLength(s: seq<octet>)
    ensures |Encoded(s)| == (|s| + 2) / 3 * 4
  {
    if |s| >= 3 { EncodedLength(s[3..]); }
  }

  /** The digits in front of a text's padding, and the length of the padding. */
  datatype Scanned = Scanned(digits: seq<digit>, equals: nat) | Malformed

  function Prepend(d: seq<digit>, r: Scanned): Scanned {
    if r == Malformed then Malformed else Scanned(d + r.digits, r.equals)
  }

  predicate LineBreak(s: seq<octet>) {
    s != [] && (s[0] == LF || (|s| >= 2 && s[0] == CR && s[1] == LF))
  }

  /** Reading a text, after e padding characters and possibly after spaces. Line breaks are
      skipped, and spaces before line breaks and at the end. */
  function Scan(s: seq<octet>, spaces: bool, e: nat): (r: Scanned)
    requires e <= 2
    ensures r.Scanned? ==> r.equals <= 2
    decreases |s|
  {
    if s == [] then Scanned([], e)
    else if s[0] == SPACE then Scan(s[1..], true, e)
    else if LineBreak(s) then Scan(s[1..], false, e)
    else if spaces then Malformed
    else if s[0] == EQUALS then (if e == 2 then Malformed else Scan(s[1..], false, e + 1))
    else if e != 0 || DecValue(s[0]) < 0 then Malformed
    else Prepend([DecValue(s[0])], Scan(s[1..], false, e))
  }

  /** First, second and third byte of a group of digits. */
  function First(a: nat, b: nat): octet
    requires a < 64 && b < 64
  {
    a * 4 + b / 16
  }

  function Second(b: nat, c: nat): octet
    requires b < 64 && c < 64
  {
    b % 16 * 16 + c / 4
  }

  function Third(c: nat, d: nat): octet
    requires c < 64 && d < 64
  {
    c % 4 * 64 + d
  }

  /** The bytes that digits stand for: three for four, fewer for a rest of three or two. */
  function Grouped(d: seq<digit>): (r: seq<octet>)
    ensures |r| == |d| / 4 * 3 + (if |d| % 4 == 3 then 2 else if |d| % 4 == 2 then 1 else 0)
  {
    if |d| < 2 then []
    else if |d| == 2 then [First(d[0], d[1])]
    else if |d| == 3 then [First(d[0], d[1]), Second(d[1], d[2])]
    else [First(d[0], d[1]), Second(d[1], d[2]), Third(d[2], d[3])] + Grouped(d[4..])
  }

  /** Digits and padding fill up groups of four, and no digit stands alone. */
  predicate Complete(r: Scanned) {
    r.Scanned? && |r.digits| % 4 != 1 && (|r.digits| + r.equals) % 4 == 0
  }

  // ----- decoding undoes encoding

  lemma {:induction false} ScanDigit(v: digit, s: seq<octet>)
    ensures Scan([EncChar(v)] + s, false, 0) == Prepend([v], Scan(s, false, 0))
  {
    var t := [EncChar(v)] + s;
    DigitsAndCharacters(v, 0);
    assert t[1..] == s && !LineBreak(t);
  }

  lemma {:induction false} PrependTwice(a: seq<digit>, b: seq<digit>, r: Scanned)
    ensures Prepend(a, Prepend(b, r)) == Prepend(a + b, r) && Prepend([], r) == r
  {
    if r.Scanned? {
      assert a + (b + r.digits) == a + b + r.digits;
    }
  }

  lemma {:induction false} ScanDigits(d: seq<digit>, s: seq<octet>)
    ensures Scan(Chars(d) + s, false, 0) == Prepend(d, Scan(s, false, 0))
  {
    var r := Scan(s, false, 0);
    if d == [] {
      assert Chars(d) + s == s;
      PrependTwice([], [], r);
    } else {
      var rest := Chars(d[1..]) + s;
      ScanDigits(d[1..], s);
      ScanDigit(d[0], rest);
      PrependTwice([d[0]], d[1..], r);
      assert [d[0]] + d[1..] == d;
      assert Chars(d) + s == [EncChar(d[0])] + rest;
    }
  }

  lemma {:induction false} ScanPadding()
    ensures Scan([], false, 0) == Scanned([], 0) && Scan([EQUALS], false, 0) == Scanned([], 1)
    ensures Scan([EQUALS, EQUALS], false, 0) == Scanned([], 2)
  {
    assert Scan([], false, 2) == Scanned([], 2) && Scan([], false, 1) == Scanned([], 1);
    assert [EQUALS][1..] == [] && [EQUALS, EQUALS][1..] == [EQUALS];
    assert Scan([EQUALS], false, 1) == Scanned([], 2);
  }

  /** Three bytes come back out of their four digits. */
  lemma {:induction false} BytesBack(a: octet, b: octet, c: octet)
    ensures First(a / 4, a % 4 * 16 + b / 16) == a
    ensures Second(a % 4 * 16 + b / 16, b % 16 * 4 + c / 64) == b
    ensures Third(b % 16 * 4 + c / 64, c % 64) == c
  {
  }

  lemma {:induction false} GroupedBytes(a: octet, b: octet, c: octet, rest: seq<digit>)
    ensures Grouped(Digits(a, b, c) + rest) == [a, b, c] + Grouped(rest)
  {
    BytesBack(a, b, c);
    OneGroup(Digits(a, b, c));
    GroupedAppend(Digits(a, b, c), rest);
  }

  lemma {:induction false} GroupedTwo(d: seq<digit>)
    requires |d| == 2
    ensures Grouped(d) == [First(d[0], d[1])]
  {
  }

  lemma {:induction false} GroupedThree(d: seq<digit>)
    requires |d| == 3
    ensures Grouped(d) == [First(d[0], d[1]), Second(d[1], d[2])]
  {
  }

  lemma {:induction false} GroupedFewer(a: octet, b: octet)
    ensures Grouped(Digits(a, 0, 0)[..2]) == [a] && Grouped(Digits(a, b, 0)[..3]) == [a, b]
  {
    hide First, Second, Third, Grouped;
    BytesBack(a, b, 0);
    BytesBack(a, 0, 0);
    GroupedTwo(Digits(a, 0, 0)[..2]);
    GroupedThree(Digits(a, b, 0)[..3]);
  }

  lemma {:induction false} ScanOne(a: octet)
    ensures var r := Scan(Encoded([a]), false, 0); Complete(r) && Grouped(r.digits) == [a]
  {
    var d := Digits(a, 0, 0)[..2];
    ScanPadding();
    ScanDigits(d, [EQUALS, EQUALS]);
    assert Prepend(d, Scanned([], 2)).digits == d;
    GroupedFewer(a, 0);
  }

  lemma {:induction false} ScanTwo(a: octet, b: octet)
    ensures var r := Scan(Encoded([a, b]), false, 0); Complete(r) && Grouped(r.digits) == [a, b]
  {
    var d := Digits(a, b, 0)[..3];
    ScanPadding();
    ScanDigits(d, [EQUALS]);
    assert Prepend(d, Scanned([], 1)).digits == d;
    GroupedFewer(a, b);
  }

  lemma {:induction false} CompleteMore(d: seq<digit>, r: Scanned)
    requires |d| == 4 && Complete(r)
    ensures Complete(Prepend(d, r))
  {
    var n := |r.digits|;
    assert |d + r.digits| == n + 4;
  }

  lemma {:induction false} ScanGroup(a: octet, b: octet, c: octet, t: seq<octet>)
    requires Complete(Scan(t, false, 0))
    ensures var r := Scan(Chars(Digits(a, b, c)) + t, false, 0);
      Complete(r) && Grouped(r.digits) == [a, b, c] + Grouped(Scan(t, false, 0).digits)
  {
    var d, r := Digits(a, b, c), Scan(t, false, 0);
    ScanDigits(d, t);
    CompleteMore(d, r);
    GroupedBytes(a, b, c, r.digits);
  }

  /** Scanning an encoding gives digits that stand for the bytes. */
  lemma {:induction false} ScanEncoded(s: seq<octet>)
    ensures var r := Scan(Encoded(s), false, 0); Complete(r) && Grouped(r.digits) == s
  {
    if s == [] {
      ScanPadding();
    } else if |s| == 1 {
      ScanOne(s[0]);
      assert s == [s[0]];
    } else if |s| == 2 {
      ScanTwo(s[0], s[1]);
      assert s == [s[0], s[1]];
    } else {
      ScanEncoded(s[3..]);
      ScanGroup(s[0], s[1], s[2], Encoded(s[3..]));
      assert s == [s[0], s[1], s[2]] + s[3..];
    }
  }

  // ----- line breaks

  /** Any number of line breaks, each of which may follow spaces. */
  predicate Breaks(x: seq<octet>, spaces: bool)
    decreases |x|
  {
    if x == [] then !spaces
    else if x[0] == SPACE then Breaks(x[1..], true)
    else if x[0] == LF then Breaks(x[1..], false)
    else |x| >= 2 && x[0] == CR && x[1] == LF && Breaks(x[2..], false)
  }

  lemma {:induction false} ScanSkips(x: seq<octet>, s: seq<octet>, spaces: bool, e: nat)
    requires Breaks(x, spaces) && e <= 2
    ensures Scan(x + s, spaces, e) == Scan(s, false, e)
    decreases |x|
  {
    var t := x + s;
    if x == [] {
      assert t == s;
    } else if x[0] == CR {
      var u := t[1..];
      assert u[1..] == x[2..] + s && u[0] == LF;
      ScanSkips(x[2..], s, false, e);
    } else {
      assert t[1..] == x[1..] + s;
      ScanSkips(x[1..], s, x[0] == SPACE, e);
    }
  }

  /** A text with something in front of each of its characters and at its end. */
  function Interleave(t: seq<octet>, x: seq<seq<octet>>): seq<octet>
    requires |x| == |t| + 1
  {
    if t == [] then x[0] else x[0] + ([t[0]] + Interleave(t[1..], x[1..]))
  }

  /** Line breaks anywhere in a text without white space change nothing. */
  lemma {:induction false} LineBreaksDoNotMatter(t: seq<octet>, x: seq<seq<octet>>, e: nat)
    requires |x| == |t| + 1 && (forall i :: 0 <= i < |x| ==> Breaks(x[i], false)) && e <= 2
    requires forall i :: 0 <= i < |t| ==> t[i] != SPACE && t[i] != LF && t[i] != CR
    ensures Scan(Interleave(t, x), false, e) == Scan(t, false, e)
    decreases |t|
  {
    if t == [] {
      ScanSkips(x[0], [], false, e);
      assert x[0] + [] == x[0];
    } else {
      var rest := Interleave(t[1..], x[1..]);
      var u := [t[0]] + rest;
      ScanSkips(x[0], u, false, e);
      assert u[1..] == rest && !LineBreak(u) && !LineBreak(t);
      LineBreaksDoNotMatter(t[1..], x[1..], e);
      if t[0] == EQUALS && e < 2 { LineBreaksDoNotMatter(t[1..], x[1..], e + 1); }
    }
  }

  lemma {:induction false} CharsArePlain(d: seq<digit>)
    ensures forall i :: 0 <= i < |d| ==> Chars(d)[i] != SPACE && Chars(d)[i] != LF && Chars(d)[i] != CR
  {
    if d != [] { CharsArePlain(d[1..]); }
  }

  lemma {:induction false} EncodedIsPlain(s: seq<octet>)
    ensures forall i :: 0 <= i < |Encoded(s)| ==> Encoded(s)[i] != SPACE && Encoded(s)[i] != LF && Encoded(s)[i] != CR
  {
    if |s| == 1 {
      CharsArePlain(Digits(s[0], 0, 0)[..2]);
    } else if |s| == 2 {
      CharsArePlain(Digits(s[0], s[1], 0)[..3]);
    } else if |s| >= 3 {
      CharsArePlain(Digits(s[0], s[1], s[2]));
      EncodedIsPlain(s[3..]);
    }
  }

  /** Decoding an encoding with line breaks anywhere gives the bytes back. */
  lemma {:induction false} DecodingUndoesEncoding(s: seq<octet>, x: seq<seq<octet>>)
    requires |x| == |Encoded(s)| + 1 && forall i :: 0 <= i < |x| ==> Breaks(x[i], false)
    ensures var r := Scan(Interleave(Encoded(s), x), false, 0); Complete(r) && Grouped(r.digits) == s
  {
    EncodedIsPlain(s);
    LineBreaksDoNotMatter(Encoded(s), x, 0);
    ScanEncoded(s);
  }

  /** The number that digits stand for. */
  function Number(d: seq<digit>): nat {
    if d == [] then 0 else Number(d[..|d| - 1]) * 64 + d[|d| - 1]
  }

  lemma {:induction false} CharsAt(d: seq<digit>, i: nat)
    requires i < |d|
    ensures Chars(d)[i] == EncChar(d[i])
  {
    if i > 0 { CharsAt(d[1..], i - 1); }
  }

  lemma {:induction false} OneGroup(d: seq<digit>)
    requires |d| == 4
    ensures Grouped(d) == [First(d[0], d[1]), Second(d[1], d[2]), Third(d[2], d[3])]
  {
    assert d[4..] == [];
  }

  lemma {:induction false} GroupedStep(a: seq<digit>)
    requires |a| >= 4
    ensures Grouped(a) == Grouped(a[..4]) + Grouped(a[4..])
  {
    assert a[..4][4..] == [];
  }

  lemma {:induction false} GroupedAppend(a: seq<digit>, b: seq<digit>)
    requires |a| % 4 == 0
    ensures Grouped(a + b) == Grouped(a) + Grouped(b)
    decreases |a|
  {
    if a == [] {
      assert a + b == b;
    } else {
      var g, rest := a[..4], a[4..];
      assert (a + b)[4..] == rest + b && (a + b)[..4] == g;
      GroupedAppend(rest, b);
      GroupedStep(a);
      GroupedStep(a + b);
      Associate(Grouped(g), Grouped(rest), Grouped(b));
    }
  }

  lemma {:induction false} Associate(a: seq<octet>, b: seq<octet>, c: seq<octet>)
    ensures a + (b + c) == a + b + c
  {
  }

  function Next(x: nat, d: nat): nat { x * 64 + d }

  lemma {:induction false} NumberOf(d: seq<digit>)
    ensures |d| == 2 ==> Number(d) == Next(d[0], d[1])
    ensures |d| == 3 ==> Number(d) == Next(Next(d[0], d[1]), d[2])
    ensures |d| == 4 ==> Number(d) == Next(Next(Next(d[0], d[1]), d[2]), d[3])
  {
    if |d| >= 2 { NumberStep(d, 0); NumberStep(d, 1); }
    if |d| >= 3 { NumberStep(d, 2); }
    if |d| == 4 { NumberStep(d, 3); }
    if 2 <= |d| <= 4 { assert d[..|d|] == d; }
  }

  lemma {:induction false} NumberStep(d: seq<digit>, i: nat)
    requires i < |d|
    ensures Number(d[..i + 1]) == Number(d[..i]) * 64 + d[i] && Number(d[..0]) == 0
  {
    assert d[..i + 1][..i] == d[..i];
  }

  lemma {:induction false} FourChars(d: seq<digit>)
    requires |d| == 4
    ensures Chars(d) == [EncChar(d[0]), EncChar(d[1]), EncChar(d[2]), EncChar(d[3])]
    ensures Chars(d[..3]) == [EncChar(d[0]), EncChar(d[1]), EncChar(d[2])]
    ensures Chars(d[..2]) == [EncChar(d[0]), EncChar(d[1])]
  {
    CharsAt(d, 0); CharsAt(d, 1); CharsAt(d, 2); CharsAt(d, 3);
    CharsAt(d[..3], 0); CharsAt(d[..3], 1); CharsAt(d[..3], 2);
    CharsAt(d[..2], 0); CharsAt(d[..2], 1);
  }
}
