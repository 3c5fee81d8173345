/** The alphabet of Base64, and what texts and bytes correspond, told by characters and bits
    (RFC 4648, section 4). */
module Base64Text {
  import opened Octets
  import opened Base64Spec

  const UPPER := "ABCDEFGHIJKLMNOPQRSTUVWXYZ"
  const LOWER := "abcdefghijklmnopqrstuvwxyz"
  const FIGURES := "0123456789"
  const ALPHABET := UPPER + LOWER + FIGURES + "+/"

  /** One character after the other, in the order of their codes. */
  predicate Runs(s: string, c: char) {
    forall i :: 0 <= i < |s| ==> s[i] as int == c as int + i
  }

  lemma {:induction false} UpperFront(i: nat)
    requires 0 <= i < 13
    ensures |UPPER| == 26 && UPPER[i] as int == 'A' as int + i
  {
    var s := UPPER;
    assert s[0] == 'A' && s[1] == 'B' && s[2] == 'C' && s[3] == 'D' && s[4] == 'E' && s[5] == 'F';
    assert s[6] == 'G' && s[7] == 'H' && s[8] == 'I' && s[9] == 'J' && s[10] == 'K' && s[11] == 'L';
    assert s[12] == 'M';
  }

  lemma {:induction false} UpperBack(i: nat)
    requires 13 <= i < 26
    ensures |UPPER| == 26 && UPPER[i] as int == 'A' as int + i
  {
    var s := UPPER;
    assert s[13] == 'N' && s[14] == 'O' && s[15] == 'P' && s[16] == 'Q' && s[17] == 'R' && s[18] == 'S';
    assert s[19] == 'T' && s[20] == 'U' && s[21] == 'V' && s[22] == 'W' && s[23] == 'X' && s[24] == 'Y';
    assert s[25] == 'Z';
  }

  lemma {:induction false} UpperRuns()
    ensures |UPPER| == 26 && Runs(UPPER, 'A')
  {
    forall i | 0 <= i < 26 ensures |UPPER| == 26 && UPPER[i] as int == 'A' as int + i {
      if i < 13 { UpperFront(i); } else { UpperBack(i); }
    }
    UpperFront(0);
  }

  lemma {:induction false} LowerFront(i: nat)
    requires 0 <= i < 13
    ensures |LOWER| == 26 && LOWER[i] as int == 'a' as int + i
  {
    var s := LOWER;
    assert s[0] == 'a' && s[1] == 'b' && s[2] == 'c' && s[3] == 'd' && s[4] == 'e' && s[5] == 'f';
    assert s[6] == 'g' && s[7] == 'h' && s[8] == 'i' && s[9] == 'j' && s[10] == 'k' && s[11] == 'l';
    assert s[12] == 'm';
  }

  lemma {:induction false} LowerBack(i: nat)
    requires 13 <= i < 26
    ensures |LOWER| == 26 && LOWER[i] as int == 'a' as int + i
  {
    var s := LOWER;
    assert s[13] == 'n' && s[14] == 'o' && s[15] == 'p' && s[16] == 'q' && s[17] == 'r' && s[18] == 's';
    assert s[19] == 't' && s[20] == 'u' && s[21] == 'v' && s[22] == 'w' && s[23] == 'x' && s[24] == 'y';
    assert s[25] == 'z';
  }

  lemma {:induction false} LowerRuns()
    ensures |LOWER| == 26 && Runs(LOWER, 'a')
  {
    forall i | 0 <= i < 26 ensures |LOWER| == 26 && LOWER[i] as int == 'a' as int + i {
      if i < 13 { LowerFront(i); } else { LowerBack(i); }
    }
    LowerFront(0);
  }

  lemma {:induction false} FiguresRun()
    ensures |FIGURES| == 10 && Runs(FIGURES, '0')
  {
    var s := FIGURES;
    assert s[0] == '0' && s[1] == '1' && s[2] == '2' && s[3] == '3' && s[4] == '4' && s[5] == '5';
    assert s[6] == '6' && s[7] == '7' && s[8] == '8' && s[9] == '9';
  }

  lemma {:induction false} AlphabetPart(v: nat)
    requires v < 64
    ensures |ALPHABET| == 64
    ensures ALPHABET[v] == if v < 26 then UPPER[v] else if v < 52 then LOWER[v - 26]
                           else if v < 62 then FIGURES[v - 52] else "+/"[v - 62]
  {
  }

  /** The value of a digit is its place in the alphabet, and the padding is an equals sign. */
  lemma {:induction false} AlphabetIs(v: digit)
    ensures |ALPHABET| == 64 && EncChar(v) as int == ALPHABET[v] as int && EQUALS as int == '=' as int
    ensures LF as int == '\n' as int && CR as int == '\r' as int && SPACE as int == ' ' as int
  {
    hide Runs;
    AlphabetPart(v);
    UpperRuns();
    LowerRuns();
    FiguresRun();
    if v < 26 {
      RunsAt(UPPER, 'A', v);
    } else if v < 52 {
      RunsAt(LOWER, 'a', v - 26);
    } else if v < 62 {
      RunsAt(FIGURES, '0', v - 52);
    }
  }

  lemma {:induction false} RunsAt(s: string, c: char, i: nat)
    requires Runs(s, c) && i < |s|
    ensures s[i] as int == c as int + i
  {
  }

  /** Only the characters of the alphabet have a value. */
  lemma {:induction false} ValuesAre(c: octet)
    ensures |ALPHABET| == 64
    ensures if DecValue(c) >= 0 then ALPHABET[DecValue(c)] as int == c else forall v: digit :: ALPHABET[v] as int != c
  {
    AlphabetPart(0);
    DigitsAndCharacters(0, c);
    if DecValue(c) >= 0 {
      AlphabetIs(DecValue(c));
    } else {
      forall v: digit ensures ALPHABET[v] as int != c {
        AlphabetIs(v);
        DigitsAndCharacters(v, c);
      }
    }
  }

  // ----- bytes to characters

  /** A byte of the string, or zero after its end. */
  function ByteAt(s: seq<octet>, i: nat): octet {
    if i < |s| then s[i] else 0
  }

  /** Three bytes as one number. */
  function Word(a: nat, b: nat, c: nat): nat {
    a * 65536 + b * 256 + c
  }

  /** The four digits of three bytes are the same number. */
  lemma {:induction false} SameNumber(a: octet, b: octet, c: octet)
    ensures Number(Digits(a, b, c)) == Word(a, b, c)
  {
    var d := Digits(a, b, c);
    NumberOf(d);
    assert a == a / 4 * 4 + a % 4 && b == b / 16 * 16 + b % 16 && c == c / 64 * 64 + c % 64;
  }

  /** The characters of four digits that stand for n bytes. */
  function Shown(d: seq<digit>, n: nat): seq<octet>
    requires |d| == 4
  {
    [EncChar(d[0]), EncChar(d[1]), if n >= 2 then EncChar(d[2]) else EQUALS, if n >= 3 then EncChar(d[3]) else EQUALS]
  }

  lemma {:induction false} EncodedShort(s: seq<octet>)
    requires 1 <= |s| <= 3
    ensures Encoded(s) == Shown(Digits(s[0], ByteAt(s, 1), ByteAt(s, 2)), |s|)
  {
    FourChars(Digits(s[0], ByteAt(s, 1), ByteAt(s, 2)));
    if |s| == 3 { assert s[3..] == []; }
  }

  lemma {:induction false} EncodedFirst(s: seq<octet>)
    requires s != []
    ensures |Encoded(s)| >= 4 && |Encoded(s)| == (|s| + 2) / 3 * 4
    ensures Encoded(s)[..4] == Shown(Digits(s[0], ByteAt(s, 1), ByteAt(s, 2)), |s|)
    ensures |s| >= 3 ==> Encoded(s)[4..] == Encoded(s[3..])
  {
    hide EncChar;
    EncodedLength(s);
    if |s| >= 3 {
      FourChars(Digits(s[0], s[1], s[2]));
      assert Encoded(s) == Chars(Digits(s[0], s[1], s[2])) + Encoded(s[3..]);
    } else {
      EncodedShort(s);
    }
  }

  lemma {:induction false} Later(s: seq<octet>, k: nat)
    requires k > 0 && 4 * k + 4 <= |s|
    ensures s[4..][4 * (k - 1)..4 * (k - 1) + 4] == s[4 * k..4 * k + 4]
  {
  }

  /** The k-th four characters of an encoding stand for the k-th three bytes as one number, with
      zeros after the end of the bytes; characters for which there is no byte are padding. */
  lemma {:induction false} EncodedAs(s: seq<octet>, k: nat) returns (d: seq<digit>)
    requires 3 * k < |s|
    ensures |Encoded(s)| == (|s| + 2) / 3 * 4 && 4 * k + 4 <= |Encoded(s)|
    ensures |d| == 4 && Number(d) == Word(ByteAt(s, 3 * k), ByteAt(s, 3 * k + 1), ByteAt(s, 3 * k + 2))
    ensures Encoded(s)[4 * k..4 * k + 4]
         == [EncChar(d[0]), EncChar(d[1]), if 3 * k + 2 <= |s| then EncChar(d[2]) else EQUALS,
             if 3 * k + 3 <= |s| then EncChar(d[3]) else EQUALS]
    decreases k
  {
    hide EncChar, Encoded, Number, Word;
    EncodedFirst(s);
    if k > 0 {
      d := EncodedAs(s[3..], k - 1);
      assert ByteAt(s[3..], 3 * k - 3) == ByteAt(s, 3 * k) && ByteAt(s[3..], 3 * k - 2) == ByteAt(s, 3 * k + 1)
          && ByteAt(s[3..], 3 * k - 1) == ByteAt(s, 3 * k + 2);
      Later(Encoded(s), k);
    } else {
      d := Digits(ByteAt(s, 0), ByteAt(s, 1), ByteAt(s, 2));
      SameNumber(ByteAt(s, 0), ByteAt(s, 1), ByteAt(s, 2));
    }
  }

  // ----- digits to bytes

  /** The k-th three bytes that digits stand for are the number of the k-th four digits. */
  lemma {:induction false} GroupedAs(d: seq<digit>, k: nat)
    requires 4 * k + 4 <= |d|
    ensures 3 * k + 3 <= |Grouped(d)|
    ensures var b := Grouped(d); Word(b[3 * k], b[3 * k + 1], b[3 * k + 2]) == Number(d[4 * k..4 * k + 4])
    decreases k
  {
    hide Grouped, Number, Word;
    GroupedStep(d);
    GroupOfFour(d[..4]);
    if k > 0 {
      GroupedAs(d[4..], k - 1);
      assert d[4..][4 * (k - 1)..4 * (k - 1) + 4] == d[4 * k..4 * k + 4];
    } else {
      assert d[4 * k..4 * k + 4] == d[..4];
    }
  }

  lemma {:induction false} GroupOfFour(d: seq<digit>)
    requires |d| == 4
    ensures var b := Grouped(d); |b| == 3 && Word(b[0], b[1], b[2]) == Number(d)
  {
    OneGroup(d);
    NumberOf(d);
    assert d[1] == d[1] / 16 * 16 + d[1] % 16 && d[2] == d[2] / 4 * 4 + d[2] % 4;
  }

  /** The bytes of a rest of two or three digits: the lowest bits are left out. */
  lemma {:induction false} GroupedRest(d: seq<digit>)
    ensures var b := Grouped(d); var n := |b|;
      && (|d| % 4 == 2 ==> n > 0 && b[n - 1] == Number(d[|d| - 2..]) / 16)
      && (|d| % 4 == 3 ==> n > 1 && Word(0, b[n - 2], b[n - 1]) == Number(d[|d| - 3..]) / 4)
  {
    var n := |d| % 4;
    if n >= 2 {
      var full, rest := d[..|d| - n], d[|d| - n..];
      assert full + rest == d;
      GroupedAppend(full, rest);
      NumberOf(rest);
      if n == 2 { GroupedTwo(rest); } else { GroupedThree(rest); RestOfThree(rest); }
    }
  }

  lemma {:induction false} RestOfThree(d: seq<digit>)
    requires |d| == 3
    ensures Word(0, First(d[0], d[1]), Second(d[1], d[2])) == Number(d) / 4
  {
    NumberOf(d);
    assert d[1] == d[1] / 16 * 16 + d[1] % 16 && d[2] == d[2] / 4 * 4 + d[2] % 4;
  }

  // ----- texts that are accepted

  predicate White(c: octet) {
    c == SPACE || c == LF || c == CR
  }

  /** Nothing but the alphabet, padding, spaces, line feeds, and carriage returns before line
      feeds; spaces only before white space and at the end; at most two padding characters and no
      digit after one. */
  ghost predicate TextForm(s: seq<octet>) {
    && (forall i :: 0 <= i < |s| ==> White(s[i]) || s[i] == EQUALS || DecValue(s[i]) >= 0)
    && (forall i :: 0 <= i < |s| && s[i] == CR ==> i + 1 < |s| && s[i + 1] == LF)
    && (forall i :: 0 <= i < |s| && s[i] == SPACE ==> i + 1 == |s| || White(s[i + 1]))
    && (forall i, j :: 0 <= i < j < |s| && s[i] == EQUALS ==> DecValue(s[j]) < 0)
    && multiset(s)[EQUALS] <= 2
  }

  /** The values of the digits in a text, in order. */
  function Values(s: seq<octet>): seq<digit> {
    if s == [] then [] else (if DecValue(s[0]) >= 0 then [DecValue(s[0])] else []) + Values(s[1..])
  }

  ghost predicate NoDigits(s: seq<octet>) {
    forall i :: 0 <= i < |s| ==> DecValue(s[i]) < 0
  }

  /** May this follow, after a space or not and after e padding characters? */
  ghost predicate MayFollow(s: seq<octet>, spaces: bool, e: nat) {
    TextForm(s) && (spaces && s != [] ==> White(s[0])) && (e > 0 ==> NoDigits(s)) && multiset(s)[EQUALS] + e <= 2
  }

  lemma {:induction false} CountFirst(s: seq<octet>)
    requires s != []
    ensures multiset(s)[EQUALS] == multiset(s[1..])[EQUALS] + if s[0] == EQUALS then 1 else 0
  {
    assert s == [s[0]] + s[1..];
  }

  lemma {:induction false} NoDigitsFirst(s: seq<octet>)
    requires s != []
    ensures NoDigits(s) <==> DecValue(s[0]) < 0 && NoDigits(s[1..])
  {
    if NoDigits(s[1..]) && DecValue(s[0]) < 0 {
      forall i | 0 <= i < |s| ensures DecValue(s[i]) < 0 { assert i > 0 ==> s[i] == s[1..][i - 1]; }
    }
  }

  lemma {:induction false} FormFirst(s: seq<octet>)
    requires s != []
    ensures TextForm(s) <==>
            && (White(s[0]) || s[0] == EQUALS || DecValue(s[0]) >= 0)
            && (s[0] == CR ==> |s| > 1 && s[1] == LF) && (s[0] == SPACE ==> |s| == 1 || White(s[1]))
            && (s[0] == EQUALS ==> NoDigits(s[1..])) && TextForm(s[1..]) && multiset(s)[EQUALS] <= 2
  {
    hide DecValue;
    var t := s[1..];
    CountFirst(s);
    assert forall i :: 1 <= i < |s| ==> s[i] == t[i - 1];
    assert forall i :: 0 <= i < |t| ==> t[i] == s[i + 1];
  }

  lemma {:induction false} FollowWhite(s: seq<octet>, spaces: bool, e: nat)
    requires s != [] && White(s[0])
    ensures MayFollow(s, spaces, e) <==>
            (s[0] == SPACE || LineBreak(s)) && MayFollow(s[1..], s[0] == SPACE, e)
    ensures Values(s) == Values(s[1..]) && multiset(s)[EQUALS] == multiset(s[1..])[EQUALS]
  {
    hide TextForm, NoDigits;
    FormFirst(s);
    CountFirst(s);
    NoDigitsFirst(s);
  }

  lemma {:induction false} FollowEquals(s: seq<octet>, spaces: bool, e: nat)
    requires s != [] && s[0] == EQUALS
    ensures MayFollow(s, spaces, e) <==> !spaces && e < 2 && MayFollow(s[1..], false, e + 1)
    ensures Values(s) == Values(s[1..]) && multiset(s)[EQUALS] == multiset(s[1..])[EQUALS] + 1
  {
    hide TextForm, NoDigits;
    FormFirst(s);
    CountFirst(s);
    NoDigitsFirst(s);
  }

  lemma {:induction false} FollowDigit(s: seq<octet>, spaces: bool, e: nat)
    requires s != [] && DecValue(s[0]) >= 0
    ensures MayFollow(s, spaces, e) <==> !spaces && e == 0 && MayFollow(s[1..], false, 0)
    ensures Values(s) == [DecValue(s[0])] + Values(s[1..]) && multiset(s)[EQUALS] == multiset(s[1..])[EQUALS]
  {
    hide TextForm, NoDigits;
    FormFirst(s);
    CountFirst(s);
    NoDigitsFirst(s);
    if MayFollow(s[1..], false, 0) { FormCount(s[1..]); }
  }

  lemma {:induction false} FormCount(s: seq<octet>)
    requires TextForm(s)
    ensures multiset(s)[EQUALS] <= 2
  {
  }

  lemma {:induction false} FollowOther(s: seq<octet>, spaces: bool, e: nat)
    requires s != [] && DecValue(s[0]) < 0 && !White(s[0]) && s[0] != EQUALS
    ensures !MayFollow(s, spaces, e)
  {
  }

  lemma {:induction false} NoValue()
    ensures DecValue(EQUALS) < 0 && forall c :: White(c) ==> DecValue(c) < 0
  {
  }

  lemma {:induction false} FollowNothing(spaces: bool, e: nat)
    requires e <= 2
    ensures MayFollow([], spaces, e) && Values([]) == []
  {
  }

  /** Reading accepts exactly the texts of that form, and finds their digits and padding. */
  lemma {:induction false} ScanIs(s: seq<octet>, spaces: bool, e: nat)
    requires e <= 2
    ensures Scan(s, spaces, e)
         == if MayFollow(s, spaces, e) then Scanned(Values(s), e + multiset(s)[EQUALS]) else Malformed
    decreases |s|
  {
    hide MayFollow, DecValue, Values;
    NoValue();
    if s == [] {
      FollowNothing(spaces, e);
    } else if White(s[0]) {
      FollowWhite(s, spaces, e);
      ScanIs(s[1..], s[0] == SPACE, e);
    } else if s[0] == EQUALS {
      FollowEquals(s, spaces, e);
      if e < 2 { ScanIs(s[1..], false, e + 1); }
    } else if DecValue(s[0]) >= 0 {
      FollowDigit(s, spaces, e);
      if e == 0 { ScanIs(s[1..], false, 0); }
    } else {
      FollowOther(s, spaces, e);
    }
  }

  /** A text decodes exactly when it has that form, its digits and padding fill up groups of
      four, and no digit stands alone in a group. */
  lemma {:induction false} AcceptedTexts(s: seq<octet>)
    ensures Complete(Scan(s, false, 0)) <==>
            TextForm(s) && |Values(s)| % 4 != 1 && (|Values(s)| + multiset(s)[EQUALS]) % 4 == 0
    ensures Complete(Scan(s, false, 0)) ==> Scan(s, false, 0).digits == Values(s)
  {
    hide Scan, NoDigits, Values;
    ScanIs(s, false, 0);
  }
}
