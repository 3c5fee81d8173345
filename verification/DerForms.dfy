/** The forms that DER values take, told without parsing: what a length, an integer, a bit
    string and the elements of a sequence look like in bytes; and that reading accepts exactly
    these. */
module DerForms {
  import opened Arith
  import opened Octets
  import opened Der

  // ----- numbers

  /** The first byte is the most significant. */
  lemma {:induction false} NumFront(x: octet, s: seq<octet>)
    ensures Num([x] + s) == x * Pow(256, |s|) + Num(s)
  {
    if s == [] {
      assert [x] + s == [] + [x];
      NumPush([], x);
    } else {
      var n := |s| - 1;
      NumFront(x, s[..n]);
      PowStep(256, n);
      assert [x] + s == ([x] + s[..n]) + [s[n]];
      NumPush([x] + s[..n], s[n]);
      MulAssoc(x, Pow(256, n), 256);
    }
  }

  lemma {:induction false} NumAtLeast(s: seq<octet>)
    requires s != [] && s[0] > 0
    ensures Num(s) >= s[0] * Pow(256, |s| - 1) >= Pow(256, |s| - 1)
  {
    assert s == [s[0]] + s[1..];
    NumFront(s[0], s[1..]);
    MulMonotone(Pow(256, |s| - 1), 1, s[0]);
  }

  // ----- lengths and headers

  /** A form of the length n: one byte below 0x80, or a count from 1 to 4 and as many bytes. */
  predicate LengthForm(s: seq<octet>, n: nat) {
    || (|s| == 1 && s[0] < 0x80 && n == s[0])
    || (2 <= |s| <= 5 && s[0] == 0x80 + (|s| - 1) && n == Num(s[1..]))
  }

  /** At p stands a tag, then a form of the length of a content from `at` to at + n, which ends
      no later than `end`. */
  predicate Header(data: seq<octet>, p: nat, end: nat, tag: octet, at: nat, n: nat) {
    p < at && at + n <= end <= |data| && data[p] == tag && LengthForm(data[p + 1..at], n)
  }

  lemma {:induction false} LengthRead(s: seq<octet>, k: nat, n: nat)
    requires k <= |s|
    ensures k + n <= |s| && LengthForm(s[..k], n) <==> ParseLen(s) == Parsed(n, k)
  {
    if k > 0 {
      assert s[..k][0] == s[0] && s[..k][1..] == s[1..k];
    }
  }

  lemma {:induction false} HeaderRead(data: seq<octet>, p: nat, end: nat, tag: octet, at: nat, n: nat)
    requires p <= end <= |data|
    ensures Header(data, p, end, tag, at, n)
       <==> p < at <= end && ParseTag(data[p..end], tag) == Parsed(n, at - p)
  {
    if p < at <= end {
      var s := data[p..end];
      assert s[1..][..at - p - 1] == data[p + 1..at];
      LengthRead(s[1..], at - p - 1, n);
    }
  }

  /** There is at most one header at a place. */
  lemma {:induction false} HeaderUnique(data: seq<octet>, p: nat, end: nat, tag: octet, at: nat, n: nat, at': nat,
                                        n': nat)
    requires p <= end <= |data| && Header(data, p, end, tag, at, n) && Header(data, p, end, tag, at', n')
    ensures at == at' && n == n'
  {
    HeaderRead(data, p, end, tag, at, n);
    HeaderRead(data, p, end, tag, at', n');
  }

  /** The written length is a form of the length, and no form of it is shorter. */
  lemma {:induction false} LengthWritten(n: nat, s: seq<octet>)
    requires n <= 0xFFFF_FFFF
    ensures LengthForm(Length(n), n)
    ensures LengthForm(s, n) ==> |Length(n)| <= |s|
  {
    BigFits(n);
    NumBig(n);
    if n >= 0x80 {
      assert Length(n)[1..] == Big(n);
      if LengthForm(s, n) { BigShortest(s[1..]); }
    }
  }

  // ----- integers

  /** The content of an integer from 0 to 2^31 - 1. */
  predicate SmallContent(c: seq<octet>) {
    c != [] && c[0] < 0x80 && Num(c) <= 0x7FFF_FFFF
  }

  lemma {:induction false} SmallDigits(s: seq<octet>)
    requires s != [] ==> s[0] > 0
    ensures Num(s) <= 0x7FFF_FFFF <==> !(|s| > 4 || (|s| == 4 && s[0] >= 0x80))
  {
    hide Num, Pow;
    FourBytes();
    PowStep(256, 3);
    assert Pow(256, 3) == 0x100_0000;
    NumBound(s);
    if |s| > 4 {
      NumAtLeast(s);
      PowMonotone(256, 4, |s| - 1);
    } else if |s| == 4 {
      assert s == [s[0]] + s[1..];
      NumFront(s[0], s[1..]);
      NumBound(s[1..]);
    } else {
      PowMonotone(256, |s|, 3);
    }
  }

  /** An integer content is accepted exactly when it is a small one, and read as its number. */
  lemma {:induction false} IntRead(c: seq<octet>)
    ensures IntOf(c) == if SmallContent(c) then Parsed(Num(c), |c|) else Failed(InvalidLength)
  {
    var digits := c[LeadingZeros(c)..];
    NumWithoutZeros(c);
    SmallDigits(digits);
  }

  /** The written content stands for the number with the top bit clear, and nothing shorter
      does. */
  lemma {:induction false} IntWritten(n: nat, c: seq<octet>)
    ensures var w := IntContent(n); w != [] && w[0] < 0x80 && Num(w) == n
    ensures c != [] && c[0] < 0x80 && Num(c) == n ==> |IntContent(n)| <= |c|
  {
    IntContentIs(n);
    if c != [] && c[0] < 0x80 && Num(c) == n {
      BigShortest(c);
      if n != 0 && Big(n)[0] >= 0x80 && |Big(n)| == |c| {
        assert c[0] == 0;
        assert c == [0] + c[1..];
        NumZero(c[1..]);
        BigShortest(c[1..]);
      }
    }
  }

  // ----- bit strings

  /** The first byte of the content says how many of the following bits are not used. */
  lemma {:induction false} UnusedBits(buf: seq<octet>, bits: nat)
    requires bits <= 8 * |buf|
    ensures var c := BitContent(buf, bits); c != [] && c[0] <= 7 && 8 * (|c| - 1) - c[0] == bits
  {
  }

  // ----- elements

  ghost predicate ElementForm(s: seq<octet>, e: Element) {
    s != [] && s[0] == e.tag
    && exists h :: 1 <= h <= |s| && LengthForm(s[1..h], |e.content|) && s[h..] == e.content
  }

  /** The string is the forms of the elements, one after the other. */
  ghost predicate ElementForms(s: seq<octet>, es: seq<Element>)
    decreases |es|
  {
    if es == [] then s == []
    else exists k :: 0 <= k <= |s| && ElementForm(s[..k], es[0]) && ElementForms(s[k..], es[1..])
  }

  lemma {:induction false} ElementFrom(s: seq<octet>, k: nat, h: nat, e: Element)
    requires 1 <= h <= k <= |s| && s[0] == e.tag && LengthForm(s[1..h], |e.content|) && s[h..k] == e.content
    ensures ParseElement(s) == Parsed(e, k)
  {
    hide LengthForm, ParseLen;
    assert s[1..][..h - 1] == s[1..h];
    LengthRead(s[1..], h - 1, |e.content|);
  }

  lemma {:induction false} ElementTo(s: seq<octet>, k: nat, e: Element) returns (h: nat)
    requires s != [] && ParseElement(s) == Parsed(e, k)
    ensures 1 <= h <= k <= |s| && s[0] == e.tag && LengthForm(s[1..h], |e.content|) && s[h..k] == e.content
  {
    hide LengthForm, ParseLen;
    var r := ParseLen(s[1..]);
    h := 1 + r.used;
    LengthRead(s[1..], r.used, r.value);
    assert s[1..][..r.used] == s[1..h];
  }

  lemma {:induction false} TakeSlice(s: seq<octet>, k: nat, h: nat)
    requires 1 <= h <= k <= |s|
    ensures s[..k][1..h] == s[1..h] && s[..k][h..] == s[h..k]
  {
    forall i | 0 <= i < h - 1 ensures s[..k][1..h][i] == s[1..h][i] { assert s[..k][i + 1] == s[i + 1]; }
    forall i | 0 <= i < k - h ensures s[..k][h..][i] == s[h..k][i] { assert s[..k][h + i] == s[h + i]; }
  }

  lemma {:induction false} ElementRead(s: seq<octet>, k: nat, e: Element)
    requires s != [] && k <= |s|
    ensures ElementForm(s[..k], e) <==> ParseElement(s) == Parsed(e, k)
  {
    hide LengthForm, ParseLen, ParseElement;
    var t := s[..k];
    if ElementForm(t, e) {
      var h :| 1 <= h <= |t| && LengthForm(t[1..h], |e.content|) && t[h..] == e.content;
      TakeSlice(s, k, h);
      ElementFrom(s, k, h, e);
    }
    if ParseElement(s) == Parsed(e, k) {
      var h := ElementTo(s, k, e);
      TakeSlice(s, k, h);
    }
  }

  lemma {:induction false} ReadCons(s: seq<octet>, es: seq<Element>)
    requires s != [] && es != []
    ensures var e := ParseElement(s);
      ParseElements(s) == Parsed(es, |s|)
      <==> e.Parsed? && e.value == es[0] && ParseElements(s[e.used..]) == Parsed(es[1..], |s[e.used..]|)
  {
    hide ParseElement;
    var e := ParseElement(s);
    if e.Parsed? {
      UsedAll(s[e.used..]);
      var rest := ParseElements(s[e.used..]);
      if rest.Parsed? { assert ([e.value] + rest.value)[1..] == rest.value; }
      assert es == [es[0]] + es[1..];
    }
  }

  lemma {:induction false} ReadNothing(s: seq<octet>)
    ensures ParseElements(s) == Parsed([], |s|) <==> s == []
    ensures s == [] ==> ParseElements(s) == Parsed([], 0)
  {
    hide ParseElement;
  }

  lemma {:induction false} FormNotEmpty(s: seq<octet>, e: Element)
    requires ElementForm(s, e)
    ensures s != []
  {
  }

  /** Reading gives exactly the elements whose forms make up the string. */
  lemma {:induction false} ElementsAre(s: seq<octet>, es: seq<Element>)
    ensures ElementForms(s, es) <==> ParseElements(s) == Parsed(es, |s|)
    decreases |es|
  {
    hide ParseElement, ElementForm, ParseElements;
    ReadNothing(s);
    if es == [] {
    } else if s == [] {
      if k :| 0 <= k <= |s| && ElementForm(s[..k], es[0]) && ElementForms(s[k..], es[1..]) {
        FormNotEmpty(s[..k], es[0]);
      }
    } else {
      ReadCons(s, es);
      if k :| 0 <= k <= |s| && ElementForm(s[..k], es[0]) && ElementForms(s[k..], es[1..]) {
        ElementRead(s, k, es[0]);
        ElementsAre(s[k..], es[1..]);
      }
      var e := ParseElement(s);
      if e.Parsed? && e.value == es[0] {
        ElementRead(s, e.used, e.value);
        ElementsAre(s[e.used..], es[1..]);
      }
    }
  }

  lemma {:induction false} UsedAll(s: seq<octet>)
    ensures ParseElements(s).Parsed? ==> ParseElements(s).used == |s|
  {
  }
}
