/** Parsing DER with a cursor p that must not pass `end` (asn1parse.c). */
module DerParse {
  import opened Arith
  import opened Octets
  import opened Der
  import opened DerForms

  lemma {:induction false} Slice(data: seq<octet>, p: nat, end: nat, i: nat, j: nat)
    requires p <= end <= |data| && i <= j <= end - p
    ensures data[p..end][i..j] == data[p + i..p + j]
    ensures j == end - p ==> data[p..end][i..] == data[p + i..end]
  {
    forall k | 0 <= k < j - i ensures data[p..end][i..j][k] == data[p + i..p + j][k] {
      assert data[p..end][i + k] == data[p + (i + k)];
    }
    assert j == end - p ==> data[p..end][i..] == data[p..end][i..j];
  }

  /** Accumulate n bytes, most significant first. */
  method ReadNumber(data: seq<octet>, p: nat, n: nat) returns (value: nat, p': nat)
    requires p + n <= |data|
    ensures value == Num(data[p..p + n]) && p' == p + n
  {
    value, p' := 0, p;
    while p' < p + n
      invariant p <= p' <= p + n && value == Num(data[p..p'])
    {
      NumPush(data[p..p'], data[p']);
      assert data[p..p'] + [data[p']] == data[p..p' + 1];
      value := value * 256 + data[p'];
      p' := p' + 1;
    }
  }

  lemma {:induction false} FormAt(data: seq<octet>, p: nat, end: nat, k: nat, n: nat)
    requires p <= k <= end <= |data|
    ensures k + n <= end && LengthForm(data[p..k], n) <==> ParseLen(data[p..end]) == Parsed(n, k - p)
  {
    assert data[p..end][..k - p] == data[p..k];
    LengthRead(data[p..end], k - p, n);
  }

  method GetLen(data: seq<octet>, p: nat, end: nat) returns (r: Parsed<nat>, p': nat)
    requires p <= end <= |data|
    ensures r == ParseLen(data[p..end])
    ensures r.Parsed? ==> p' == p + r.used && p' + r.value <= end
    ensures forall k: nat, n: nat :: p <= k && k + n <= end && LengthForm(data[p..k], n) ==> r == Parsed(n, k - p)
    ensures r.Parsed? ==> LengthForm(data[p..p'], r.value)
    ensures r.Failed? ==>
              r.error == if p < end && (data[p] == 0x80 || data[p] > 0x84) then InvalidLength else OutOfData
  {
    forall k: nat, n: nat | p <= k && k + n <= end ensures
      LengthForm(data[p..k], n) <==> ParseLen(data[p..end]) == Parsed(n, k - p)
    {
      FormAt(data, p, end, k, n);
    }
    p' := p;
    if end - p < 1 { return Failed(OutOfData), p; }
    var len: nat;
    if data[p] < 0x80 {
      len := data[p];
      p' := p + 1;
    } else {
      var n: nat := data[p] - 0x80;
      if n == 0 || n > 4 { return Failed(InvalidLength), p; }
      if end - p <= n { return Failed(OutOfData), p; }
      Slice(data, p, end, 1, n + 1);
      len, p' := ReadNumber(data, p + 1, n);
    }
    if len > end - p' { return Failed(OutOfData), p'; }
    r := Parsed(len, p' - p);
  }

  method GetTag(data: seq<octet>, p: nat, end: nat, tag: octet) returns (r: Parsed<nat>, p': nat)
    requires p <= end <= |data|
    ensures r == ParseTag(data[p..end], tag)
    ensures r.Parsed? ==> p' == p + r.used && p' + r.value <= end
    ensures forall at: nat, n: nat :: Header(data, p, end, tag, at, n) ==> r == Parsed(n, at - p)
    ensures r.Parsed? ==> Header(data, p, end, tag, p', r.value)
    ensures r.Failed? ==>
              r.error == if p < end && data[p] != tag then UnexpectedTag
                         else if p + 1 < end && (data[p + 1] == 0x80 || data[p + 1] > 0x84) then InvalidLength
                         else OutOfData
  {
    hide LengthForm;
    p' := p;
    if end - p < 1 { return Failed(OutOfData), p; }
    if data[p] != tag { return Failed(UnexpectedTag), p; }
    assert data[p..end][1..] == data[p + 1..end];
    r, p' := GetLen(data, p + 1, end);
    if r.Parsed? { r := Parsed(r.value, r.used + 1); }
  }

  /** Step over zero bytes. */
  method SkipZeros(data: seq<octet>, p: nat, len: nat) returns (p': nat, len': nat)
    requires p + len <= |data|
    ensures p' == p + LeadingZeros(data[p..p + len]) && p' + len' == p + len
  {
    p', len' := p, len;
    while len' > 0 && data[p'] == 0
      invariant p <= p' && p' + len' == p + len
      invariant p' + LeadingZeros(data[p'..p + len]) == p + LeadingZeros(data[p..p + len])
      decreases len'
    {
      assert data[p'..p + len][1..] == data[p' + 1..p + len];
      p', len' := p' + 1, len' - 1;
    }
  }

  /** The content of an integer. */
  method GetIntContent(data: seq<octet>, p: nat, size: nat) returns (r: Parsed<nat>, p': nat)
    requires p + size <= |data|
    ensures r == IntOf(data[p..p + size])
    ensures r.Parsed? ==> p' == p + size
  {
    var len := size;
    p' := p;
    if len == 0 { return Failed(InvalidLength), p'; }
    if data[p'] >= 0x80 { return Failed(InvalidLength), p'; }
    p', len := SkipZeros(data, p', len);
    Slice(data, p, p + size, p' - p, size);
    if len > 4 { return Failed(InvalidLength), p'; }
    if len == 4 && data[p'] >= 0x80 { return Failed(InvalidLength), p'; }
    var val;
    val, p' := ReadNumber(data, p', len);
    r := Parsed(val, size);
  }

  lemma {:induction false} ContentAt(data: seq<octet>, p: nat, end: nat, tag: octet, t: Parsed<nat>)
    requires p <= end <= |data| && t == ParseTag(data[p..end], tag) && t.Parsed?
    ensures var at := p + t.used; var v := IntOf(data[at..at + t.value]);
      ParseInt(data[p..end], tag) == if v.Failed? then v else Parsed(v.value, t.used + t.value)
  {
    hide IntOf, ParseTag;
    Slice(data, p, end, t.used, t.used + t.value);
  }

  method GetTaggedInt(data: seq<octet>, p: nat, end: nat, tag: octet) returns (r: Parsed<nat>, p': nat)
    requires p <= end <= |data|
    ensures r == ParseInt(data[p..end], tag)
    ensures r.Parsed? ==> p' == p + r.used <= end
    ensures forall at: nat, n: nat :: Header(data, p, end, tag, at, n) ==>
              if SmallContent(data[at..at + n]) then r == Parsed(Num(data[at..at + n]), at + n - p) && p' == at + n
              else r == Failed(InvalidLength)
    ensures r.Parsed? ==> exists at: nat, n: nat :: Header(data, p, end, tag, at, n)
  {
    hide IntOf, LengthForm, SmallContent;
    var t;
    t, p' := GetTag(data, p, end, tag);
    if t.Failed? { return t, p'; }
    ContentAt(data, p, end, tag, t);
    IntRead(data[p'..p' + t.value]);
    var v;
    v, p' := GetIntContent(data, p', t.value);
    r := if v.Failed? then v else Parsed(v.value, p' - p);
  }

  method GetMpi(data: seq<octet>, p: nat, end: nat) returns (r: Parsed<nat>, p': nat)
    requires p <= end <= |data|
    ensures r == ParseMpi(data[p..end])
    ensures r.Parsed? ==> p' == p + r.used <= end
    ensures forall at: nat, n: nat :: Header(data, p, end, INTEGER, at, n) ==>
              r == Parsed(Num(data[at..at + n]), at + n - p) && p' == at + n
    ensures r.Parsed? ==> exists at: nat, n: nat :: Header(data, p, end, INTEGER, at, n)
  {
    hide LengthForm;
    r, p' := GetTag(data, p, end, INTEGER);
    if r.Failed? { return; }
    Slice(data, p, end, r.used, r.used + r.value);
    var x;
    x, p' := ReadNumber(data, p', r.value);
    r := Parsed(x, p' - p);
  }

  method GetBitstring(data: seq<octet>, p: nat, end: nat) returns (r: Parsed<(nat, seq<octet>)>, p': nat)
    requires p <= end <= |data|
    ensures r == ParseBits(data[p..end])
    ensures r.Parsed? ==> p' == end
    ensures forall at: nat, n: nat :: Header(data, p, end, BIT_STRING, at, n) ==>
              r == if n == 0 then Failed(OutOfData) else if data[at] > 7 then Failed(InvalidLength)
                   else if at + n != end then Failed(LengthMismatch)
                   else Parsed((data[at], data[at + 1..end]), end - p)
    ensures r.Parsed? ==> exists at: nat, n: nat :: Header(data, p, end, BIT_STRING, at, n)
  {
    hide LengthForm;
    ghost var s := data[p..end];
    var t;
    t, p' := GetTag(data, p, end, BIT_STRING);
    if t.Failed? { return Failed(t.error), p'; }
    var len := t.value;
    if len < 1 { return Failed(OutOfData), p'; }
    len := len - 1;
    var unused: nat := data[p'];
    if unused > 7 { return Failed(InvalidLength), p'; }
    p' := p' + 1;
    var bits := data[p'..p' + len];
    p' := p' + len;
    if p' != end { return Failed(LengthMismatch), p'; }
    assert bits == s[t.used + 1..];
    r := Parsed((unused, bits), p' - p);
  }

  // ----- sequences

  /** The tests on tags: every element must pass the first, and those that pass the second are
      handed to the callback. */
  datatype Tags = Tags(must: octet -> bool, may: octet -> bool)

  datatype Outcome = Finished | Stopped(error: DerError) | Refused(code: int)

  datatype Visited = Visited(seen: seq<Element>, outcome: Outcome)

  function OneSelected(e: Element, tags: Tags): seq<Element> {
    if tags.may(e.tag) then [e] else []
  }

  function After(seen: seq<Element>, rest: Visited): Visited {
    Visited(seen + rest.seen, rest.outcome)
  }

  /** The elements the callback gets, and how the traversal ends. */
  function Visit(s: seq<octet>, tags: Tags, callback: Element -> int): Visited
    decreases |s|
  {
    if s == [] then Visited([], Finished)
    else if !tags.must(s[0]) then Visited([], Stopped(UnexpectedTag))
    else
      var r := ParseElement(s);
      if r.Failed? then Visited([], Stopped(r.error))
      else if tags.may(s[0]) && callback(r.value) != 0 then Visited([r.value], Refused(callback(r.value)))
      else After(OneSelected(r.value, tags), Visit(s[r.used..], tags, callback))
  }

  function Selected(es: seq<Element>, tags: Tags): seq<Element> {
    if es == [] then []
    else OneSelected(es[0], tags) + Selected(es[1..], tags)
  }

  ghost predicate Welcome(es: seq<Element>, tags: Tags, callback: Element -> int) {
    forall i :: 0 <= i < |es| ==> tags.must(es[i].tag) && (tags.may(es[i].tag) ==> callback(es[i]) == 0)
  }

  lemma {:induction false} WelcomeFirst(e: Element, es: seq<Element>, tags: Tags, callback: Element -> int)
    ensures Welcome([e] + es, tags, callback) <==>
            tags.must(e.tag) && (tags.may(e.tag) ==> callback(e) == 0) && Welcome(es, tags, callback)
  {
    if Welcome([e] + es, tags, callback) {
      assert ([e] + es)[0] == e;
      forall i | 0 <= i < |es| ensures tags.must(es[i].tag) && (tags.may(es[i].tag) ==> callback(es[i]) == 0) {
        assert ([e] + es)[i + 1] == es[i];
      }
    }
  }

  /** A traversal finishes exactly when the string is made of elements that all pass, and then the
      callback got exactly the selected ones, in order. */
  lemma {:induction false} FinishesExactly(s: seq<octet>, tags: Tags, callback: Element -> int)
    ensures Visit(s, tags, callback).outcome.Finished? <==>
            ParseElements(s).Parsed? && Welcome(ParseElements(s).value, tags, callback)
    ensures Visit(s, tags, callback).outcome.Finished? ==>
              Visit(s, tags, callback).seen == Selected(ParseElements(s).value, tags)
    decreases |s|
  {
    if s != [] {
      var r := ParseElement(s);
      if r.Parsed? {
        var rest := s[r.used..];
        FinishesExactly(rest, tags, callback);
        if ParseElements(rest).Parsed? {
          WelcomeFirst(r.value, ParseElements(rest).value, tags, callback);
          assert ([r.value] + ParseElements(rest).value)[1..] == ParseElements(rest).value;
        }
      }
    }
  }

  /** The callback gets every element that passes the second test, as often as it occurs, and
      no other. */
  lemma {:induction false} SelectedAre(es: seq<Element>, tags: Tags, e: Element)
    ensures multiset(Selected(es, tags))[e] == if tags.may(e.tag) then multiset(es)[e] else 0
  {
    if es != [] {
      SelectedAre(es[1..], tags, e);
      assert es == [es[0]] + es[1..];
    }
  }

  /** A traversal finishes exactly when the string is the forms of elements that all pass; the
      callback then got the selected ones of these. */
  lemma {:induction false} FinishesOnForms(s: seq<octet>, tags: Tags, callback: Element -> int)
    ensures Visit(s, tags, callback).outcome.Finished? <==>
            exists es :: ElementForms(s, es) && Welcome(es, tags, callback)
    ensures forall es :: ElementForms(s, es) && Welcome(es, tags, callback) ==>
                           Visit(s, tags, callback).seen == Selected(es, tags)
  {
    hide Visit, ParseElements, ElementForms;
    FinishesExactly(s, tags, callback);
    UsedAll(s);
    forall es ensures ElementForms(s, es) <==> ParseElements(s) == Parsed(es, |s|) {
      ElementsAre(s, es);
    }
    if ParseElements(s).Parsed? { assert ElementForms(s, ParseElements(s).value); }
  }

  /** Written elements are visited as they are. */
  lemma {:induction false} WrittenVisited(es: seq<Element>, tags: Tags, callback: Element -> int)
    requires Small(es) && Welcome(es, tags, callback)
    ensures Visit(Concat(es), tags, callback) == Visited(Selected(es, tags), Finished)
  {
    ElementsRead(es);
    FinishesExactly(Concat(es), tags, callback);
  }

  /** From p to `end` stands a sequence with these elements, which all pass. */
  ghost predicate Passing(data: seq<octet>, p: nat, end: nat, tags: Tags, callback: Element -> int, es: seq<Element>) {
    exists at: nat, n: nat :: Header(data, p, end, SEQUENCE, at, n) && at + n == end && ElementForms(data[at..end], es)
                              && Welcome(es, tags, callback)
  }

  lemma {:induction false} PassingAt(data: seq<octet>, p: nat, end: nat, tags: Tags, callback: Element -> int,
                                     at: nat, es: seq<Element>)
    requires p < at <= end <= |data| && Header(data, p, end, SEQUENCE, at, end - at)
    ensures Passing(data, p, end, tags, callback, es)
       <==> ElementForms(data[at..end], es) && Welcome(es, tags, callback)
  {
    hide ElementForms, Welcome, LengthForm;
    if Passing(data, p, end, tags, callback, es) {
      var a: nat, n: nat :| Header(data, p, end, SEQUENCE, a, n) && a + n == end && ElementForms(data[a..end], es)
                            && Welcome(es, tags, callback);
      HeaderUnique(data, p, end, SEQUENCE, at, end - at, a, n);
    }
  }

  lemma {:induction false} PassingReads(data: seq<octet>, p: nat, end: nat, tags: Tags, callback: Element -> int,
                                        es: seq<Element>)
    requires p <= end <= |data| && Passing(data, p, end, tags, callback, es)
    ensures var r := ParseTag(data[p..end], SEQUENCE); r.Parsed? && r.used + r.value == end - p
  {
    hide ElementForms, Welcome, LengthForm, ParseTag;
    var at: nat, n: nat :| Header(data, p, end, SEQUENCE, at, n) && at + n == end && ElementForms(data[at..end], es)
                           && Welcome(es, tags, callback);
    HeaderRead(data, p, end, SEQUENCE, at, n);
  }

  /** What a traversal that has read the header finds out. */
  lemma {:induction false} TraversalIs(data: seq<octet>, p: nat, end: nat, tags: Tags, callback: Element -> int)
    requires p <= end <= |data|
    ensures var r := ParseTag(data[p..end], SEQUENCE);
      if r.Failed? || r.used + r.value != end - p then forall es :: !Passing(data, p, end, tags, callback, es)
      else var v := Visit(data[p + r.used..end], tags, callback);
           && (v.outcome.Finished? <==> exists es :: Passing(data, p, end, tags, callback, es))
           && forall es :: Passing(data, p, end, tags, callback, es) ==> v.seen == Selected(es, tags)
  {
    hide Header, ElementForms, Welcome, Visit, ParseTag, Passing;
    var r := ParseTag(data[p..end], SEQUENCE);
    forall es | Passing(data, p, end, tags, callback, es) ensures r.Parsed? && r.used + r.value == end - p {
      PassingReads(data, p, end, tags, callback, es);
    }
    if r.Parsed? && r.used + r.value == end - p {
      var at := p + r.used;
      HeaderRead(data, p, end, SEQUENCE, at, end - at);
      FinishesOnForms(data[at..end], tags, callback);
      forall es ensures Passing(data, p, end, tags, callback, es)
                   <==> ElementForms(data[at..end], es) && Welcome(es, tags, callback) {
        PassingAt(data, p, end, tags, callback, at, es);
      }
    }
  }

  method TraverseSequenceOf(data: seq<octet>, p: nat, end: nat, tags: Tags, callback: Element -> int)
    returns (seen: seq<Element>, outcome: Outcome, p': nat)
    requires p <= end <= |data|
    ensures p <= p' <= end && (outcome.Finished? ==> p' == end)
    ensures var r := ParseTag(data[p..end], SEQUENCE);
      Visited(seen, outcome) ==
      if r.Failed? then Visited([], Stopped(r.error))
      else if r.used + r.value != end - p then Visited([], Stopped(LengthMismatch))
      else Visit(data[p + r.used..end], tags, callback)
    ensures outcome.Finished? <==> exists es :: Passing(data, p, end, tags, callback, es)
    ensures forall es :: Passing(data, p, end, tags, callback, es) ==> seen == Selected(es, tags)
  {
    hide ParseLen, Passing, Header;
    TraversalIs(data, p, end, tags, callback);
    var t;
    seen, p' := [], p;
    t, p' := GetTag(data, p, end, SEQUENCE);
    if t.Failed? { return [], Stopped(t.error), p; }
    if p' + t.value != end { return [], Stopped(LengthMismatch), p'; }
    ghost var first := p';
    ghost var all := Visit(data[first..end], tags, callback);
    outcome := Finished;
    while p' < end && outcome.Finished?
      invariant first <= p' <= end
      invariant outcome.Finished? ==> all == After(seen, Visit(data[p'..end], tags, callback))
      invariant !outcome.Finished? ==> all == Visited(seen, outcome)
      decreases end - p', outcome.Finished?
    {
      seen, outcome, p' := VisitOne(data, p', end, tags, callback, seen, all);
    }
    assert data[end..end] == [];
  }

  /** One turn of the loop. */
  method VisitOne(data: seq<octet>, p: nat, end: nat, tags: Tags, callback: Element -> int, seen: seq<Element>,
                  ghost all: Visited)
    returns (seen': seq<Element>, outcome: Outcome, p': nat)
    requires p < end <= |data|
    requires all == After(seen, Visit(data[p..end], tags, callback))
    ensures p < p' <= end
    ensures outcome.Finished? ==> all == After(seen', Visit(data[p'..end], tags, callback))
    ensures !outcome.Finished? ==> all == Visited(seen', outcome)
  {
    ghost var s := data[p..end];
    var tag := data[p];
    seen', outcome := seen, Finished;
    VisitStep(s, tags, callback, seen, ParseElement(s), all);
    assert seen + [] == seen;
    if !tags.must(tag) { return seen, Stopped(UnexpectedTag), p + 1; }
    var r;
    r, p' := GetElement(data, p, end);
    if r.Failed? { return seen, Stopped(r.error), p + 1; }
    assert s[r.used..] == data[p'..end] by { Slice(data, p, end, r.used, end - p); }
    ghost var rest := Visit(data[p'..end], tags, callback);
    assert !tags.may(tag) || callback(r.value) == 0 ==> all == After(seen + OneSelected(r.value, tags), rest);
    if tags.may(tag) {
      seen' := seen + [r.value];
      var ret := callback(r.value);
      if ret != 0 { return seen', Refused(ret), p'; }
    }
  }

  lemma {:induction false} VisitStep(s: seq<octet>, tags: Tags, callback: Element -> int, seen: seq<Element>,
                                     r: Parsed<Element>,
                                     all: Visited)
    requires s != [] && r == ParseElement(s) && all == After(seen, Visit(s, tags, callback))
    ensures !tags.must(s[0]) ==> all == Visited(seen, Stopped(UnexpectedTag))
    ensures tags.must(s[0]) && r.Failed? ==> all == Visited(seen, Stopped(r.error))
    ensures tags.must(s[0]) && r.Parsed? && tags.may(s[0]) && callback(r.value) != 0 ==>
              all == Visited(seen + [r.value], Refused(callback(r.value)))
    ensures tags.must(s[0]) && r.Parsed? && !(tags.may(s[0]) && callback(r.value) != 0) ==>
              all == After(seen + OneSelected(r.value, tags), Visit(s[r.used..], tags, callback))
  {
    assert seen + [] == seen;
    if tags.must(s[0]) && r.Parsed? {
      AfterOne(seen, r.value, tags, Visit(s[r.used..], tags, callback));
    }
  }

  lemma {:induction false} AfterOne(seen: seq<Element>, e: Element, tags: Tags, rest: Visited)
    ensures After(seen, After(OneSelected(e, tags), rest)) == After(seen + OneSelected(e, tags), rest)
    ensures seen + [] == seen
  {
    assert (seen + OneSelected(e, tags)) + rest.seen == seen + (OneSelected(e, tags) + rest.seen);
  }

  /** The tag, length and content at p. */
  method GetElement(data: seq<octet>, p: nat, end: nat) returns (r: Parsed<Element>, p': nat)
    requires p < end <= |data|
    ensures r == ParseElement(data[p..end])
    ensures r.Parsed? ==> p' == p + r.used
  {
    Slice(data, p, end, 1, end - p);
    var len;
    len, p' := GetLen(data, p + 1, end);
    if len.Failed? { return Failed(len.error), p'; }
    Slice(data, p, end, 1 + len.used, 1 + len.used + len.value);
    var start := p';
    p' := p' + len.value;
    r := Parsed(Element(data[p], data[start..p']), p' - p);
  }
}
