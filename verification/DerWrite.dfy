/** Writing DER backwards into a buffer (asn1write.c). */
module DerWrite {
  import opened Arith
  import opened Octets
  import opened BitLength
  import opened Der

  datatype WriteResult = Wrote(len: nat) | CannotWrite(error: DerError)

  /** The buffer holds what was before `start`, and from p on a content in front of a tail. */
  ghost predicate Holds(b: seq<octet>, start: nat, p: nat, head: seq<octet>, content: seq<octet>, tail: seq<octet>) {
    start <= p <= |b| && b[..start] == head && b[p..] == content + tail
  }

  lemma {:induction false} TailKept(b: seq<octet>, start: nat, p: nat, head: seq<octet>, content: seq<octet>,
                                    tail: seq<octet>)
    requires Holds(b, start, p, head, content, tail)
    ensures |b| - p == |content| + |tail| && b[p + |content|..] == tail
  {
    assert b[p + |content|..] == b[p..][|content|..];
  }

  /** Put bytes in front of position p. */
  method Prepend(buf: array<octet>, start: nat, p: nat, s: seq<octet>, ghost head: seq<octet>,
                 ghost content: seq<octet>,
                 ghost tail: seq<octet>)
    returns (p': nat)
    requires Holds(buf[..], start, p, head, content, tail) && |s| <= p - start
    modifies buf
    ensures p' == p - |s| && Holds(buf[..], start, p', head, s + content, tail)
  {
    p' := p - |s|;
    ghost var before := buf[..];
    forall i | 0 <= i < |s| {
      buf[p' + i] := s[i];
    }
    assert buf[..][p'..] == buf[p'..p] + buf[p..] && buf[p'..p] == s && buf[p..] == before[p..];
    assert buf[..][..start] == before[..start];
  }

  /** The bytes of n, at least one. */
  function Digits(n: nat): (s: seq<octet>)
    ensures s != []
  {
    if n == 0 then [0] else Big(n)
  }

  /** The bytes of n from the ones of v (if any are left to write) and the ones in place. */
  ghost predicate Pending(more: bool, v: nat, content: seq<octet>, n: nat) {
    (if more then Digits(v) else []) + content == Digits(n)
  }

  lemma {:induction false} PendingStep(v: nat, content: seq<octet>, n: nat)
    requires Pending(true, v, content, n)
    ensures Pending(v / 256 > 0, v / 256, [v % 256] + content, n)
  {
    if v / 256 == 0 { assert Big(0) == []; }
    var high := if v / 256 > 0 then Digits(v / 256) else [];
    assert Digits(v) == high + [v % 256] && (high + [v % 256]) + content == high + ([v % 256] + content);
  }

  lemma {:induction false} PendingEnds(more: bool, v: nat, content: seq<octet>, n: nat)
    requires Pending(more, v, content, n)
    ensures if more then |content| < |Digits(n)| else content == Digits(n)
  {
  }

  /** Put the lowest byte of v in front, and go on if there are more. */
  method PushByte(buf: array<octet>, start: nat, p: nat, v: nat, ghost n: nat, ghost head: seq<octet>,
                  ghost content: seq<octet>,
                  ghost tail: seq<octet>)
    returns (p': nat, v': nat, more: bool, ghost content': seq<octet>)
    requires Holds(buf[..], start, p, head, content, tail) && start < p && Pending(true, v, content, n)
    modifies buf
    ensures p' == p - 1 && Holds(buf[..], start, p', head, content', tail) && |content'| == |content| + 1
    ensures Pending(more, v', content', n) && more == (v' > 0) && (more ==> v' < v)
  {
    PendingStep(v, content, n);
    p' := Prepend(buf, start, p, [v % 256], head, content, tail);
    content' := [v % 256] + content;
    v' := v / 256;
    more := v' > 0;
  }

  /** The bytes of a number in front of position p, at least one. */
  method PrependNumber(buf: array<octet>, start: nat, p: nat, n: nat, ghost head: seq<octet>, ghost tail: seq<octet>)
    returns (p': nat)
    requires Holds(buf[..], start, p, head, [], tail) && |Digits(n)| <= p - start
    modifies buf
    ensures p' == p - |Digits(n)| && Holds(buf[..], start, p', head, Digits(n), tail)
  {
    ghost var content: seq<octet> := [];
    var rest, more := n, true;
    p' := p;
    assert Pending(more, rest, content, n);
    while more
      invariant Pending(more, rest, content, n) && p' == p - |content|
      invariant Holds(buf[..], start, p', head, content, tail)
      decreases rest, more
    {
      PendingEnds(more, rest, content, n);
      p', rest, more, content := PushByte(buf, start, p', rest, n, head, content, tail);
    }
    PendingEnds(more, rest, content, n);
  }

  lemma {:induction false} OneByte(n: nat)
    ensures 0 < n < 256 ==> Big(n) == [n]
  {
    if 0 < n < 256 { assert n / 256 == 0 && Big(0) == []; }
  }

  /** The number of bytes a length takes. */
  method LengthSize(len: nat) returns (required: nat)
    requires len <= 0xFFFF_FFFF
    ensures required == |Length(len)|
  {
    required := 1;
    if len >= 0x80 {
      BigFits(len);
      var l := len;
      while l != 0
        invariant required + |Big(l)| == 1 + |Big(len)|
        decreases l
      {
        required := required + 1;
        l := l / 256;
      }
    }
  }

  method WriteLen(buf: array<octet>, start: nat, p: nat, len: nat, ghost head: seq<octet>, ghost tail: seq<octet>)
    returns (ret: WriteResult, p': nat)
    requires Holds(buf[..], start, p, head, [], tail)
    modifies buf
    ensures len > 0xFFFF_FFFF ==> ret == CannotWrite(InvalidLength)
    ensures len <= 0xFFFF_FFFF ==>
              ret == if |Length(len)| <= p - start then Wrote(|Length(len)|) else CannotWrite(BufTooSmall)
    ensures ret.Wrote? ==> p' == p - |Length(len)| && Holds(buf[..], start, p', head, Length(len), tail)
    ensures ret.CannotWrite? ==> p' == p && buf[..] == old(buf[..])
  {
    p' := p;
    if len > 0xFFFF_FFFF { return CannotWrite(InvalidLength), p; }
    var required := LengthSize(len);
    if required > p - start { return CannotWrite(BufTooSmall), p; }
    LengthForms(len);
    p' := PrependNumber(buf, start, p, len, head, tail);
    if required > 1 {
      p' := Prepend(buf, start, p', [0x80 + required - 1], head, Digits(len), tail);
    }
    ret := Wrote(required);
  }

  lemma {:induction false} LengthForms(len: nat)
    requires len <= 0xFFFF_FFFF
    ensures len < 0x80 ==> Length(len) == Digits(len) && |Digits(len)| == 1
    ensures len >= 0x80 ==> 1 <= |Big(len)| <= 4 && Length(len) == [0x80 + |Big(len)|] + Digits(len)
  {
    OneByte(len);
    NumBig(len);
    BigFits(len);
  }

  method WriteTag(buf: array<octet>, start: nat, p: nat, tag: octet, ghost head: seq<octet>, ghost content: seq<octet>,
                  ghost tail: seq<octet>)
    returns (ret: WriteResult, p': nat)
    requires Holds(buf[..], start, p, head, content, tail)
    modifies buf
    ensures ret == if p - start >= 1 then Wrote(1) else CannotWrite(BufTooSmall)
    ensures ret.Wrote? ==> p' == p - 1 && Holds(buf[..], start, p', head, [tag] + content, tail)
    ensures ret.CannotWrite? ==> p' == p && buf[..] == old(buf[..])
  {
    p' := p;
    if p - start < 1 { return CannotWrite(BufTooSmall), p; }
    p' := Prepend(buf, start, p, [tag], head, content, tail);
    ret := Wrote(1);
  }

  /** What writing a value with its tag and length into a room answers: how much is written, or
      why it cannot be. */
  function Answer(content: seq<octet>, room: nat): WriteResult {
    if |content| > room then CannotWrite(BufTooSmall)
    else if |content| > 0xFFFF_FFFF then CannotWrite(InvalidLength)
    else if |Tlv(0, content)| > room then CannotWrite(BufTooSmall)
    else Wrote(|Tlv(0, content)|)
  }

  /** Writing succeeds exactly when the length has a form and tag, length and content fit into the
      room; the answer is then how much they take. */
  lemma {:induction false} AnswerIs(content: seq<octet>, room: nat, n: nat)
    ensures Answer(content, room) == Wrote(n) <==>
            |content| <= 0xFFFF_FFFF && n == 1 + |Length(|content|)| + |content| && n <= room
    ensures Answer(content, room) == CannotWrite(InvalidLength) <==> 0xFFFF_FFFF < |content| <= room
  {
    hide Length;
  }

  /** What a writer of one value leaves: nothing changes outside the room, and if it answers a
      length the value stands there in front of the tail. */
  ghost predicate WroteValue(b: seq<octet>, start: nat, p: nat, head: seq<octet>, tail: seq<octet>, tag: octet,
                             content: seq<octet>,
                             room: nat, ret: WriteResult)
  {
    && ret == Answer(content, room)
    && start <= p <= |b| - |tail| && b[..start] == head && b[|b| - |tail|..] == tail
    && (ret.Wrote? ==> b[p..] == Tlv(tag, content) + tail)
  }

  /** Length and tag in front of a content that is there already. */
  method WriteLenAndTag(buf: array<octet>, start: nat, p: nat, tag: octet, ghost head: seq<octet>,
                        ghost content: seq<octet>,
                        ghost tail: seq<octet>, len: nat)
    returns (ret: WriteResult, p': nat)
    requires Holds(buf[..], start, p, head, content, tail) && len == |content|
    modifies buf
    ensures WroteValue(buf[..], start, p', head, tail, tag, content, p - start + len, ret)
  {
    TailKept(buf[..], start, p, head, content, tail);
    assert Holds(buf[..], start, p, head, [], content + tail);
    ret, p' := WriteLen(buf, start, p, len, head, content + tail);
    if ret.CannotWrite? { return; }
    var n := len + ret.len;
    Regroup(buf[..], start, p', head, Length(len), content, tail);
    TailKept(buf[..], start, p', head, Length(len) + content, tail);
    ret, p' := WriteTag(buf, start, p', tag, head, Length(len) + content, tail);
    if ret.CannotWrite? { return; }
    TailKept(buf[..], start, p', head, [tag] + (Length(len) + content), tail);
    assert [tag] + (Length(len) + content) == Tlv(tag, content);
    ret := Wrote(n + ret.len);
  }

  lemma {:induction false} Regroup(b: seq<octet>, start: nat, p: nat, head: seq<octet>, front: seq<octet>,
                                   content: seq<octet>,
                                   tail: seq<octet>)
    requires Holds(b, start, p, head, front, content + tail)
    ensures Holds(b, start, p, head, front + content, tail)
  {
    assert front + (content + tail) == (front + content) + tail;
  }

  // ----- integers

  lemma {:induction false} ContentFromDigits(n: nat)
    ensures IntContent(n) == if Digits(n)[0] >= 0x80 then [0] + Digits(n) else Digits(n)
  {
    NumBig(n);
  }

  /** The bytes of an integer in front of position p, as long as there is room. */
  method PrependInt(buf: array<octet>, start: nat, p: nat, val: nat, ghost head: seq<octet>, ghost tail: seq<octet>)
    returns (ok: bool, len: nat, p': nat)
    requires Holds(buf[..], start, p, head, [], tail)
    modifies buf
    ensures ok == (|Digits(val)| <= p - start)
    ensures ok ==> Holds(buf[..], start, p', head, Digits(val), tail) && len == |Digits(val)| == p - p'
    ensures start <= p' <= p && buf[..start] == head && buf[p..] == tail
  {
    ghost var content: seq<octet> := [];
    var v, more := val, true;
    len, p', ok := 0, p, true;
    assert Pending(more, v, content, val);
    while more && ok
      invariant Pending(more, v, content, val) && len == |content| == p - p' && (!ok ==> more && p' == start)
      invariant Holds(buf[..], start, p', head, content, tail)
      decreases v, more, ok
    {
      if p' - start < 1 {
        ok := false;
      } else {
        len := len + 1;
        p', v, more, content := PushByte(buf, start, p', v, val, head, content, tail);
      }
    }
    PendingEnds(more, v, content, val);
    TailKept(buf[..], start, p', head, content, tail);
  }

  method WriteTaggedInt(buf: array<octet>, start: nat, p: nat, val: nat, tag: octet) returns (ret: WriteResult, p': nat)
    requires start <= p <= buf.Length && val <= 0x7FFF_FFFF
    modifies buf
    ensures WroteValue(buf[..], start, p', old(buf[..start]), old(buf[p..]), tag, IntContent(val), p - start, ret)
  {
    ghost var head, tail := buf[..start], buf[p..];
    ContentFromDigits(val);
    var ok, len;
    ok, len, p' := PrependInt(buf, start, p, val, head, tail);
    if !ok { return CannotWrite(BufTooSmall), p'; }
    ret, p' := AddSign(buf, start, p', tag, val, head, tail, len);
  }

  /** The digits of a number are in place: a zero byte in front where the top bit is set, then
      length and tag. */
  method AddSign(buf: array<octet>, start: nat, p: nat, tag: octet, ghost n: nat, ghost head: seq<octet>,
                 ghost tail: seq<octet>,
                 len: nat)
    returns (ret: WriteResult, p': nat)
    requires Holds(buf[..], start, p, head, Digits(n), tail) && len == |Digits(n)|
    modifies buf
    ensures WroteValue(buf[..], start, p', head, tail, tag, IntContent(n), p - start + len, ret)
  {
    ContentFromDigits(n);
    TailKept(buf[..], start, p, head, Digits(n), tail);
    p' := p;
    var size := len;
    assert buf[p] == buf[..][p..][0] == Digits(n)[0];
    if buf[p] >= 0x80 {
      if p - start < 1 { return CannotWrite(BufTooSmall), p; }
      p' := Prepend(buf, start, p, [0], head, Digits(n), tail);
      size := len + 1;
    }
    ret, p' := WriteLenAndTag(buf, start, p', tag, head, IntContent(n), tail, size);
  }

  /** The size in bytes is the number of bytes of the shortest form. */
  lemma {:induction false} SizeIsBytes(n: nat)
    ensures (Bits(n) + 7) / 8 == |Big(n)|
  {
    if n != 0 {
      SizeIsBytes(n / 256);
      BitsShift(n, 8);
      assert Pow(2, 8) == 256 by {
        PowStep(2, 0); PowStep(2, 1); PowStep(2, 2); PowStep(2, 3);
        PowStep(2, 4); PowStep(2, 5); PowStep(2, 6); PowStep(2, 7);
      }
      if n < 256 { BitsFit(n, 8); BitsRange(n); }
    }
  }

  lemma {:induction false} BitsShift(n: nat, k: nat)
    ensures Bits(Shr(n, k)) == if Bits(n) >= k then Bits(n) - k else 0
  {
    hide Pow, Shr;
    if k == 0 {
      ShrZero(n, 0);
    } else {
      BitsShift(n, k - 1);
      ShrStep(n, k - 1);
    }
  }

  method MpiSize(n: nat) returns (size: nat)
    ensures size == |Big(n)|
  {
    SizeIsBytes(n);
    size := (Bits(n) + 7) / 8;
  }

  /** A non-negative number of any size. */
  method WriteMpi(buf: array<octet>, start: nat, p: nat, n: nat) returns (ret: WriteResult, p': nat)
    requires start <= p <= buf.Length
    modifies buf
    ensures WroteValue(buf[..], start, p', old(buf[..start]), old(buf[p..]), INTEGER, IntContent(n), p - start, ret)
  {
    ContentFromDigits(n);
    ghost var head, tail := buf[..start], buf[p..];
    var len := MpiSize(n);
    if len == 0 {
      len := 1;
    }
    if p - start < len { return CannotWrite(BufTooSmall), p; }
    p' := PrependNumber(buf, start, p, n, head, tail);
    ret, p' := AddSign(buf, start, p', INTEGER, n, head, tail, len);
  }

  // ----- bit strings

  method WriteBitstring(buf: array<octet>, start: nat, p: nat, bytes: seq<octet>, bits: nat)
    returns (ret: WriteResult, p': nat)
    requires start <= p <= buf.Length && bits <= 8 * |bytes|
    modifies buf
    ensures WroteValue(buf[..], start, p', old(buf[..start]), old(buf[p..]),
                       BIT_STRING, BitContent(bytes, bits), p - start, ret)
  {
    ghost var head, tail, content: seq<octet> := buf[..start], buf[p..], [];
    var byteLen := (bits + 7) / 8;
    var unused := 8 * byteLen - bits;
    if p - start < byteLen + 1 { return CannotWrite(BufTooSmall), p; }
    var len := byteLen + 1;
    p' := p;
    if byteLen > 0 {
      byteLen := byteLen - 1;
      p' := Prepend(buf, start, p', [Masked(bytes[byteLen], unused)], head, [], tail);
      assert [Masked(bytes[byteLen], unused)] + [] == [Masked(bytes[byteLen], unused)];
      p' := Prepend(buf, start, p', bytes[..byteLen], head, [Masked(bytes[byteLen], unused)], tail);
      content := bytes[..byteLen] + [Masked(bytes[byteLen], unused)];
    }
    p' := Prepend(buf, start, p', [unused], head, content, tail);
    assert [unused] + content == BitContent(bytes, bits);
    ret, p' := WriteLenAndTag(buf, start, p', BIT_STRING, head, BitContent(bytes, bits), tail, len);
  }

  /** The trailing zero bits are dropped first. */
  method WriteNamedBitstring(buf: array<octet>, start: nat, p: nat, bytes: seq<octet>, bits: nat)
    returns (ret: WriteResult, p': nat)
    requires start <= p <= buf.Length && bits <= 8 * |bytes|
    modifies buf
    ensures WroteValue(buf[..], start, p', old(buf[..start]), old(buf[p..]),
                       BIT_STRING, BitContent(bytes, TrimmedBits(bytes, bits)), p - start, ret)
  {
    var left := Trim(bytes, bits);
    ret, p' := WriteBitstring(buf, start, p, bytes, left);
  }

  method Trim(bytes: seq<octet>, bits: nat) returns (left: nat)
    requires bits <= 8 * |bytes|
    ensures left == TrimmedBits(bytes, bits)
  {
    hide *;
    left := bits;
    if bits != 0 {
      var byteLen := (bits + 7) / 8;
      var curByte := byteLen - 1;
      var shifted := Shr(bytes[curByte], 8 * byteLen - bits);
      assert curByte == (left - 1) / 8 && 8 * byteLen - bits == 7 - (left - 1) % 8;
      while true
        invariant 0 < left <= bits && curByte == (left - 1) / 8
        invariant TrimmedBits(bytes, left) == TrimmedBits(bytes, bits)
        invariant shifted == Shr(bytes[curByte], 7 - (left - 1) % 8)
        decreases left
      {
        CurrentBit(bytes, left);
        var bit := shifted % 2;
        shifted := shifted / 2;
        if bit != 0 { break; }
        left := left - 1;
        if left == 0 { break; }
        if left % 8 == 0 {
          curByte := curByte - 1;
          shifted := bytes[curByte];
        }
      }
    }
  }

  lemma {:induction false} CurrentBit(bytes: seq<octet>, left: nat)
    requires 0 < left <= 8 * |bytes|
    ensures Bit(bytes, left - 1) == Shr(bytes[(left - 1) / 8], 7 - (left - 1) % 8) % 2
    ensures (left - 1) % 8 > 0 ==>
              Shr(bytes[(left - 1) / 8], 7 - (left - 2) % 8) == Shr(bytes[(left - 1) / 8], 7 - (left - 1) % 8) / 2
    ensures (left - 1) % 8 == 0 && left > 1 ==> Shr(bytes[(left - 2) / 8], 7 - (left - 2) % 8) == bytes[(left - 2) / 8]
  {
    var x := bytes[(left - 1) / 8];
    if (left - 1) % 8 > 0 {
      ShrStep(x, 7 - (left - 1) % 8);
      assert (left - 2) % 8 == (left - 1) % 8 - 1;
    } else if left > 1 {
      assert (left - 2) % 8 == 7;
      ShrZero(bytes[(left - 2) / 8], 8);
    }
  }
}
