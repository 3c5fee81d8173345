/** Bytes, byte strings, and their exclusive or. */
module Bytes {
  type byte = bv8

  datatype Option<T> = None | Some(value: T)

  /** The byte for a number, counted up from zero. */
  function ByteOf(n: nat): byte
    requires n < 256
  {
    if n == 0 then 0 else ByteOf(n - 1) + 1
  }

  /** The number a byte stands for. */
  function Value(b: byte): nat
    decreases b
  {
    if b == 0 then 0 else 1 + Value(b - 1)
  }

  lemma {:induction false} ValueAdd(a: byte, b: byte)
    requires b <= 0xff - a
    ensures Value(a + b) == Value(a) + Value(b)
    decreases b
  {
    if b != 0 {
      assert a + b - 1 == a + (b - 1);
      ValueAdd(a, b - 1);
    }
  }

  lemma {:induction false} ValueLast()
    ensures Value(0xff) == 255
  {
    assert Value(1) == 1;
    ValueAdd(1, 1); ValueAdd(2, 2); ValueAdd(4, 4); ValueAdd(8, 8);
    ValueAdd(16, 16); ValueAdd(32, 32); ValueAdd(64, 64); ValueAdd(128, 64); ValueAdd(192, 32); ValueAdd(224, 16);
    ValueAdd(240, 8); ValueAdd(248, 4); ValueAdd(252, 2); ValueAdd(254, 1);
  }

  lemma {:induction false} ValueNext(b: byte)
    ensures if b == 0xff then Value(b) == 255 else Value(b + 1) == Value(b) + 1
  {
    if b == 0xff { ValueLast(); } else { assert b + 1 - 1 == b; }
  }

  /** Bytes and the numbers below 256 correspond. */
  lemma {:induction false} ValueOf(n: nat)
    requires n < 256
    ensures Value(ByteOf(n)) == n
  {
    if n != 0 {
      ValueOf(n - 1);
      ValueNext(ByteOf(n - 1));
    }
  }

  lemma {:induction false} OfValue(b: byte)
    ensures Value(b) < 256 && ByteOf(Value(b)) == b
    decreases b
  {
    ValueAdd(b, 0xff - b);
    ValueLast();
    assert b + (0xff - b) == 0xff;
    if b != 0 {
      OfValue(b - 1);
    }
  }

  function Xor(s: seq<byte>, t: seq<byte>): (r: seq<byte>)
    requires |s| == |t|
    ensures |r| == |s| && forall i :: 0 <= i < |s| ==> r[i] == s[i] ^ t[i]
  {
    seq(|s|, i requires 0 <= i < |s| => s[i] ^ t[i])
  }

  /** Exclusive or with the same string twice changes nothing. */
  lemma {:induction false} XorCancel(s: seq<byte>, t: seq<byte>)
    requires |s| == |t|
    ensures Xor(Xor(s, t), t) == s
  {
    forall i | 0 <= i < |s| ensures Xor(Xor(s, t), t)[i] == s[i] {
    }
  }

  /** n copies of x. */
  function Fill(x: byte, n: nat): (r: seq<byte>)
    ensures |r| == n && forall i :: 0 <= i < n ==> r[i] == x
  {
    seq(n, _ => x)
  }

  /** The first n pieces one after the other. */
  function FirstChunks(chunks: seq<seq<byte>>, n: nat): seq<byte>
    requires n <= |chunks|
  {
    if n == 0 then [] else FirstChunks(chunks, n - 1) + chunks[n - 1]
  }

  /** All pieces one after the other. */
  function Flatten(chunks: seq<seq<byte>>): seq<byte> {
    FirstChunks(chunks, |chunks|)
  }

  lemma {:induction false} ChunksGrow(chunks: seq<seq<byte>>, m: nat, n: nat)
    requires m <= n <= |chunks|
    ensures |FirstChunks(chunks, m)| <= |FirstChunks(chunks, n)|
  {
    if m < n { ChunksGrow(chunks, m, n - 1); }
  }

  /** Copy a string into a buffer. */
  method Put(dst: array<byte>, at: nat, s: seq<byte>)
    requires at + |s| <= dst.Length
    modifies dst
    ensures dst[..] == old(dst[..])[..at] + s + old(dst[..])[at + |s|..]
  {
    forall i | 0 <= i < |s| {
      dst[at + i] := s[i];
    }
    assert dst[at..at + |s|] == s;
  }

  /** Copy a string behind the first `at` bytes; from `end` on nothing changes. */
  method PutNext(output: array<byte>, at: nat, y: seq<byte>, end: nat)
    requires at + |y| <= end <= output.Length
    modifies output
    ensures output[..at + |y|] == old(output[..at]) + y && output[end..] == old(output[end..])
  {
    ghost var before, after := output[..at], output[end..];
    Put(output, at, y);
    assert output[..at + |y|] == before + y && output[end..] == after;
  }
}
