/** Block paddings of the cipher layer (cipher.c). */
module Padding {
  import opened Bytes

  datatype PaddingMode = NoPadding | Pkcs7 | OneAndZeros | ZerosAndLen | Zeros

  /** The k bytes that fill up a block. */
  function Tail(mode: PaddingMode, k: nat): (r: seq<byte>)
    requires 0 < k < 256 && mode != NoPadding
    ensures |r| == k
  {
    match mode
    case Pkcs7 => Fill(ByteOf(k), k)
    case OneAndZeros => [0x80] + Fill(0, k - 1)
    case ZerosAndLen => Fill(0, k - 1) + [ByteOf(k)]
    case Zeros => Fill(0, k)
  }

  /** The first n bytes of the block are data, the others padding. */
  predicate Padded(mode: PaddingMode, block: seq<byte>, n: nat) {
    mode != NoPadding && n < |block| < 256 && block[n..] == Tail(mode, |block| - n)
  }

  /** What the padding is, byte by byte. */
  lemma {:induction false} PaddedIs(mode: PaddingMode, block: seq<byte>, n: nat)
    ensures Padded(mode, block, n) <==>
            && n < |block| < 256
            && match mode
               case NoPadding => false
               case Pkcs7 => forall k :: n <= k < |block| ==> Value(block[k]) == |block| - n
               case OneAndZeros => block[n] == 0x80 && forall k :: n < k < |block| ==> block[k] == 0
               case ZerosAndLen =>
                 Value(block[|block| - 1]) == |block| - n && forall k :: n <= k < |block| - 1 ==> block[k] == 0
               case Zeros => forall k :: n <= k < |block| ==> block[k] == 0
  {
    if n < |block| < 256 && mode != NoPadding {
      var t, l := Tail(mode, |block| - n), |block| - n;
      ValueOf(l);
      OfValue(block[|block| - 1]);
      assert block[n..] == t <==> forall k :: n <= k < |block| ==> block[k] == t[k - n] by {
        assert forall k :: n <= k < |block| ==> block[k] == block[n..][k - n];
      }
      forall k | n <= k < |block| ensures Value(block[k]) == l <==> block[k] == ByteOf(l) {
        OfValue(block[k]);
      }
    }
  }

  /** Three of the paddings can be told from the data: the data length is unique. */
  lemma {:induction false} PaddedUnique(mode: PaddingMode, block: seq<byte>, m: nat, n: nat)
    requires mode != Zeros && Padded(mode, block, m) && Padded(mode, block, n)
    ensures m == n
  {
    var l := |block|;
    assert block[m..][l - m - 1] == block[l - 1] == block[n..][l - n - 1];
    match mode {
      case Pkcs7 => ValueOf(l - m); ValueOf(l - n);
      case ZerosAndLen => ValueOf(l - m); ValueOf(l - n);
      case OneAndZeros =>
        assert block[m..][0] == block[m] && block[n..][0] == block[n];
    }
  }

  /** The length without trailing zeros. */
  function Trimmed(s: seq<byte>): (n: nat)
    ensures n <= |s| && (forall k :: n <= k < |s| ==> s[k] == 0) && (n > 0 ==> s[n - 1] != 0)
  {
    if s == [] || s[|s| - 1] != 0 then |s| else Trimmed(s[..|s| - 1])
  }

  /** The number of data bytes in a block with padding, if the padding is valid. */
  ghost function DataLen(mode: PaddingMode, block: seq<byte>): (n: Option<nat>)
    ensures n.Some? ==> n.value <= |block|
  {
    match mode
    case NoPadding => Some(|block|)
    case Zeros => Some(Trimmed(block))
    case _ =>
      if exists n: nat :: Padded(mode, block, n) then
        var n: nat :| Padded(mode, block, n);
        Some(n)
      else None
  }

  // ----- writing the padding

  method AddPkcsPadding(output: array<byte>, dataLen: nat)
    requires dataLen < output.Length < 256
    modifies output
    ensures output[..] == old(output[..dataLen]) + Tail(Pkcs7, output.Length - dataLen)
  {
    var paddingLen := output.Length - dataLen;
    for i := 0 to paddingLen
      invariant output[..dataLen] == old(output[..dataLen])
      invariant forall k :: dataLen <= k < dataLen + i ==> output[k] == ByteOf(paddingLen)
    {
      output[dataLen + i] := ByteOf(paddingLen);
    }
    assert output[dataLen..] == Tail(Pkcs7, paddingLen);
  }

  method AddOneAndZerosPadding(output: array<byte>, dataLen: nat)
    requires dataLen < output.Length < 256
    modifies output
    ensures output[..] == old(output[..dataLen]) + Tail(OneAndZeros, output.Length - dataLen)
  {
    var paddingLen := output.Length - dataLen;
    output[dataLen] := 0x80;
    for i := 1 to paddingLen
      invariant output[..dataLen] == old(output[..dataLen]) && output[dataLen] == 0x80
      invariant forall k :: dataLen < k < dataLen + i ==> output[k] == 0
    {
      output[dataLen + i] := 0x00;
    }
    assert output[dataLen..] == Tail(OneAndZeros, paddingLen);
  }

  method AddZerosAndLenPadding(output: array<byte>, dataLen: nat)
    requires dataLen < output.Length < 256
    modifies output
    ensures output[..] == old(output[..dataLen]) + Tail(ZerosAndLen, output.Length - dataLen)
  {
    var paddingLen := output.Length - dataLen;
    for i := 1 to paddingLen
      invariant output[..dataLen] == old(output[..dataLen])
      invariant forall k :: dataLen <= k < dataLen + i - 1 ==> output[k] == 0
    {
      output[dataLen + i - 1] := 0x00;
    }
    output[output.Length - 1] := ByteOf(paddingLen);
    assert output[dataLen..] == Tail(ZerosAndLen, paddingLen);
  }

  method AddZerosPadding(output: array<byte>, dataLen: nat)
    requires dataLen < output.Length < 256
    modifies output
    ensures output[..] == old(output[..dataLen]) + Tail(Zeros, output.Length - dataLen)
  {
    Put(output, dataLen, Fill(0, output.Length - dataLen));
  }

  method AddPadding(mode: PaddingMode, output: array<byte>, dataLen: nat)
    requires mode != NoPadding && dataLen < output.Length < 256
    modifies output
    ensures output[..] == old(output[..dataLen]) + Tail(mode, output.Length - dataLen)
    ensures output[..dataLen] == old(output[..dataLen]) && Padded(mode, output[..], dataLen)
  {
    ghost var data := output[..dataLen];
    match mode
    case Pkcs7 => AddPkcsPadding(output, dataLen);
    case OneAndZeros => AddOneAndZerosPadding(output, dataLen);
    case ZerosAndLen => AddZerosAndLenPadding(output, dataLen);
    case Zeros => AddZerosPadding(output, dataLen);
  }

  // ----- reading the padding

  /** Scans the whole block; the padding is bad when its length is out of range or one of its
      bytes differs. */
  method GetPkcsPadding(input: seq<byte>) returns (dataLen: nat, bad: bool)
    requires 0 < |input| < 256
    ensures !bad ==> Padded(Pkcs7, input, dataLen)
    ensures bad ==> dataLen == 0 && forall n: nat :: !Padded(Pkcs7, input, n)
  {
    var l := |input|;
    var last := input[l - 1];
    var paddingLen := Value(last);
    bad := paddingLen > l || paddingLen == 0;
    var padIdx := l - paddingLen;
    for i := 0 to l
      invariant bad <==> paddingLen > l || paddingLen == 0 || exists k :: 0 <= k < i && k >= padIdx && input[k] != last
    {
      bad := bad || (i >= padIdx && input[i] != last);
    }
    if bad {
      forall n: nat ensures !Padded(Pkcs7, input, n) { NotPkcs(input, n); }
      dataLen := 0;
    } else {
      OfValue(last);
      assert input[padIdx..] == Tail(Pkcs7, paddingLen);
      dataLen := padIdx;
    }
  }

  lemma {:induction false} NotPkcs(input: seq<byte>, n: nat)
    requires 0 < |input| < 256
    requires var p := Value(input[|input| - 1]);
      p > |input| || p == 0 || exists k :: 0 <= k < |input| && k >= |input| - p && input[k] != input[|input| - 1]
    ensures !Padded(Pkcs7, input, n)
  {
    var l := |input|;
    if n < l {
      var last := input[l - 1];
      assert input[n..][l - n - 1] == last;
      ValueOf(l - n);
      if last == ByteOf(l - n) {
        var k :| 0 <= k < l && k >= n && input[k] != last;
        assert input[n..][k - n] == input[k];
      }
    }
  }

  /** The last nonzero byte must be the marker. */
  method GetOneAndZerosPadding(input: seq<byte>) returns (dataLen: nat, bad: bool)
    requires 0 < |input| < 256
    ensures !bad ==> Padded(OneAndZeros, input, dataLen)
    ensures bad ==> forall n: nat :: !Padded(OneAndZeros, input, n)
  {
    var l := |input|;
    var inPadding := true;
    bad, dataLen := true, 0;
    for i := l downto 0
      invariant inPadding ==> bad && dataLen == 0 && forall k :: i <= k < l ==> input[k] == 0
      invariant !inPadding ==>
                  i <= dataLen < l && input[dataLen] != 0 && (forall k :: dataLen < k < l ==> input[k] == 0)
                               && (bad <==> input[dataLen] != 0x80)
    {
      var hit := input[i] != 0 && inPadding;
      if hit {
        dataLen, bad := i, input[i] != 0x80;
      }
      inPadding := inPadding && input[i] == 0;
    }
    if bad {
      forall n: nat ensures !Padded(OneAndZeros, input, n) {
        if n < l {
          assert input[n..][0] == input[n];
          if !inPadding && n < dataLen { assert input[n..][dataLen - n] == input[dataLen]; }
        }
      }
    } else {
      assert input[dataLen..] == Tail(OneAndZeros, l - dataLen);
    }
  }

  /** The last byte is the length of the padding, the bytes before it in the padding are zero.
      With a bad padding the length means nothing. */
  method GetZerosAndLenPadding(input: seq<byte>) returns (dataLen: int, bad: bool)
    requires 0 < |input| < 256
    ensures !bad ==> 0 <= dataLen && Padded(ZerosAndLen, input, dataLen)
    ensures bad ==> forall n: nat :: !Padded(ZerosAndLen, input, n)
  {
    var l := |input|;
    var paddingLen := Value(input[l - 1]);
    dataLen := l - paddingLen;
    bad := paddingLen > l || paddingLen == 0;
    var padIdx := l - paddingLen;
    for i := 0 to l - 1
      invariant bad <==> paddingLen > l || paddingLen == 0 || exists k :: 0 <= k < i && k >= padIdx && input[k] != 0
    {
      bad := bad || (i >= padIdx && input[i] != 0);
    }
    if bad {
      forall n: nat ensures !Padded(ZerosAndLen, input, n) { NotZerosAndLen(input, n); }
    } else {
      OfValue(input[l - 1]);
      assert input[dataLen..] == Tail(ZerosAndLen, paddingLen);
    }
  }

  lemma {:induction false} NotZerosAndLen(input: seq<byte>, n: nat)
    requires 0 < |input| < 256
    requires var p := Value(input[|input| - 1]);
      p > |input| || p == 0 || exists k :: 0 <= k < |input| - 1 && k >= |input| - p && input[k] != 0
    ensures !Padded(ZerosAndLen, input, n)
  {
    var l := |input|;
    if n < l {
      assert input[n..][l - n - 1] == input[l - 1];
      ValueOf(l - n);
      if input[l - 1] == ByteOf(l - n) {
        var k :| 0 <= k < l - 1 && k >= n && input[k] != 0;
        assert input[n..][k - n] == input[k];
      }
    }
  }

  /** All trailing zeros count as padding. */
  method GetZerosPadding(input: seq<byte>) returns (dataLen: nat)
    ensures dataLen <= |input| && (forall k :: dataLen <= k < |input| ==> input[k] == 0)
    ensures dataLen > 0 ==> input[dataLen - 1] != 0
  {
    var done := false;
    dataLen := 0;
    for i := |input| downto 0
      invariant !done ==> dataLen == 0 && forall k :: i <= k < |input| ==> input[k] == 0
      invariant done ==>
                  && i < dataLen <= |input| && input[dataLen - 1] != 0
                  && forall k :: dataLen <= k < |input| ==> input[k] == 0
    {
      var prevDone := done;
      done := done || input[i] != 0;
      if done != prevDone {
        dataLen := i + 1;
      }
    }
  }

  lemma {:induction false} TrimmedUnique(s: seq<byte>, n: nat)
    requires n <= |s| && (forall k :: n <= k < |s| ==> s[k] == 0) && (n > 0 ==> s[n - 1] != 0)
    ensures n == Trimmed(s)
  {
  }

  /** Data length and validity of a decrypted last block. */
  method GetPadding(mode: PaddingMode, input: seq<byte>) returns (dataLen: int, bad: bool)
    requires 0 < |input| < 256
    ensures bad <==> DataLen(mode, input) == None
    ensures !bad ==> 0 <= dataLen && DataLen(mode, input) == Some(dataLen)
    ensures mode in {Pkcs7, OneAndZeros, ZerosAndLen} ==> (!bad <==> exists n: nat :: Padded(mode, input, n))
    ensures mode in {Pkcs7, OneAndZeros, ZerosAndLen} && !bad ==> Padded(mode, input, dataLen)
    ensures mode == Zeros ==> !bad && dataLen <= |input| && forall k :: dataLen <= k < |input| ==> input[k] == 0
    ensures mode == Zeros ==> dataLen > 0 ==> input[dataLen - 1] != 0
    ensures mode == NoPadding ==> !bad && dataLen == |input|
  {
    match mode
    case NoPadding => dataLen, bad := |input|, false;
    case Pkcs7 =>
      dataLen, bad := GetPkcsPadding(input);
      if !bad { OnlyLength(mode, input, dataLen); }
    case OneAndZeros =>
      dataLen, bad := GetOneAndZerosPadding(input);
      if !bad { OnlyLength(mode, input, dataLen); }
    case ZerosAndLen =>
      dataLen, bad := GetZerosAndLenPadding(input);
      if !bad { OnlyLength(mode, input, dataLen); }
    case Zeros =>
      dataLen := GetZerosPadding(input);
      bad := false;
      TrimmedUnique(input, dataLen);
  }

  lemma {:induction false} OnlyLength(mode: PaddingMode, block: seq<byte>, n: nat)
    requires mode in {Pkcs7, OneAndZeros, ZerosAndLen} && Padded(mode, block, n)
    ensures DataLen(mode, block) == Some(n)
  {
    var m := DataLen(mode, block).value;
    PaddedUnique(mode, block, m, n);
  }

  // ----- reading what was written

  /** The padding of a written block is recognized: always for the three modes that mark their
      length, and for zeros exactly when the data does not end in a zero byte. */
  lemma {:induction false} WrittenIsRead(mode: PaddingMode, data: seq<byte>, k: nat)
    requires mode != NoPadding && 0 < k && |data| + k < 256
    ensures DataLen(mode, data + Tail(mode, k)) == Some(|data|)
         <==> (mode == Zeros ==> data == [] || data[|data| - 1] != 0)
  {
    var block := data + Tail(mode, k);
    assert block[|data|..] == Tail(mode, k);
    if mode == Zeros {
      if data == [] || data[|data| - 1] != 0 {
        TrimmedUnique(block, |data|);
      } else {
        assert block[|data| - 1] == 0;
      }
    } else {
      OnlyLength(mode, block, |data|);
    }
  }
}
