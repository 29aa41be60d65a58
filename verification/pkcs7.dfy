/**
 * PKCS#7 block padding with a 128-bit block, the scheme of section 6.3 of
 * RFC 5652 (also section 10.3 of RFC 2315): `n` bytes of value `n`, 1 <= n <= 16,
 * bring the message to a whole number of blocks. The handshake only removes
 * padding; `Pad` is the sender's half, kept so that removal has a partner.
 */
module Pkcs7 {
  import opened Wrappers

  /** 128 bits, in bytes. */
  const BlockSize: nat := 16

  datatype PaddingError = InvalidPadding

  /** The last `n` bytes of `data` all equal `n`. */
  predicate EndsWithPad(data: seq<Byte>, n: nat)
    requires n <= |data|
  {
    forall j :: |data| - n <= j < |data| ==> data[j] == n
  }

  /** What the unpadder accepts: whole blocks, a last byte in 1..16 and that many copies of it. */
  predicate WellPadded(data: seq<Byte>)
  {
    && 0 < |data| && |data| % BlockSize == 0
    && 1 <= data[|data| - 1] <= BlockSize
    && EndsWithPad(data, data[|data| - 1])
  }

  /** `padding.PKCS7(128).unpadder()`, fed the whole input and finalized. */
  function Unpad(data: seq<Byte>): (r: Result<seq<Byte>, PaddingError>)
    ensures r.Success? <==> WellPadded(data)
    ensures r.Success? ==> |data| - BlockSize <= |r.value| < |data| && r.value == data[..|r.value|]
    ensures r.Success? ==> EndsWithPad(data, |data| - |r.value|)
  {
    if |data| == 0 || |data| % BlockSize != 0 then Failure(InvalidPadding)
    else
      var n := data[|data| - 1];
      if n < 1 || n > BlockSize then Failure(InvalidPadding)
      else if EndsWithPad(data, n) then Success(data[..|data| - n])
      else Failure(InvalidPadding)
  }

  /** The padder: always adds between 1 and 16 bytes. */
  function Pad(data: seq<Byte>): (r: seq<Byte>)
    ensures |r| % BlockSize == 0 && |data| < |r| <= |data| + BlockSize
    ensures r[..|data|] == data
  {
    var n := BlockSize - |data| % BlockSize;
    data + seq(n, _ => n)
  }

  /** Removing padding undoes adding it. */
  lemma UnpadPad(data: seq<Byte>)
    ensures Unpad(Pad(data)) == Success(data)
  {
    var p := Pad(data);
    var n := BlockSize - |data| % BlockSize;
    assert p[|p| - 1] == n;
    assert EndsWithPad(p, n);
    assert p[..|p| - n] == data;
  }

  /** Accepted input is exactly some message padded: unpadding and padding again restores it. */
  lemma PadUnpad(data: seq<Byte>)
    requires Unpad(data).Success?
    ensures Pad(Unpad(data).value) == data
  {
    var m := Unpad(data).value;
    var n := |data| - |m|;
    assert n == data[|data| - 1];
    assert |m| % BlockSize == BlockSize - n by {
      assert |data| == |m| + n;
    }
    assert Pad(m) == m + seq(n, _ => n);
    assert data == m + data[|m|..];
    assert data[|m|..] == seq(n, _ => n);
  }

  /** Changing any padding byte except the last one to another value is detected. */
  lemma CorruptedPaddingRejected(data: seq<Byte>, j: nat, v: Byte)
    requires WellPadded(data)
    requires |data| - data[|data| - 1] <= j < |data| - 1
    requires v != data[|data| - 1]
    ensures Unpad(data[j := v]).Failure?
  {
    var d := data[j := v];
    assert d[|d| - 1] == data[|data| - 1];
    assert d[j] != d[|d| - 1];
  }
}
