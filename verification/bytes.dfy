/** Byte cells of the ROM image and the fixed-width unsigned encodings that Python's
    struct module applies for the format codes B, H and I. */
module Bytes {

  /** One cell of the image: the Python side keeps the image as a list of ints in 0..255. */
  type byte = b: int | 0 <= b < 256

  /** Byte order named by the first character of a struct format string ('<' or '>'). */
  datatype Endian = Little | Big

  /** 256^n, the number of values an n-byte unsigned field can hold. */
  function Pow256(n: nat): (r: nat)
    ensures r >= 1
  {
    if n == 0 then 1 else 256 * Pow256(n - 1)
  }

  /** Unsigned value of a little-endian byte string. */
  function LeDecode(bs: seq<byte>): (v: nat)
    ensures v < Pow256(|bs|)
  {
    if |bs| == 0 then 0 else bs[0] + 256 * LeDecode(bs[1..])
  }

  /** The n low-order bytes of v, least significant first. */
  function LeEncode(v: nat, n: nat): (bs: seq<byte>)
    ensures |bs| == n
  {
    if n == 0 then [] else [v % 256] + LeEncode(v / 256, n - 1)
  }

  function Reverse<T>(s: seq<T>): (r: seq<T>)
    ensures |r| == |s|
    ensures forall i :: 0 <= i < |s| ==> r[i] == s[|s| - 1 - i]
  {
    if |s| == 0 then [] else Reverse(s[1..]) + [s[0]]
  }

  /** Unsigned value of a byte string in the given byte order. */
  function Decode(bs: seq<byte>, e: Endian): (v: nat)
    ensures v < Pow256(|bs|)
  {
    match e
    case Little => LeDecode(bs)
    case Big => LeDecode(Reverse(bs))
  }

  /** The n-byte representation of v in the given byte order (v is reduced modulo 256^n). */
  function Encode(v: nat, n: nat, e: Endian): (bs: seq<byte>)
    ensures |bs| == n
  {
    match e
    case Little => LeEncode(v, n)
    case Big => Reverse(LeEncode(v, n))
  }

  lemma DivBelow(v: nat, p: nat)
    requires v < 256 * p
    ensures v / 256 < p
  {
  }

  lemma {:induction false} LeDecodeEncode(v: nat, n: nat)
    requires v < Pow256(n)
    ensures LeDecode(LeEncode(v, n)) == v
  {
    if n > 0 {
      DivBelow(v, Pow256(n - 1));
      LeDecodeEncode(v / 256, n - 1);
      var bs := LeEncode(v, n);
      assert bs[1..] == LeEncode(v / 256, n - 1);
    }
  }

  lemma {:induction false} LeEncodeDecode(bs: seq<byte>)
    ensures LeEncode(LeDecode(bs), |bs|) == bs
  {
    if |bs| > 0 {
      LeEncodeDecode(bs[1..]);
      var v := LeDecode(bs);
      assert v % 256 == bs[0] && v / 256 == LeDecode(bs[1..]);
      assert bs == [bs[0]] + bs[1..];
    }
  }

  lemma ReverseReverse<T>(s: seq<T>)
    ensures Reverse(Reverse(s)) == s
  {
  }

  /** Decoding an encoded in-range value gives the value back, in either byte order. */
  lemma DecodeEncode(v: nat, n: nat, e: Endian)
    requires v < Pow256(n)
    ensures Decode(Encode(v, n, e), e) == v
  {
    LeDecodeEncode(v, n);
    if e == Big {
      ReverseReverse(LeEncode(v, n));
    }
  }

  /** Every byte string is the encoding of its own decoded value. */
  lemma EncodeDecode(bs: seq<byte>, e: Endian)
    ensures Encode(Decode(bs, e), |bs|, e) == bs
  {
    match e
    case Little => LeEncodeDecode(bs);
    case Big =>
      LeEncodeDecode(Reverse(bs));
      ReverseReverse(bs);
  }

  /** A value below 256 encodes to the single byte holding it, in either byte order. */
  lemma EncodeOneByte(v: nat, e: Endian)
    ensures v < 256 ==> Encode(v, 1, e) == [v]
  {
    if v < 256 {
      assert LeEncode(v, 1) == [v % 256] + LeEncode(v / 256, 0);
    }
  }

  /** A run of zero bytes decodes to zero. */
  lemma {:induction false} DecodeZeros(bs: seq<byte>, e: Endian)
    requires forall i :: 0 <= i < |bs| ==> bs[i] == 0
    ensures Decode(bs, e) == 0
  {
    LeDecodeZeros(bs);
    LeDecodeZeros(Reverse(bs));
  }

  lemma {:induction false} LeDecodeZeros(bs: seq<byte>)
    requires forall i :: 0 <= i < |bs| ==> bs[i] == 0
    ensures LeDecode(bs) == 0
  {
    if |bs| > 0 {
      LeDecodeZeros(bs[1..]);
    }
  }

  /** A byte string decodes to zero only if every byte is zero. */
  lemma {:induction false} LeDecodeZeroOnlyForZeros(bs: seq<byte>)
    requires LeDecode(bs) == 0
    ensures forall i :: 0 <= i < |bs| ==> bs[i] == 0
  {
    if |bs| > 0 {
      LeDecodeZeroOnlyForZeros(bs[1..]);
      forall i | 0 <= i < |bs|
        ensures bs[i] == 0
      {
        if i > 0 {
          assert bs[i] == bs[1..][i - 1];
        }
      }
    }
  }
}
