/** Fixed-width fields read and written through Python's struct module: UInt8, UInt16,
    UInt32 and Bool (PackedType), and Char on top of UInt8. */
module Packed {
  import opened Bytes
  import opened Errors
  import opened Layout
  import Rom

  /** The struct format characters the framework uses: B, H, I and ?. */
  datatype Code = UnsignedChar | UnsignedShort | UnsignedInt | BoolCode

  function Width(c: Code): nat
  {
    match c
    case UnsignedChar => 1
    case UnsignedShort => 2
    case UnsignedInt => 4
    case BoolCode => 1
  }

  /** struct.pack for one value: the unsigned codes reject values outside 0..256^w - 1, and
      '?' stores the truth value of its argument. */
  function Pack(c: Code, e: Endian, v: int): (r: Result<seq<byte>>)
    ensures r.Ok? ==> |r.value| == Width(c)
    ensures c != BoolCode ==> (r.Ok? <==> 0 <= v < Pow256(Width(c)))
    ensures c == BoolCode ==> r == Ok([if v != 0 then 1 else 0])
    ensures r.Err? ==> r.error == StructError
  {
    if c == BoolCode then Ok([if v != 0 then 1 else 0])
    else if 0 <= v < Pow256(Width(c)) then Ok(Encode(v, Width(c), e))
    else Err(StructError)
  }

  /** struct.unpack for one value, converted with int(): the byte count must match the
      width exactly, and '?' yields 1 for any nonzero byte. */
  function Unpack(c: Code, e: Endian, bs: seq<byte>): (r: Result<int>)
    ensures r.Ok? <==> |bs| == Width(c)
    ensures r.Err? ==> r.error == StructError
    ensures r.Ok? ==> 0 <= r.value < Pow256(Width(c))
    ensures r.Ok? && c == BoolCode ==> r.value == if bs[0] != 0 then 1 else 0
  {
    if |bs| != Width(c) then Err(StructError)
    else if c == BoolCode then Ok(if bs[0] != 0 then 1 else 0)
    else Ok(Decode(bs, e))
  }

  /** Unpacking what was packed returns the value for the unsigned codes. */
  lemma UnpackPack(c: Code, e: Endian, v: int)
    requires c != BoolCode && 0 <= v < Pow256(Width(c))
    ensures Unpack(c, e, Pack(c, e, v).value) == Ok(v)
  {
    DecodeEncode(v, Width(c), e);
  }

  /** Packing what was unpacked returns the same bytes for the unsigned codes. */
  lemma PackUnpack(c: Code, e: Endian, bs: seq<byte>)
    requires c != BoolCode && |bs| == Width(c)
    ensures Pack(c, e, Unpack(c, e, bs).value) == Ok(bs)
  {
    EncodeDecode(bs, e);
  }

  /** The shapes whose read and write go through PackedType. */
  predicate IsPacked(s: Shape)
  {
    s.UInt8? || s.Bool? || s.UInt16? || s.UInt32? || s.Char? || s.Pointer? || s.ArrayIndex?
  }

  /** format_string_char of each packed class. */
  function CodeOf(s: Shape): (c: Code)
    requires IsPacked(s)
    ensures Width(c) == Size(s)
  {
    match s
    case UInt8(_) => UnsignedChar
    case Char(_) => UnsignedChar
    case Bool(_) => BoolCode
    case UInt16(_) => UnsignedShort
    case ArrayIndex(_, _, _, _) => UnsignedShort
    case UInt32(_) => UnsignedInt
    case Pointer(_, _) => UnsignedInt
  }

  /** [Position(n), Position(n) + Size) lies inside the image. */
  predicate Fits(rom: seq<byte>, n: Node)
  {
    Rom.InBounds(rom, Position(n), Size(n.shape))
  }

  /** PackedType.read: unpack the node's bytes; a node running past the end of the image
      hands struct.unpack too few bytes. */
  function PackedRead(rom: seq<byte>, n: Node): (r: Result<int>)
    requires IsPacked(n.shape) && Position(n) >= 0
    ensures r.Ok? <==> Fits(rom, n)
    ensures r.Err? ==> r.error == StructError
    ensures r.Ok? ==> 0 <= r.value < Pow256(Size(n.shape))
  {
    var p := Position(n);
    if p + Size(n.shape) <= |rom| then Unpack(CodeOf(n.shape), n.shape.endian, Rom.Read(rom, p, Size(n.shape)))
    else Err(StructError)
  }

  /** PackedType.write: pack the value, then overwrite the node's bytes. A value struct.pack
      rejects raises before the image is touched. */
  function PackedWrite(rom: seq<byte>, n: Node, v: int): (r: Result<seq<byte>>)
    requires IsPacked(n.shape) && Fits(rom, n)
    ensures r.Err? <==> !n.shape.Bool? && !(0 <= v < Pow256(Size(n.shape)))
    ensures r.Err? ==> r.error == StructError
    ensures r.Ok? ==> |r.value| == |rom|
    ensures r.Ok? ==> forall i :: 0 <= i < |rom| && !(Position(n) <= i < Position(n) + Size(n.shape)) ==>
              r.value[i] == rom[i]
  {
    var bs :- Pack(CodeOf(n.shape), n.shape.endian, v);
    Ok(Rom.Write(rom, Position(n), bs))
  }

  /** UInt8, UInt16, UInt32 (and the raw word of a pointer or index), either byte order:
      reading after writing an in-range value gives the value back. */
  lemma PackedRoundTrip(rom: seq<byte>, n: Node, v: int)
    requires IsPacked(n.shape) && !n.shape.Bool? && Fits(rom, n)
    requires 0 <= v < Pow256(Size(n.shape))
    ensures PackedWrite(rom, n, v).Ok?
    ensures PackedRead(PackedWrite(rom, n, v).value, n) == Ok(v)
  {
    var c := CodeOf(n.shape);
    var bs := Pack(c, n.shape.endian, v).value;
    Rom.ReadAfterWrite(rom, Position(n), bs);
    UnpackPack(c, n.shape.endian, v);
  }

  /** Writing back the value just read leaves the image unchanged. */
  lemma PackedWriteWhatWasRead(rom: seq<byte>, n: Node)
    requires IsPacked(n.shape) && !n.shape.Bool? && Fits(rom, n)
    ensures PackedRead(rom, n).Ok?
    ensures PackedWrite(rom, n, PackedRead(rom, n).value) == Ok(rom)
  {
    var p := Position(n);
    var bs := Rom.Read(rom, p, Size(n.shape));
    PackUnpack(CodeOf(n.shape), n.shape.endian, bs);
    Rom.WriteWhatWasRead(rom, p, Size(n.shape));
  }

  /** Writing one field leaves the value of every field it does not overlap unchanged. */
  lemma PackedWriteKeepsDisjointField(rom: seq<byte>, n: Node, v: int, m: Node)
    requires IsPacked(n.shape) && Fits(rom, n) && PackedWrite(rom, n, v).Ok?
    requires IsPacked(m.shape) && Position(m) >= 0
    requires Position(m) + Size(m.shape) <= Position(n) || Position(n) + Size(n.shape) <= Position(m)
    ensures PackedRead(PackedWrite(rom, n, v).value, m) == PackedRead(rom, m)
  {
    var rom' := PackedWrite(rom, n, v).value;
    if Fits(rom, m) {
      assert Rom.Read(rom', Position(m), Size(m.shape)) == Rom.Read(rom, Position(m), Size(m.shape));
    }
  }

  /** Bool.read is 1 exactly when the stored byte is nonzero. */
  lemma BoolReadIsNonzero(rom: seq<byte>, n: Node)
    requires n.shape.Bool? && Fits(rom, n)
    ensures PackedRead(rom, n) == Ok(if rom[Position(n)] != 0 then 1 else 0)
  {
  }

  /** Bool.write stores 1 for a truthy value and 0 for a falsy one; reading it back yields the
      same 1 or 0. */
  lemma BoolWriteStoresTruth(rom: seq<byte>, n: Node, v: int)
    requires n.shape.Bool? && Fits(rom, n)
    ensures PackedWrite(rom, n, v).Ok?
    ensures PackedWrite(rom, n, v).value[Position(n)] == if v != 0 then 1 else 0
    ensures PackedRead(PackedWrite(rom, n, v).value, n) == Ok(if v != 0 then 1 else 0)
  {
  }

  /** Char.read: the code point of the stored byte, as a one-character string (chr). */
  function CharRead(rom: seq<byte>, n: Node): (r: Result<string>)
    requires n.shape.Char? && Position(n) >= 0
    ensures r.Ok? <==> Fits(rom, n)
    ensures r.Err? ==> r.error == StructError
    ensures r.Ok? ==> |r.value| == 1 && r.value[0] as int == rom[Position(n)]
  {
    var b :- PackedRead(rom, n);
    Ok([b as char])
  }

  /** Char.write: ord() of a one-character string, stored as a UInt8; ord() raises for any
      other length and struct.pack for a code point of 256 or more. */
  function CharWrite(rom: seq<byte>, n: Node, c: string): (r: Result<seq<byte>>)
    requires n.shape.Char? && Fits(rom, n)
    ensures |c| != 1 ==> r == Err(NotOneCharacter)
    ensures |c| == 1 ==> (r.Ok? <==> c[0] as int < 256)
    ensures |c| == 1 && c[0] as int >= 256 ==> r == Err(StructError)
    ensures r.Ok? ==> r.value == Rom.Write(rom, Position(n), [c[0] as int])
  {
    if |c| != 1 then Err(NotOneCharacter)
    else
      EncodeOneByte(c[0] as int, n.shape.endian);
      PackedWrite(rom, n, c[0] as int)
  }

  /** Writing a character below code point 256 and reading it back yields the character. */
  lemma CharRoundTrip(rom: seq<byte>, n: Node, c: string)
    requires n.shape.Char? && Fits(rom, n)
    requires |c| == 1 && c[0] as int < 256
    ensures CharWrite(rom, n, c).Ok?
    ensures CharRead(CharWrite(rom, n, c).value, n) == Ok(c)
  {
    PackedRoundTrip(rom, n, c[0] as int);
    assert c == [(c[0] as int) as char];
  }

  /** After fill with a zero byte, every packed field inside the filled extent reads 0. */
  lemma FillZeroReadsZero(rom: seq<byte>, n: Node, m: Node)
    requires Rom.InBounds(rom, Position(n), FillLength(n))
    requires IsPacked(m.shape)
    requires Position(n) <= Position(m) && Position(m) + Size(m.shape) <= Position(n) + Size(n.shape)
    ensures Fill(rom, n, [0]).Ok?
    ensures PackedRead(Fill(rom, n, [0]).value, m) == Ok(0)
  {
    var rom' := Fill(rom, n, [0]).value;
    var bs := Rom.Read(rom', Position(m), Size(m.shape));
    DecodeZeros(bs, m.shape.endian);
  }
}
