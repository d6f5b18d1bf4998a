/** Fields whose stored integer locates another node: Pointer (a bus address biased by the
    cartridge's mapping at 0x8000000) and ArrayIndex (an index into a fixed-stride table). */
module Pointers {
  import opened Bytes
  import opened Errors
  import opened Layout
  import opened Packed
  import Rom

  /** Where the cartridge image starts on the bus; a stored pointer is an image offset plus this. */
  const GbaPointerOffset: int := 0x800_0000

  /** The value Pointer.read yields for a stored word of 0. */
  const NullPtr: int := 0 - GbaPointerOffset

  /** Pointer.read: the stored 32-bit word minus the bus bias. */
  function PointerRead(rom: seq<byte>, n: Node): (r: Result<int>)
    requires n.shape.Pointer? && Position(n) >= 0
    ensures r.Ok? <==> Fits(rom, n)
    ensures r.Err? ==> r.error == StructError
    ensures r.Ok? ==> NullPtr <= r.value < Pow256(4) - GbaPointerOffset
  {
    var w :- PackedRead(rom, n);
    Ok(w - GbaPointerOffset)
  }

  /** Pointer.write: store the image offset plus the bus bias as a 32-bit word; struct.pack
      rejects the sum unless it lies in 0..2^32 - 1. */
  function PointerWrite(rom: seq<byte>, n: Node, x: int): (r: Result<seq<byte>>)
    requires n.shape.Pointer? && Fits(rom, n)
    ensures r.Err? <==> !(0 <= x + GbaPointerOffset < Pow256(4))
    ensures r.Err? ==> r.error == StructError
    ensures r.Ok? ==> |r.value| == |rom|
    ensures r.Ok? ==> forall i :: 0 <= i < |rom| && !(Position(n) <= i < Position(n) + 4) ==> r.value[i] == rom[i]
  {
    PackedWrite(rom, n, x + GbaPointerOffset)
  }

  /** Reading a pointer whose four stored bytes decode to the word w gives w minus the bias,
      whatever else the image holds. */
  lemma PointerReadSubtractsBias(rom: seq<byte>, n: Node, w: int)
    requires n.shape.Pointer? && Fits(rom, n)
    requires Decode(Rom.Read(rom, Position(n), 4), n.shape.endian) == w
    ensures PointerRead(rom, n) == Ok(w - GbaPointerOffset)
  {
  }

  /** write(x) then read() gives x back whenever x plus the bias fits in 32 bits. */
  lemma PointerRoundTrip(rom: seq<byte>, n: Node, x: int)
    requires n.shape.Pointer? && Fits(rom, n)
    requires 0 <= x + GbaPointerOffset < Pow256(4)
    ensures PointerWrite(rom, n, x).Ok?
    ensures PointerRead(PointerWrite(rom, n, x).value, n) == Ok(x)
  {
    PackedRoundTrip(rom, n, x + GbaPointerOffset);
  }

  /** A pointer reads as the null sentinel exactly when its four stored bytes are all zero. */
  lemma NullIffZeroWord(rom: seq<byte>, n: Node)
    requires n.shape.Pointer? && Fits(rom, n)
    ensures PointerRead(rom, n) == Ok(NullPtr) <==> forall i :: Position(n) <= i < Position(n) + 4 ==> rom[i] == 0
  {
    var bs := Rom.Read(rom, Position(n), 4);
    if PointerRead(rom, n) == Ok(NullPtr) {
      assert Decode(bs, n.shape.endian) == 0;
      match n.shape.endian
      case Little => LeDecodeZeroOnlyForZeros(bs);
      case Big =>
        LeDecodeZeroOnlyForZeros(Reverse(bs));
        forall i | 0 <= i < 4
          ensures bs[i] == 0
        {
          assert bs[i] == Reverse(bs)[3 - i];
        }
    }
    if forall i :: Position(n) <= i < Position(n) + 4 ==> rom[i] == 0 {
      assert forall i :: 0 <= i < 4 ==> bs[i] == rom[Position(n) + i];
      DecodeZeros(bs, n.shape.endian);
    }
  }

  /** Pointer.dereference: a node of the target shape at the pointed-to offset, placed
      directly in the ROM; the null sentinel raises instead. */
  function Dereference(rom: seq<byte>, n: Node): (r: Result<Node>)
    requires n.shape.Pointer? && Position(n) >= 0
    ensures !Fits(rom, n) ==> r == Err(StructError)
    ensures Fits(rom, n) ==> (r.Err? <==> PointerRead(rom, n) == Ok(NullPtr))
    ensures r.Err? && Fits(rom, n) ==> r.error == NullPointer
    ensures r.Ok? ==> && r.value.parent == Root
                      && r.value.shape == n.shape.target
                      && PointerRead(rom, n) == Ok(Position(r.value))
  {
    var address :- PointerRead(rom, n);
    if address == NullPtr then Err(NullPointer)
    else Ok(Node(n.shape.target, address, Root))
  }

  /** After write(x) with a non-null x, dereference yields the target node at x. */
  lemma DereferenceAfterWrite(rom: seq<byte>, n: Node, x: int)
    requires n.shape.Pointer? && Fits(rom, n)
    requires 0 <= x + GbaPointerOffset < Pow256(4) && x != NullPtr
    ensures PointerWrite(rom, n, x).Ok?
    ensures Dereference(PointerWrite(rom, n, x).value, n) == Ok(Node(n.shape.target, x, Root))
  {
    PointerRoundTrip(rom, n, x);
  }

  /** Writing the null sentinel stores a zero word, and dereferencing it then fails. */
  lemma DereferenceNullFails(rom: seq<byte>, n: Node)
    requires n.shape.Pointer? && Fits(rom, n)
    ensures PointerWrite(rom, n, NullPtr).Ok?
    ensures forall i :: Position(n) <= i < Position(n) + 4 ==> PointerWrite(rom, n, NullPtr).value[i] == 0
    ensures Dereference(PointerWrite(rom, n, NullPtr).value, n) == Err(NullPointer)
  {
    PointerRoundTrip(rom, n, NullPtr);
    NullIffZeroWord(PointerWrite(rom, n, NullPtr).value, n);
  }

  /** ArrayIndex.write: not implemented, so every call fails and nothing is written. */
  function ArrayIndexWrite(rom: seq<byte>, n: Node, v: int): (r: Result<seq<byte>>)
    requires n.shape.ArrayIndex?
    ensures r.Err? && r.error == WriteUnsupported
  {
    Err(WriteUnsupported)
  }

  /** ArrayIndex.dereference: read the 16-bit index, shift it by the index offset and scale
      it by the element's size from the start of the table; the element sits in the ROM. */
  function ArrayIndexDereference(rom: seq<byte>, n: Node): (r: Result<Node>)
    requires n.shape.ArrayIndex? && Position(n) >= 0
    ensures r.Ok? <==> Fits(rom, n)
    ensures r.Err? ==> r.error == StructError
    ensures r.Ok? ==> r.value.parent == Root && r.value.shape == n.shape.element
  {
    var index :- PackedRead(rom, n);
    Ok(Node(n.shape.element, n.shape.arrayStart + (index + n.shape.indexOffset) * Size(n.shape.element), Root))
  }

  /** Wherever the index reads as i, the dereferenced element sits at
      array_start + (i + index_offset) * element size. */
  lemma ArrayIndexElementPosition(rom: seq<byte>, n: Node, i: int)
    requires n.shape.ArrayIndex? && Position(n) >= 0 && PackedRead(rom, n) == Ok(i)
    ensures ArrayIndexDereference(rom, n).Ok?
    ensures Position(ArrayIndexDereference(rom, n).value)
            == n.shape.arrayStart + (i + n.shape.indexOffset) * Size(n.shape.element)
  {
  }
}
