/** The ROM image as an immutable byte sequence, with the slice-based read and write the
    framework's Rom class offers. A write yields the new image instead of mutating a list. */
module Rom {
  import opened Bytes

  /** [pos, pos + len) lies inside the image. */
  predicate InBounds(rom: seq<byte>, pos: int, len: int) {
    0 <= pos && 0 <= len && pos + len <= |rom|
  }

  /** The len bytes starting at pos (Rom.read and Rom.read_raw). */
  function Read(rom: seq<byte>, pos: int, len: int): (r: seq<byte>)
    requires InBounds(rom, pos, len)
    ensures |r| == len
    ensures forall i :: 0 <= i < len ==> r[i] == rom[pos + i]
  {
    rom[pos..pos + len]
  }

  /** The image with the bytes at [pos, pos + |v|) replaced by v (Rom.write). */
  function Write(rom: seq<byte>, pos: int, v: seq<byte>): (r: seq<byte>)
    requires InBounds(rom, pos, |v|)
    ensures |r| == |rom|
    ensures forall i :: 0 <= i < |v| ==> r[pos + i] == v[i]
    ensures forall i :: 0 <= i < |rom| && !(pos <= i < pos + |v|) ==> r[i] == rom[i]
  {
    rom[..pos] + v + rom[pos + |v|..]
  }

  /** Reading back the range just written returns the written bytes. */
  lemma ReadAfterWrite(rom: seq<byte>, pos: int, v: seq<byte>)
    requires InBounds(rom, pos, |v|)
    ensures Read(Write(rom, pos, v), pos, |v|) == v
  {
  }

  /** A write does not disturb a read of a range it does not overlap. */
  lemma ReadDisjointWrite(rom: seq<byte>, pos: int, v: seq<byte>, q: int, n: int)
    requires InBounds(rom, pos, |v|) && InBounds(rom, q, n)
    requires q + n <= pos || pos + |v| <= q
    ensures Read(Write(rom, pos, v), q, n) == Read(rom, q, n)
  {
  }

  /** Writing back what was just read leaves the image as it was. */
  lemma WriteWhatWasRead(rom: seq<byte>, pos: int, n: int)
    requires InBounds(rom, pos, n)
    ensures Write(rom, pos, Read(rom, pos, n)) == rom
  {
  }

  /** Of two writes to the same range, the second one wins. */
  lemma WriteOverwrites(rom: seq<byte>, pos: int, v: seq<byte>, w: seq<byte>)
    requires InBounds(rom, pos, |v|) && |w| == |v|
    ensures Write(Write(rom, pos, v), pos, w) == Write(rom, pos, w)
  {
  }
}
