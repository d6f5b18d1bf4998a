/** The layout tree: typed nodes placed at an offset inside a parent node or directly in the
    ROM, their absolute positions and sizes, the members of a struct, and fill. */
module Layout {
  import opened Bytes
  import opened Errors
  import Rom

  /** What kind of data a node describes; one constructor per concrete class of the
      framework (the Python classes carry the same parameters as constructor arguments). */
  datatype Shape =
    | UInt8(endian: Endian)
    | Bool(endian: Endian)
    | UInt16(endian: Endian)
    | UInt32(endian: Endian)
    | Char(endian: Endian)
    | Pointer(target: Shape, endian: Endian)
    | FixedLengthString(length: int, endian: Endian)
    | ArrayIndex(element: Shape, arrayStart: int, indexOffset: int, endian: Endian)
    | Struct(members: seq<Member>)

  /** A named child of a struct, positioned relative to the struct. */
  datatype Member = Member(name: string, offset: int, shape: Shape)

  /** A placed piece of the image: its shape, its offset, and what the offset is relative to. */
  datatype Node = Node(shape: Shape, offset: int, parent: Parent)

  /** A node sits either directly in the ROM or inside another node. */
  datatype Parent = Root | Nested(node: Node)

  /** Absolute position of a node in the image (Data.get_position). */
  function Position(n: Node): int
    decreases n
  {
    n.offset + ParentPosition(n.parent)
  }

  /** Absolute position a parent lends to its children: 0 for the ROM itself. */
  function ParentPosition(p: Parent): int
    decreases p
  {
    match p
    case Root => 0
    case Nested(m) => Position(m)
  }

  /** The nodes Data.get_rom walks through: the node itself, its parent, and so on up to the
      node that sits directly in the ROM. */
  function Ancestry(n: Node): (chain: seq<Node>)
    decreases n
    ensures |chain| >= 1 && chain[0] == n
    ensures chain[|chain| - 1].parent == Root
    ensures forall i :: 0 <= i < |chain| - 1 ==> chain[i].parent == Nested(chain[i + 1])
  {
    match n.parent
    case Root => [n]
    case Nested(m) => [n] + Ancestry(m)
  }

  /** Number of parent links between n and the ROM. */
  function Depth(n: Node): nat
  {
    match n.parent
    case Root => 0
    case Nested(m) => Depth(m) + 1
  }

  function Offsets(chain: seq<Node>): (r: seq<int>)
    ensures |r| == |chain|
    ensures forall i :: 0 <= i < |chain| ==> r[i] == chain[i].offset
  {
    seq(|chain|, i requires 0 <= i < |chain| => chain[i].offset)
  }

  function Sum(s: seq<int>): int
  {
    if |s| == 0 then 0 else s[0] + Sum(s[1..])
  }

  /** A node k levels deep sits at the sum of the k + 1 offsets on its way to the ROM. */
  lemma {:induction false} PositionIsSumOfOffsets(n: Node)
    ensures |Offsets(Ancestry(n))| == Depth(n) + 1
    ensures Position(n) == Sum(Offsets(Ancestry(n)))
    decreases n
  {
    match n.parent
    case Root =>
    case Nested(m) =>
      PositionIsSumOfOffsets(m);
      assert Offsets(Ancestry(n))[1..] == Offsets(Ancestry(m));
  }

  /** Size in bytes (get_size); a fixed-length string is as large as its declared length. */
  function Size(s: Shape): (r: int)
    decreases s
    ensures s.UInt8? || s.Bool? || s.Char? ==> r == 1
    ensures s.UInt16? || s.ArrayIndex? ==> r == 2
    ensures s.UInt32? || s.Pointer? ==> r == 4
    ensures s.FixedLengthString? ==> r == s.length
    ensures s.Struct? && |s.members| == 0 ==> r == 0
  {
    match s
    case UInt8(_) => 1
    case Bool(_) => 1
    case Char(_) => 1
    case UInt16(_) => 2
    case ArrayIndex(_, _, _, _) => 2
    case UInt32(_) => 4
    case Pointer(_, _) => 4
    case FixedLengthString(length, _) => length
    case Struct(ms) => StructSize(ms)
  }

  /** Where a member ends, relative to its struct. */
  function End(m: Member): int
  {
    m.offset + Size(m.shape)
  }

  /** i is the member a stable ascending sort by offset puts last: it has the largest
      offset, and no later member in declaration order shares it. */
  predicate IsLastAtMaxOffset(ms: seq<Member>, i: int)
  {
    && 0 <= i < |ms|
    && (forall j :: 0 <= j < |ms| ==> ms[j].offset <= ms[i].offset)
    && (forall j :: i < j < |ms| ==> ms[j].offset < ms[i].offset)
  }

  /** The member Struct.get_size picks out by sorting the members by offset. */
  function LastAtMaxOffset(ms: seq<Member>): (i: nat)
    requires |ms| > 0
    ensures IsLastAtMaxOffset(ms, i)
  {
    if |ms| == 1 then 0
    else
      var k := LastAtMaxOffset(ms[1..]) + 1;
      if ms[0].offset > ms[k].offset then 0 else k
  }

  /** Struct.get_size: 0 without members, otherwise the end of the member sorted last. */
  function StructSize(ms: seq<Member>): (r: int)
    decreases ms
    ensures |ms| == 0 ==> r == 0
    ensures |ms| > 0 ==> exists i :: IsLastAtMaxOffset(ms, i) && r == End(ms[i])
  {
    if |ms| == 0 then 0
    else
      var i := LastAtMaxOffset(ms);
      assert ms[i] in ms;
      ms[i].offset + Size(ms[i].shape)
  }

  /** When members do not overlap and none is empty, the struct's size is the greatest end
      of any member. */
  lemma StructSizeIsMaxEndWhenDisjoint(ms: seq<Member>)
    requires forall i :: 0 <= i < |ms| ==> Size(ms[i].shape) > 0
    requires forall i, j :: 0 <= i < |ms| && 0 <= j < |ms| && i != j ==> Apart(ms[i], ms[j])
    ensures forall j :: 0 <= j < |ms| ==> End(ms[j]) <= StructSize(ms)
    ensures |ms| > 0 ==> exists j :: 0 <= j < |ms| && End(ms[j]) == StructSize(ms)
  {
    if |ms| > 0 {
      var i := LastAtMaxOffset(ms);
      var size := StructSize(ms);
      assert size == End(ms[i]);
      forall j | 0 <= j < |ms|
        ensures End(ms[j]) <= size
      {
        if j != i {
          assert Apart(ms[j], ms[i]);
          EndOfEarlierMember(ms[j], ms[i]);
        }
      }
    }
  }

  /** Two members whose byte ranges do not overlap. */
  predicate Apart(a: Member, b: Member)
  {
    End(a) <= b.offset || End(b) <= a.offset
  }

  /** Of two disjoint non-empty members, the one starting no later ends no later. */
  lemma EndOfEarlierMember(a: Member, b: Member)
    requires a.offset <= b.offset
    requires Size(a.shape) > 0 && Size(b.shape) > 0
    requires Apart(a, b)
    ensures End(a) <= End(b)
  {
  }

  /** With overlapping members the size is not the furthest end: a 4-byte member at 0 and a
      1-byte member at 1 give a struct of size 2. */
  lemma StructSizeOfOverlappingMembers()
    ensures StructSize([Member("word", 0, UInt32(Little)), Member("byte", 1, UInt8(Little))]) == 2
  {
    var ms := [Member("word", 0, UInt32(Little)), Member("byte", 1, UInt8(Little))];
    assert IsLastAtMaxOffset(ms, 1);
  }

  /** Members sharing the largest offset: the one declared last decides the size. */
  lemma StructSizeTieGoesToLastDeclared()
    ensures StructSize([Member("a", 0, UInt32(Little)), Member("b", 0, UInt8(Little))]) == 1
    ensures StructSize([Member("b", 0, UInt8(Little)), Member("a", 0, UInt32(Little))]) == 4
  {
    var ms := [Member("a", 0, UInt32(Little)), Member("b", 0, UInt8(Little))];
    assert IsLastAtMaxOffset(ms, 1);
    var ns := [Member("b", 0, UInt8(Little)), Member("a", 0, UInt32(Little))];
    assert IsLastAtMaxOffset(ns, 1);
  }

  /** Struct.members: each declared member as a node placed inside the struct. */
  function Members(n: Node): (r: seq<(string, Node)>)
    requires n.shape.Struct?
    ensures |r| == |n.shape.members|
    ensures forall i :: 0 <= i < |r| ==>
              && r[i].0 == n.shape.members[i].name
              && r[i].1.shape == n.shape.members[i].shape
              && r[i].1.parent == Nested(n)
              && Position(r[i].1) == Position(n) + n.shape.members[i].offset
  {
    var ms := n.shape.members;
    seq(|ms|, i requires 0 <= i < |ms| => (ms[i].name, Node(ms[i].shape, ms[i].offset, Nested(n))))
  }

  /** The number of bytes fill writes: a non-positive size repeats the byte zero times. */
  function FillLength(n: Node): nat
  {
    if Size(n.shape) > 0 then Size(n.shape) else 0
  }

  /** Data.fill: overwrite the node's whole extent with copies of one byte. */
  function Fill(rom: seq<byte>, n: Node, b: seq<byte>): (r: Result<seq<byte>>)
    requires Rom.InBounds(rom, Position(n), FillLength(n))
    ensures r.Err? <==> |b| != 1
    ensures r.Err? ==> r.error == NotOneByte
    ensures r.Ok? ==> |r.value| == |rom|
    ensures r.Ok? ==> forall i :: 0 <= i < |rom| ==>
              r.value[i] == if Position(n) <= i < Position(n) + Size(n.shape) then b[0] else rom[i]
  {
    if |b| != 1 then Err(NotOneByte)
    else Ok(Rom.Write(rom, Position(n), seq(FillLength(n), _ => b[0])))
  }
}
