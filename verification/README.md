# Advance Wars 2 ROM layout framework — a Dafny model

The toolkit describes the contents of a Game Boy Advance cartridge image as a tree of typed
fields. A field (`Data`) sits at an offset relative to its parent, which is either another
field (usually a `Struct`) or the ROM image itself. Its absolute position is the sum of the
offsets along that chain. Typed fields read and write integers, booleans, characters,
pointers and strings at their position, using Python's `struct` module and a configurable
byte order.

This project models that framework as pure functions over an immutable image:

- `Errors` (errors.dfy): the exceptions the framework can raise, collected into one `Error`
  datatype, plus a `Result` type for reads and writes that can fail. An `Effect` pairs an
  image with an outcome, for a write that can raise after it has already changed bytes.
- `Bytes` (bytes.dfy): the byte type, little- and big-endian unsigned encodings, and their
  round trips in both directions.
- `Rom` (rom.dfy): the `Rom` object's `read_raw`, `read` and `write`, as slices of a
  `seq<byte>`.
- `Layout` (layout.dfy): the field tree. A `Node` holds a `Shape` (one constructor per field
  class), its own offset and its `Parent` (`Root`, the image, or another node). The module
  also covers `get_position`, `get_rom` (the chain of ancestors), `get_size` (including
  `Struct.get_size`), `Struct.members` and `fill`.
- `Packed` (packed.dfy): the `PackedType` read and write through `struct`'s `B`, `H`, `I`
  and `?` codes, and `Char`.
- `Pointers` (pointers.dfy): `Pointer`, whose stored word is the image offset plus the bus
  bias 0x8000000 and whose null sentinel is a stored zero. Also `ArrayIndex`, a 16-bit index
  into a table at a fixed address.
- `Hex` (hex.dfy): Python's `hex()` for the offset that `FixedLengthString.read` puts in the label it returns.
- `Strings` (strings.dfy): the null-terminated strings, `FixedLengthString` and
  `DynamicString`.

Where a Python operation raises, the model returns `Err` with the matching error. Where the
Python would index outside the image, the model requires the access to lie inside it, except
for the packed reads. Those hand `struct.unpack` a short slice and raise `struct.error`, and
the model returns that error.

Two behaviours of the code are easy to misread, and the model keeps both as written:

- `Struct.get_size` (aw2mods/framework.py:286-291) is not the greatest member end. It takes
  the member with the greatest offset, the last of them in declaration order on a tie, and
  adds that member's size, so overlapping members can give a smaller size
  (`Layout.StructSizeOfOverlappingMembers`). For disjoint, non-empty members the two agree
  (`Layout.StructSizeIsMaxEndWhenDisjoint`).
- `FixedLengthString.read` (aw2mods/framework.py:193-200) is not bounded by the declared
  length; it scans to the first zero byte, however far away it is, so
  `Strings.FixedLengthStringRead` has no capacity bound.

## Model

| member | source | states |
|---|---|---|
| Rom.Read | aw2mods/framework.py:12-17 | read_raw/read of an in-image range yields exactly `length` bytes, the i-th being the image byte at position + i |
| Rom.Write | aw2mods/framework.py:19-21 | write keeps the image length, stores value at position.. and leaves every byte outside that range unchanged |
| Rom.ReadAfterWrite | aw2mods/framework.py:12-21 | reading back the range just written yields the written bytes |
| Rom.ReadDisjointWrite | aw2mods/framework.py:12-21 | a write does not change what a read of a disjoint range yields |
| Rom.WriteWhatWasRead | aw2mods/framework.py:12-21 | writing back the bytes just read leaves the image as it was |
| Rom.WriteOverwrites | aw2mods/framework.py:19-21 | a second write of the same length at the same position erases every trace of the first |
| Bytes.DecodeEncode | aw2mods/framework.py:98-106 | decoding the n-byte encoding of v < 256^n (either byte order) gives v back |
| Bytes.EncodeDecode | aw2mods/framework.py:98-106 | re-encoding a decoded byte string, at its own length and byte order, gives the same bytes |
| Bytes.EncodeOneByte | aw2mods/framework.py:143-149 | a one-byte encoding of a value below 256 is that value in either byte order |
| Bytes.DecodeZeros | aw2mods/framework.py:154-155 | an all-zero byte string decodes to 0 in either byte order |
| Bytes.LeDecodeZeroOnlyForZeros | aw2mods/framework.py:154-155 | only an all-zero byte string decodes to 0 |
| Layout.Ancestry | aw2mods/framework.py:51-58 | get_rom climbs the parent chain: the chain starts at the node, each element's parent is the next, and the last sits directly in the ROM |
| Layout.PositionIsSumOfOffsets | aw2mods/framework.py:42-49 | a node k parent links below the ROM has an ancestry of k + 1 nodes, and its absolute position is the sum of their offsets |
| Layout.Size | aw2mods/framework.py:109-191 | get_size per class: 1 byte for UInt8, Bool and Char (inherited from UInt8), 2 for UInt16 and ArrayIndex (inherited from UInt16), 4 for UInt32 and Pointer, the declared length for a FixedLengthString, and 0 for a struct without members |
| Layout.LastAtMaxOffset | aw2mods/framework.py:289-291 | the member the stable sort by offset puts last: it has the greatest offset, and no later-declared member shares it |
| Layout.StructSize | aw2mods/framework.py:286-291 | get_size is 0 for a struct with no members, else the end of the last member at the greatest offset |
| Layout.StructSizeIsMaxEndWhenDisjoint | aw2mods/framework.py:286-291 | for pairwise disjoint members of positive size, get_size is the greatest member end and bounds every member's end |
| Layout.StructSizeOfOverlappingMembers | aw2mods/framework.py:286-291 | a 32-bit word at 0 overlapped by a byte at 1 gives size 2, not 4 |
| Layout.StructSizeTieGoesToLastDeclared | aw2mods/framework.py:289-291 | with two members at the same offset, the later-declared one's size decides, so declaration order changes the size |
| Layout.Members | aw2mods/framework.py:293-294 | members lists each declared member by name, as a node of its shape parented to the struct, positioned at the struct's position plus its offset |
| Layout.Fill | aw2mods/framework.py:60-63 | fill fails unless given exactly one byte; otherwise that byte covers the node's get_size bytes from its position and nothing else changes |
| Packed.Pack | aw2mods/framework.py:104-106 | struct.pack of B/H/I accepts exactly the values in 0..256^width - 1 and yields width bytes; `?` stores 1 for a nonzero value and 0 otherwise |
| Packed.Unpack | aw2mods/framework.py:98-102 | struct.unpack succeeds exactly on width bytes and yields a value below 256^width; `?` yields 1 iff its byte is nonzero |
| Packed.UnpackPack | aw2mods/framework.py:98-106 | unpacking what B/H/I packed gives the value back |
| Packed.PackUnpack | aw2mods/framework.py:98-106 | packing what B/H/I unpacked gives the bytes back |
| Packed.CodeOf | aw2mods/framework.py:109-164 | each packed class's format character has the same width as its get_size (1, 1, 2, 4; 4 for Pointer and 2 for ArrayIndex) |
| Packed.PackedRead | aw2mods/framework.py:98-102 | read succeeds iff the node's get_size bytes lie in the image, yields a value below 256^size, and otherwise raises struct.error |
| Packed.PackedWrite | aw2mods/framework.py:104-106 | write raises struct.error exactly for an out-of-range value of a non-Bool field, before any byte is written; otherwise the image keeps its length and only the field's get_size bytes change |
| Packed.PackedRoundTrip | aw2mods/framework.py:98-140 | write(v) then read() gives v for every value in range of an integer field |
| Packed.PackedWriteWhatWasRead | aw2mods/framework.py:98-106 | writing back what read() returned leaves the image unchanged |
| Packed.PackedWriteKeepsDisjointField | aw2mods/framework.py:98-106 | writing one field does not change what a field at disjoint bytes reads |
| Packed.BoolReadIsNonzero | aw2mods/framework.py:117-122 | a Bool reads 1 iff its byte is nonzero, else 0 |
| Packed.BoolWriteStoresTruth | aw2mods/framework.py:117-122 | writing any value to a Bool stores 1 or 0 by truthiness and reads back as that |
| Packed.CharRead | aw2mods/framework.py:143-146 | Char.read yields a one-character string whose code point is the byte, or struct.error past the image |
| Packed.CharWrite | aw2mods/framework.py:148-149 | Char.write fails unless given one character, raises struct.error for a code point of 256 or more, and otherwise stores exactly that code point at the position |
| Packed.CharRoundTrip | aw2mods/framework.py:143-149 | a character below 256, written then read, comes back unchanged |
| Packed.FillZeroReadsZero | aw2mods/framework.py:60-63 | after fill with a zero byte, every packed field inside the filled extent reads 0 |
| Pointers.PointerRead | aw2mods/framework.py:167-168 | read succeeds iff the pointer's four bytes lie in the image, raises struct.error otherwise, and yields a value in -0x8000000..2^32 - 1 - 0x8000000; the subtraction of the bias itself is stated by Pointers.PointerReadSubtractsBias |
| Pointers.PointerWrite | aw2mods/framework.py:170-171 | write adds the bias and fails with struct.error exactly when the sum is outside 32 bits; only the pointer's four bytes change |
| Pointers.PointerReadSubtractsBias | aw2mods/framework.py:167-168 | in any image, a pointer whose four stored bytes decode (in its byte order) to w reads as w - 0x8000000 |
| Pointers.PointerRoundTrip | aw2mods/framework.py:167-171 | write(x) then read() gives x whenever x plus the bias fits in 32 bits |
| Pointers.NullIffZeroWord | aw2mods/framework.py:154-155 | a pointer reads as NULL_PTR exactly when its four stored bytes are all zero |
| Pointers.Dereference | aw2mods/framework.py:173-176 | dereference fails on NULL_PTR; otherwise it yields a node of the target type placed directly in the ROM at the address read |
| Pointers.DereferenceAfterWrite | aw2mods/framework.py:167-176 | after write(x) with non-null x, dereference yields the target node at x |
| Pointers.DereferenceNullFails | aw2mods/framework.py:154-176 | writing NULL_PTR stores a zero word, after which dereference fails |
| Pointers.ArrayIndexWrite | aw2mods/framework.py:262-263 | ArrayIndex.write is not implemented: every call fails and no image comes back |
| Pointers.ArrayIndexDereference | aw2mods/framework.py:265-269 | dereference fails only when the index cannot be read; it yields a node of the element type placed directly in the ROM |
| Pointers.ArrayIndexElementPosition | aw2mods/framework.py:265-269 | in any image where the index reads as i, dereference succeeds and the element sits at array_start + (i + index_offset) * element size |
| Hex.Digits | aw2mods/framework.py:200 | the hex digits of a natural number are non-empty, all hex digits, and have no leading zero |
| Hex.PyHex | aw2mods/framework.py:200 | hex(n) is "0x" (or "-0x" for negative n) followed by hex digits |
| Hex.PyHexRoundTrip | aw2mods/framework.py:200 | the text of hex(n) parses back to n, so the label loses no information about the offset |
| Strings.Scan | aw2mods/framework.py:231-236 | the scan from a position succeeds iff a zero byte follows it in the image, and then returns exactly the null-free run of characters before the first zero; otherwise struct.error |
| Strings.ScanFindsTerminated | aw2mods/framework.py:231-236 | any null-free run followed by a zero byte is exactly what the scan returns, so the result is determined by the bytes |
| Strings.ReadChars | aw2mods/framework.py:193-199 | the Char-cell loop (read, append, step forward until the null character) computes the scan |
| Strings.Label | aw2mods/framework.py:200 | the read label is "FixedLengthString: (", then hex() of the node's own offset, then ") \"", the text and a closing quote: 24 characters besides the hex and the text, with the text sitting just before the final quote |
| Strings.LabelInjective | aw2mods/framework.py:200 | two labels at the same offset are equal only for equal texts |
| Strings.FixedLengthStringRead | aw2mods/framework.py:193-200 | read yields the label of the terminated run at the string's position (not bounded by the length) or struct.error if no zero byte follows |
| Strings.FirstWideFrom | aw2mods/framework.py:205-210 | the first character from k on that a byte cannot hold, or the end: everything before it fits in a byte |
| Strings.WriteCharsAsWritten | aw2mods/framework.py:205-210 | the per-character loop finishes iff no character from k on is 256 or more; otherwise it raises struct.error with exactly the characters before the first such one stored |
| Strings.FixedLengthStringWriteAsWritten | aw2mods/framework.py:202-212 | a value longer than length - 1 raises with the image untouched; otherwise the write completes iff every character fits a byte, storing the value and a null, else it raises struct.error with a prefix stored |
| Strings.FixedLengthStringWrite | aw2mods/framework.py:202-212 | the corrected write fails iff the value is too long or has a character of 256 or more, changes nothing when it fails, and otherwise stores the value and a null and nothing else |
| Strings.FixedLengthStringWriteAgrees | aw2mods/framework.py:202-212 | when every character fits a byte, the code as written and the corrected write produce the same image |
| Strings.FixedLengthStringPartialWrite | aw2mods/framework.py:202-212 | a value with a wide character after a narrow first character that differs from the stored byte makes the written code raise with the image already changed, while the corrected write refuses it |
| Strings.FixedLengthStringRoundTrip | aw2mods/framework.py:193-212 | reading after a successful write of a null-free value gives that value's label |
| Strings.WrittenStringIsTerminated | aw2mods/framework.py:202-212 | the bytes write stores are a terminated run spelling the value |
| Strings.DynamicStringRead | aw2mods/framework.py:231-236 | read scans from the string's position: the null-free run before the first zero byte, or struct.error when none follows |
| Strings.DynamicStringWrite | aw2mods/framework.py:239-240 | write accepts any value and changes nothing |

## Left out

- `Rom.__init__` and `Rom.export` read and write files; the image is a parameter instead.
- The `comment` field is only printed by `Struct.display`, which is left out; no modelled operation reads it.
- `__str__` of the field classes and `Struct.display` only format text and print with terminal colours. The one formatted value the core returns, the FixedLengthString label, is modelled.
- `FixedLengthString.of_size` is a constructor factory; a `FixedLengthString(length, …)` shape is built directly.
- `DynamicString.size` only raises, and `DynamicString` has no `get_size`, so the class is abstract and cannot be instantiated. Its read and write are modelled as functions of an offset and parent, not as a `Shape`.
- The game-specific structures, the package initialiser and the scripts are not part of this model.
- Rom.Read and Rom.Write: Python slicing accepts negative and out-of-range positions, clips reads, and grows the list on a write past the end. The model requires the range to lie inside the image; packed reads keep the short-read `struct.error` path.
- Packed.PackedRead, Strings.Scan and the other readers require a non-negative position, because Python would count a negative one from the end of the image.
- Only the byte orders `<` and `>` are modelled; `struct`'s other order characters (`=`, `@`, `!`) are not.
- Layout.Members: `Struct.members` finds members by reflecting over instance attributes. The model takes an explicit member list and assumes each member is parented to its struct, as the game structures construct them.
- Layout.PositionIsSumOfOffsets and Layout.Ancestry: a parent that is neither a node nor the ROM cannot be built, because `Parent` has only those two cases. Where that happens in Python, `get_position` and `get_rom` return (not raise) a `ValueError` object (aw2mods/framework.py:49,58), which an enclosing `get_position` would then add to an int.
- A Pointer's target is a `Shape` value, so a struct type that points to itself (a recursive type in Python) cannot be written as a finite shape.
- Pointers.ArrayIndexWrite: the Python method takes no value argument, so any call with one raises `TypeError` before `NotImplementedError`. Both are modelled as the single `WriteUnsupported` error.
- Strings.ReadChars: a `Char(0, self)` cell nested under the string is modelled by a Char node placed at the string's absolute position. The bytes it reads are the same.

## Findings

| source | as written | input that shows it | evidently intended | confidence | as-written member | corrected member |
|---|---|---|---|---|---|---|
| aw2mods/framework.py:202-212 | `write` checks only the length, then writes character by character, so `struct.pack` raises on the first character of code point 256 or more after the earlier characters are already in the image | a FixedLengthString of length 4 over zero bytes, written with "a" followed by U+0100: 0x61 is stored at its first byte, then `struct.error` is raised | a write that fails changes nothing: every character is checked before any byte is written | not executed | Strings.FixedLengthStringWriteAsWritten, Strings.FixedLengthStringPartialWrite | Strings.FixedLengthStringWrite, Strings.FixedLengthStringWriteAgrees |
