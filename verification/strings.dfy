/** Null-terminated strings: FixedLengthString (a capacity-checked write and a labelled read)
    and DynamicString (a read-only scan). Both read by walking a Char cell forward from the
    string's first byte until a zero byte. */
module Strings {
  import opened Bytes
  import opened Errors
  import opened Layout
  import opened Packed
  import opened Hex
  import Rom

  /** The code point of each character. */
  function CodePoints(t: string): (cs: seq<int>)
    ensures |cs| == |t|
    ensures forall i :: 0 <= i < |t| ==> cs[i] == t[i] as int
  {
    seq(|t|, i requires 0 <= i < |t| => t[i] as int)
  }

  /** No character of s is the null character. */
  predicate NoNull(s: string)
  {
    forall i :: 0 <= i < |s| ==> s[i] != '\0'
  }

  /** t is what a scan from start collects: t has no null character, its code points are the
      bytes from start on, and the byte right after them is zero. */
  predicate Terminated(rom: seq<byte>, start: int, t: string)
  {
    && 0 <= start
    && start + |t| < |rom|
    && rom[start + |t|] == 0
    && NoNull(t)
    && rom[start..start + |t|] == CodePoints(t)
  }

  /** No zero byte from start to the end of the image. */
  predicate Unterminated(rom: seq<byte>, start: int)
  {
    forall i :: 0 <= i < |rom| && start <= i ==> rom[i] != 0
  }

  /** The characters from start up to the first zero byte. Running off the end of the image
      makes the next Char read hand struct.unpack no bytes, which raises. */
  function Scan(rom: seq<byte>, start: int): (r: Result<string>)
    requires start >= 0
    decreases |rom| - start
    ensures r.Ok? ==> Terminated(rom, start, r.value)
    ensures r.Err? ==> r.error == StructError && Unterminated(rom, start)
  {
    if start >= |rom| then Err(StructError)
    else if rom[start] == 0 then Ok("")
    else
      match Scan(rom, start + 1)
      case Ok(t) =>
        TerminatedExtends(rom, start, t);
        Ok([rom[start] as char] + t)
      case Err(e) => Err(e)
  }

  /** A nonzero byte in front of a terminated run extends the run by one character. */
  lemma TerminatedExtends(rom: seq<byte>, start: int, t: string)
    requires 0 <= start < |rom| && rom[start] != 0 && Terminated(rom, start + 1, t)
    ensures Terminated(rom, start, [rom[start] as char] + t)
  {
    var c := rom[start] as char;
    assert rom[start..start + 1 + |t|] == [rom[start]] + rom[start + 1..start + 1 + |t|];
    assert CodePoints([c] + t) == [c as int] + CodePoints(t);
    assert NoNull([c] + t) by {
      forall i | 0 <= i < |t| + 1
        ensures ([c] + t)[i] != '\0'
      {
        if i > 0 {
          assert ([c] + t)[i] == t[i - 1];
        }
      }
    }
  }

  /** A terminated run is exactly what the scan finds: the scan's result is determined by the
      bytes. */
  lemma ScanFindsTerminated(rom: seq<byte>, start: int, t: string)
    requires Terminated(rom, start, t)
    ensures Scan(rom, start) == Ok(t)
  {
    var r := Scan(rom, start);
    assert rom[start + |t|] == 0;
    if r.Ok? {
      var v := r.value;
      NonzeroBeforeTerminator(rom, start, t, |v|);
      NonzeroBeforeTerminator(rom, start, v, |t|);
      assert CodePoints(v) == CodePoints(t);
      forall i | 0 <= i < |t|
        ensures v[i] == t[i]
      {
        assert CodePoints(v)[i] == CodePoints(t)[i];
      }
      assert v == t;
    }
  }

  /** Every byte a terminated run covers is nonzero. */
  lemma NonzeroBeforeTerminator(rom: seq<byte>, start: int, t: string, j: int)
    requires Terminated(rom, start, t) && 0 <= j
    ensures j < |t| ==> rom[start + j] != 0
  {
    if j < |t| {
      assert rom[start..start + |t|][j] == CodePoints(t)[j];
      assert t[j] != '\0';
    }
  }

  /** prefix put in front of a successful scan's text. */
  function Prepend(prefix: string, r: Result<string>): Result<string>
  {
    match r
    case Ok(t) => Ok(prefix + t)
    case Err(e) => Err(e)
  }

  lemma PrependTwice(a: string, b: string, r: Result<string>)
    ensures Prepend(a, Prepend(b, r)) == Prepend(a + b, r)
  {
    if r.Ok? {
      assert a + (b + r.value) == (a + b) + r.value;
    }
  }

  /** One step of the scan: a nonzero byte contributes its character in front of the rest. */
  lemma ScanStep(rom: seq<byte>, p: int)
    requires 0 <= p < |rom| && rom[p] != 0
    ensures Scan(rom, p) == Prepend([rom[p] as char], Scan(rom, p + 1))
  {
  }

  /** The read loop of FixedLengthString and DynamicString: a Char cell starting at the
      string's first byte, stepped forward until it reads the null character. */
  method ReadChars(rom: seq<byte>, start: int) returns (r: Result<string>)
    requires start >= 0
    ensures r == Scan(rom, start)
  {
    var result: string := "";
    var pos := start;
    PrependNothing(Scan(rom, start));
    while true
      invariant start <= pos
      invariant Scan(rom, start) == Prepend(result, Scan(rom, pos))
      decreases |rom| - pos
    {
      var c := CharRead(rom, Node(Char(Little), pos, Root));
      CharCell(rom, pos);
      if c.Err? {
        return Err(c.error);
      }
      if c.value == "\0" {
        assert result + "" == result;
        return Ok(result);
      }
      ScanStep(rom, pos);
      PrependTwice(result, c.value, Scan(rom, pos + 1));
      result := result + c.value;
      pos := pos + 1;
    }
  }

  lemma PrependNothing(r: Result<string>)
    ensures Prepend("", r) == r
  {
    if r.Ok? {
      assert "" + r.value == r.value;
    }
  }

  /** What a Char cell placed directly at pos reads. */
  lemma CharCell(rom: seq<byte>, pos: int)
    requires pos >= 0
    ensures CharRead(rom, Node(Char(Little), pos, Root))
            == if pos < |rom| then Ok([rom[pos] as char]) else Err(StructError)
  {
    var cell := Node(Char(Little), pos, Root);
    assert Position(cell) == pos;
    if pos < |rom| {
      var c := CharRead(rom, cell).value;
      assert c == [rom[pos] as char];
    } else {
      assert !Fits(rom, cell);
    }
  }

  /** The text FixedLengthString.read returns: the characters, labelled with the node's own
      offset in hex() notation. */
  function Label(offset: int, text: string): (r: string)
    ensures |r| == |PyHex(offset)| + |text| + 24
    ensures r[..20] == "FixedLengthString: ("
    ensures r[20..20 + |PyHex(offset)|] == PyHex(offset)
    ensures r[|r| - 1 - |text|..|r| - 1] == text
    ensures r[|r| - 1] == '"'
  {
    "FixedLengthString: (" + PyHex(offset) + ") \"" + text + "\""
  }

  /** Labels made at the same offset from different texts differ. */
  lemma LabelInjective(offset: int, s: string, t: string)
    requires Label(offset, s) == Label(offset, t)
    ensures s == t
  {
    var head := "FixedLengthString: (" + PyHex(offset) + ") \"";
    assert Label(offset, s) == head + s + "\"";
    assert Label(offset, t) == head + t + "\"";
    assert s == Label(offset, s)[|head|..|head| + |s|];
    assert t == Label(offset, t)[|head|..|head| + |t|];
  }

  /** FixedLengthString.read: the scan from the string's position, labelled. The declared
      length does not bound the scan. */
  function FixedLengthStringRead(rom: seq<byte>, n: Node): (r: Result<string>)
    requires n.shape.FixedLengthString? && Position(n) >= 0
    ensures r.Err? ==> r.error == StructError && Unterminated(rom, Position(n))
    ensures r.Ok? ==> exists t :: Terminated(rom, Position(n), t) && r.value == Label(n.offset, t)
  {
    var t :- Scan(rom, Position(n));
    Ok(Label(n.offset, t))
  }

  /** Every character of s is below code point 256, so UInt8 can store it. */
  predicate AllNarrow(s: string)
  {
    forall i :: 0 <= i < |s| ==> s[i] as int < 256
  }

  /** Index of the first character at or after k that UInt8 cannot store, or |s|. */
  function FirstWideFrom(s: string, k: nat): (w: nat)
    requires k <= |s|
    decreases |s| - k
    ensures k <= w <= |s|
    ensures forall i :: k <= i < w ==> s[i] as int < 256
    ensures w < |s| ==> s[w] as int >= 256
  {
    if k == |s| then k
    else if s[k] as int >= 256 then k
    else FirstWideFrom(s, k + 1)
  }

  /** after is before with the code points of s[lo..hi] stored at p + lo .. p + hi - 1 and
      every other byte unchanged. */
  predicate Overwritten(before: seq<byte>, after: seq<byte>, p: int, s: string, lo: int, hi: int)
  {
    && 0 <= lo <= hi <= |s|
    && |after| == |before|
    && forall i :: 0 <= i < |before| ==>
         after[i] == if p + lo <= i < p + hi then s[i - p] as int else before[i]
  }

  /** Storing s[k] at p + k and then s[k+1..w] after it stores s[k..w]. */
  lemma OverwrittenStep(a: seq<byte>, b: seq<byte>, c: seq<byte>, p: int, s: string, k: nat, w: int)
    requires k < w <= |s| && s[k] as int < 256 && Rom.InBounds(a, p + k, 1)
    requires b == Rom.Write(a, p + k, [s[k] as int])
    requires Overwritten(b, c, p, s, k + 1, w)
    ensures Overwritten(a, c, p, s, k, w)
  {
  }

  /** The loop of FixedLengthString.write as the code has it: one Char write per character,
      stepping the cell forward; the first character struct.pack rejects raises with the
      earlier characters already in the image. */
  function WriteCharsAsWritten(rom: seq<byte>, owner: Node, s: string, k: nat): (e: Effect<seq<byte>>)
    requires k <= |s| && Rom.InBounds(rom, Position(owner), |s|)
    decreases |s| - k
    ensures e.outcome == Done <==> FirstWideFrom(s, k) == |s|
    ensures e.outcome.Raised? ==> e.outcome.error == StructError
    ensures Overwritten(rom, e.after, Position(owner), s, k, FirstWideFrom(s, k))
  {
    if k == |s| then Effect(rom, Done)
    else
      var cell := Node(Char(Little), k, Nested(owner));
      match CharWrite(rom, cell, [s[k]])
      case Err(err) => Effect(rom, Raised(err))
      case Ok(rom') =>
        var e := WriteCharsAsWritten(rom', owner, s, k + 1);
        OverwrittenStep(rom, rom', e.after, Position(owner), s, k, FirstWideFrom(s, k));
        e
  }

  /** FixedLengthString.write as the code has it: the capacity check, the character loop,
      then a null character after the last one. */
  function FixedLengthStringWriteAsWritten(rom: seq<byte>, n: Node, s: string): (e: Effect<seq<byte>>)
    requires n.shape.FixedLengthString?
    requires |s| <= n.shape.length - 1 ==> Rom.InBounds(rom, Position(n), |s| + 1)
    ensures |s| > n.shape.length - 1 ==> e == Effect(rom, Raised(StringTooLong))
    ensures |s| <= n.shape.length - 1 ==> (e.outcome == Done <==> AllNarrow(s))
    ensures |s| <= n.shape.length - 1 && AllNarrow(s) ==> Overwritten(rom, e.after, Position(n), s + "\0", 0, |s| + 1)
    ensures |s| <= n.shape.length - 1 && !AllNarrow(s) ==>
              && e.outcome == Raised(StructError)
              && Overwritten(rom, e.after, Position(n), s, 0, FirstWideFrom(s, 0))
  {
    if |s| > n.shape.length - 1 then Effect(rom, Raised(StringTooLong))
    else
      var e := WriteCharsAsWritten(rom, n, s, 0);
      if e.outcome.Raised? then e
      else
        match CharWrite(e.after, Node(Char(Little), |s|, Nested(n)), "\0")
        case Ok(after) =>
          TerminatorAppended(rom, e.after, after, Position(n), s);
          Effect(after, Done)
        case Err(err) => Effect(e.after, Raised(err))
  }

  /** Storing all of s and then a zero byte right after it stores s followed by a null. */
  lemma TerminatorAppended(a: seq<byte>, b: seq<byte>, c: seq<byte>, p: int, s: string)
    requires Overwritten(a, b, p, s, 0, |s|) && Rom.InBounds(b, p + |s|, 1)
    requires c == Rom.Write(b, p + |s|, [0])
    ensures Overwritten(a, c, p, s + "\0", 0, |s| + 1)
  {
    var t := s + "\0";
    forall i | 0 <= i < |a|
      ensures c[i] == if p <= i < p + |s| + 1 then t[i - p] as int else a[i]
    {
      if p <= i < p + |s| {
        assert t[i - p] == s[i - p];
      }
    }
  }

  /** The Latin-1 bytes of a string whose characters are all below 256. */
  function Latin1(s: string): (bs: seq<byte>)
    requires AllNarrow(s)
    ensures bs == CodePoints(s)
  {
    seq(|s|, i requires 0 <= i < |s| => s[i] as int)
  }

  /** FixedLengthString.write with every character checked before anything is written, so a
      failed write leaves the image untouched; on success the characters and then a null fill
      offsets 0..|s|, and nothing else changes. */
  function FixedLengthStringWrite(rom: seq<byte>, n: Node, s: string): (r: Result<seq<byte>>)
    requires n.shape.FixedLengthString?
    requires |s| <= n.shape.length - 1 ==> Rom.InBounds(rom, Position(n), |s| + 1)
    ensures r.Err? <==> |s| > n.shape.length - 1 || !AllNarrow(s)
    ensures |s| > n.shape.length - 1 ==> r == Err(StringTooLong)
    ensures |s| <= n.shape.length - 1 && !AllNarrow(s) ==> r == Err(StructError)
    ensures r.Ok? ==> Overwritten(rom, r.value, Position(n), s + "\0", 0, |s| + 1)
  {
    if |s| > n.shape.length - 1 then Err(StringTooLong)
    else if !AllNarrow(s) then Err(StructError)
    else
      var written := Latin1(s) + [0];
      WriteIsOverwritten(rom, Position(n), s + "\0", written);
      Ok(Rom.Write(rom, Position(n), written))
  }

  /** Rom.write of the code points of t stores t. */
  lemma WriteIsOverwritten(a: seq<byte>, p: int, t: string, v: seq<byte>)
    requires Rom.InBounds(a, p, |v|) && |v| == |t|
    requires forall i :: 0 <= i < |v| - 1 ==> v[i] == t[i] as int
    requires |v| > 0 ==> v[|v| - 1] == t[|t| - 1] as int
    ensures Overwritten(a, Rom.Write(a, p, v), p, t, 0, |t|)
  {
  }

  /** Two images that agree with the same base everywhere and store the same bytes in the
      same range are equal. */
  lemma OverwrittenUnique(a: seq<byte>, b: seq<byte>, c: seq<byte>, p: int, s: string, lo: int, hi: int)
    requires Overwritten(a, b, p, s, lo, hi) && Overwritten(a, c, p, s, lo, hi)
    ensures b == c
  {
  }

  /** Where every character fits in a byte, the code as written and the checked write leave
      the same image, and both succeed. */
  lemma FixedLengthStringWriteAgrees(rom: seq<byte>, n: Node, s: string)
    requires n.shape.FixedLengthString?
    requires |s| <= n.shape.length - 1 && Rom.InBounds(rom, Position(n), |s| + 1)
    requires AllNarrow(s)
    ensures FixedLengthStringWrite(rom, n, s).Ok?
    ensures FixedLengthStringWriteAsWritten(rom, n, s) == Effect(FixedLengthStringWrite(rom, n, s).value, Done)
  {
    var e := FixedLengthStringWriteAsWritten(rom, n, s);
    var r := FixedLengthStringWrite(rom, n, s).value;
    OverwrittenUnique(rom, e.after, r, Position(n), s + "\0", 0, |s| + 1);
  }

  /** The as-written write can fail after changing the image: when a character below 256 that
      differs from the byte already there precedes the first character of 256 or more, the
      write raises with that character stored. The checked write refuses the same value
      whole. */
  lemma FixedLengthStringPartialWrite(rom: seq<byte>, n: Node, s: string)
    requires n.shape.FixedLengthString?
    requires |s| <= n.shape.length - 1 && Rom.InBounds(rom, Position(n), |s| + 1)
    requires 0 < FirstWideFrom(s, 0) < |s| && rom[Position(n)] != s[0] as int
    ensures FixedLengthStringWriteAsWritten(rom, n, s).outcome == Raised(StructError)
    ensures FixedLengthStringWriteAsWritten(rom, n, s).after != rom
    ensures FixedLengthStringWrite(rom, n, s) == Err(StructError)
  {
    var w := FirstWideFrom(s, 0);
    assert !AllNarrow(s) by {
      assert s[w] as int >= 256;
    }
    var e := FixedLengthStringWriteAsWritten(rom, n, s);
    assert e.after[Position(n)] == s[0] as int;
  }

  /** After a successful write of a null-free string, read recovers exactly that string,
      inside the FixedLengthString label. */
  lemma FixedLengthStringRoundTrip(rom: seq<byte>, n: Node, s: string)
    requires n.shape.FixedLengthString?
    requires |s| <= n.shape.length - 1 && Rom.InBounds(rom, Position(n), |s| + 1)
    requires AllNarrow(s) && NoNull(s)
    ensures FixedLengthStringWrite(rom, n, s).Ok?
    ensures FixedLengthStringRead(FixedLengthStringWrite(rom, n, s).value, n) == Ok(Label(n.offset, s))
  {
    var p := Position(n);
    var rom' := Rom.Write(rom, p, Latin1(s) + [0]);
    assert FixedLengthStringWrite(rom, n, s) == Ok(rom');
    WrittenStringIsTerminated(rom, p, s);
    ScanFindsTerminated(rom', p, s);
  }

  /** The bytes the checked write stores form a terminated run spelling the string. */
  lemma WrittenStringIsTerminated(rom: seq<byte>, p: int, s: string)
    requires Rom.InBounds(rom, p, |s| + 1) && AllNarrow(s) && NoNull(s)
    ensures Terminated(Rom.Write(rom, p, Latin1(s) + [0]), p, s)
  {
    var written := Latin1(s) + [0];
    var rom' := Rom.Write(rom, p, written);
    forall i | 0 <= i < |s|
      ensures rom'[p..p + |s|][i] == CodePoints(s)[i]
    {
      assert rom'[p + i] == written[i] == s[i] as int;
    }
    assert rom'[p + |s|] == written[|s|] == 0;
    assert rom'[p..p + |s|] == CodePoints(s);
  }

  /** DynamicString.read: the scan from the string's position, unlabelled. */
  function DynamicStringRead(rom: seq<byte>, offset: int, parent: Parent): (r: Result<string>)
    requires offset + ParentPosition(parent) >= 0
    ensures r.Ok? ==> Terminated(rom, offset + ParentPosition(parent), r.value)
    ensures r.Err? ==> r.error == StructError && Unterminated(rom, offset + ParentPosition(parent))
  {
    Scan(rom, offset + ParentPosition(parent))
  }

  /** DynamicString.write does nothing: the image comes back unchanged for every value. */
  function DynamicStringWrite(rom: seq<byte>, offset: int, parent: Parent, value: string): (r: seq<byte>)
    ensures r == rom
  {
    rom
  }
}
