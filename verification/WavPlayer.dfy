/** The WAV player: the parser of a file's header, and the refills of a RAM from the file's data. */
module WavPlayer {
  import opened Arithmetic

  type Byte = b: nat | b < 256

  datatype Header = Header(numChannels: Word, bitsPerSample: Word, dataLength: Word, dataOffset: nat)

  const RIFF: seq<Byte> := [0x52, 0x49, 0x46, 0x46]
  const WAVE: seq<Byte> := [0x57, 0x41, 0x56, 0x45]
  const FMT: seq<Byte> := [0x66, 0x6d, 0x74, 0x20]
  const FACT: seq<Byte> := [0x66, 0x61, 0x63, 0x74]
  const DATA: seq<Byte> := [0x64, 0x61, 0x74, 0x61]

  /** The four bytes at a place. */
  function Tag(f: seq<Byte>, at: nat): seq<Byte>
  {
    if at + 4 <= |f| then f[at..at + 4] else []
  }

  /** The little-endian numbers at a place. */
  function Word16(a: nat, b: nat): Word
    requires a < 256 && b < 256
  {
    a + 256 * b
  }

  function Word32(a: nat, b: nat, c: nat, d: nat): Word
    requires a < 256 && b < 256 && c < 256 && d < 256
  {
    a + 256 * b + 0x1_0000 * c + 0x100_0000 * d
  }

  function U16(f: seq<Byte>, at: nat): Word
  {
    if at + 2 <= |f| then Word16(f[at], f[at + 1]) else 0
  }

  function U32(f: seq<Byte>, at: nat): Word
  {
    if at + 4 <= |f| then Word32(f[at], f[at + 1], f[at + 2], f[at + 3]) else 0
  }

  // The layout of a file, from its bytes.

  function FormatSize(f: seq<Byte>): Word
  {
    U32(f, 16)
  }

  predicate Extended(f: seq<Byte>)
  {
    FormatSize(f) == 18 || FormatSize(f) == 40
  }

  function ExtensionSize(f: seq<Byte>): Word
  {
    U16(f, 36)
  }

  /** Where the tag after the format chunk is looked for. */
  function TagAt(f: seq<Byte>): nat
  {
    36 + if !Extended(f) then 0 else if ExtensionSize(f) == 22 then 24 else 2
  }

  function DataAt(f: seq<Byte>): nat
  {
    if Tag(f, TagAt(f)) == FACT then TagAt(f) + 12 else TagAt(f)
  }

  /** The headers that the parser accepts. */
  predicate Accepted(f: seq<Byte>)
  {
    && Tag(f, 0) == RIFF && Tag(f, 8) == WAVE && Tag(f, 12) == FMT && U16(f, 20) == 1
    && (FormatSize(f) == 16 || Extended(f))
    && Tag(f, DataAt(f)) == DATA
  }

  /** An accepted header that the file has all of. */
  predicate Whole(f: seq<Byte>)
  {
    Accepted(f) && DataAt(f) + 8 <= |f|
  }

  /** What the parser makes of a header. */
  function HeaderOf(f: seq<Byte>): Header
  {
    Header(U16(f, 22), U16(f, 34), U32(f, DataAt(f) + 4), DataAt(f) - TagAt(f) + 28 + FormatSize(f))
  }

  /** The format chunk has the size that the parser skips. */
  predicate PlainFormat(f: seq<Byte>)
  {
    || FormatSize(f) == 16
    || (FormatSize(f) == 18 && ExtensionSize(f) != 22)
    || (FormatSize(f) == 40 && ExtensionSize(f) == 22)
  }

  /** A file of one channel and 8 bits whose format chunk, of size 18, is followed by 22 bytes. */
  function LongFormat(): (f: seq<Byte>)
    ensures |f| == 68
  {
    var fmt: seq<Byte> := [18, 0, 0, 0, 1, 0, 1, 0, 0, 0, 0, 0, 0, 0, 0, 0, 1, 0, 8, 0];
    var extension: seq<Byte> := [22, 0, 0, 0, 0, 0, 0, 0, 0, 0, 0, 0, 0, 0, 0, 0, 0, 0, 0, 0, 0, 0, 0, 0];
    RIFF + [60, 0, 0, 0] + WAVE + FMT + fmt + extension + DATA + [0, 0, 0, 0]
  }

  lemma LongFormatIs(f: seq<Byte>)
    requires f == LongFormat()
    ensures Tag(f, 0) == RIFF && Tag(f, 8) == WAVE && Tag(f, 12) == FMT && Tag(f, 60) == DATA
    ensures FormatSize(f) == 18 && U16(f, 20) == 1 && ExtensionSize(f) == 22
  {
  }

  lemma TagsDiffer()
    ensures DATA != FACT
  {
    assert DATA[0] != FACT[0];
  }

  /** It is accepted with an offset that is not where its data begin. */
  lemma LongFormatExample(f: seq<Byte>)
    requires f == LongFormat()
    ensures Whole(f) && !PlainFormat(f) && HeaderOf(f).dataOffset == 46 && DataAt(f) + 8 == 68
  {
    hide LongFormat, Tag, U16, U32, FormatSize, ExtensionSize;
    LongFormatIs(f);
    TagsDiffer();
  }

  lemma TagsSpell(i: nat)
    requires i < 4
    ensures RIFF[i] == "RIFF"[i] as int && WAVE[i] == "WAVE"[i] as int && FMT[i] == "fmt "[i] as int
    ensures FACT[i] == "fact"[i] as int && DATA[i] == "data"[i] as int
  {
    assert i == 0 || i == 1 || i == 2 || i == 3;
  }

  // The way back: files as a recorder writes them.

  function Le16(x: nat): (b: seq<Byte>)
    requires x < 0x1_0000
    ensures |b| == 2 && Word16(b[0], b[1]) == x
  {
    [x % 256, x / 256]
  }

  function Le32(x: Word): (b: seq<Byte>)
    ensures |b| == 4 && Word32(b[0], b[1], b[2], b[3]) == x
  {
    var y := x / 256;
    var z := y / 256;
    [x % 256, y % 256, z % 256, z / 256]
  }

  /** What a recorder has to say: the number of channels, the bits per sample and the data.  The rest is
      for others: the size of the file, the rates, an extension of the format chunk, and a fact chunk. */
  datatype Recording = Recording(channels: nat, bits: nat, data: seq<Byte>,
                                 size: seq<Byte>, rates: seq<Byte>, extension: seq<Byte>, fact: seq<Byte>)
  {
    predicate Valid()
    {
      && channels < 0x1_0000 && bits < 0x1_0000 && |data| < 0x1_0000_0000 - 84
      && |size| == 4 && |rates| == 10 && |fact| in {0, 12} && (fact != [] ==> fact[..4] == FACT)
      && (extension == [] || extension == [0, 0] || (|extension| == 24 && extension[..2] == [22, 0]))
    }

    /** The 36 bytes up to the extension. */
    function Head(): seq<Byte>
      requires Valid()
    {
      RIFF + size + WAVE + FMT + Le32(16 + |extension|) + Le16(1) + Le16(channels) + rates + Le16(bits)
    }

    function Bytes(): seq<Byte>
      requires Valid()
    {
      Head() + (extension + (fact + (DATA + (Le32(|data|) + data))))
    }
  }

  lemma HeadIs(r: Recording, f: seq<Byte>)
    requires r.Valid() && 36 <= |f| && f[..36] == r.Head()
    ensures Tag(f, 0) == RIFF && Tag(f, 8) == WAVE && Tag(f, 12) == FMT
    ensures FormatSize(f) == 16 + |r.extension| && U16(f, 20) == 1
    ensures U16(f, 22) == r.channels && U16(f, 34) == r.bits
  {
    var h := r.Head();
    assert h[16..20] == Le32(16 + |r.extension|) && h[20..22] == Le16(1);
    assert h[22..24] == Le16(r.channels) && h[34..36] == Le16(r.bits);
    assert h[0..4] == RIFF && h[8..12] == WAVE && h[12..16] == FMT;
    SameBytes(f, h, 0, 4);
    SameBytes(f, h, 8, 4);
    SameBytes(f, h, 12, 4);
    SameBytes(f, h, 16, 4);
    SameBytes(f, h, 20, 2);
    SameBytes(f, h, 22, 2);
    SameBytes(f, h, 34, 2);
    hide Recording.Head;
    BytesRead(f, 16, Le32(16 + |r.extension|));
    BytesRead(f, 20, Le16(1));
    BytesRead(f, 22, Le16(r.channels));
    BytesRead(f, 34, Le16(r.bits));
  }

  lemma SameBytes(f: seq<Byte>, h: seq<Byte>, at: nat, n: nat)
    requires |h| <= |f| && f[..|h|] == h && at + n <= |h|
    ensures f[at..at + n] == h[at..at + n]
  {
    assert f[..|h|][at..at + n] == f[at..at + n];
  }

  lemma BytesRead(f: seq<Byte>, at: nat, b: seq<Byte>)
    requires at + |b| <= |f| && f[at..at + |b|] == b
    ensures |b| == 2 ==> U16(f, at) == Word16(b[0], b[1])
    ensures |b| == 4 ==> U32(f, at) == Word32(b[0], b[1], b[2], b[3]) && Tag(f, at) == b
  {
    var c := f[at..at + |b|];
    assert |b| == 2 || |b| == 4 ==> c[0] == f[at] && c[1] == f[at + 1];
    assert |b| == 4 ==> c[2] == f[at + 2] && c[3] == f[at + 3];
  }

  /** The next piece of a file. */
  lemma Piece(f: seq<Byte>, at: nat, b: seq<Byte>, rest: seq<Byte>)
    requires at <= |f| && f[at..] == b + rest
    ensures at + |b| <= |f| && f[at + |b|..] == rest && f[at..at + |b|] == b
    ensures |b| == 2 ==> U16(f, at) == Word16(b[0], b[1])
    ensures |b| == 4 ==> U32(f, at) == Word32(b[0], b[1], b[2], b[3]) && Tag(f, at) == b
  {
    assert f[at..][|b|..] == f[at + |b|..] && f[at..][..|b|] == f[at..at + |b|];
    BytesRead(f, at, b);
  }

  /** Where the parser looks for the data, and what it finds there. */
  lemma DataIs(r: Recording, f: seq<Byte>)
    requires r.Valid() && f == r.Bytes()
    ensures 36 <= |f| && f[..36] == r.Head()
    ensures r.extension != [] ==> ExtensionSize(f) == if |r.extension| == 24 then 22 else 0
    ensures var at := 36 + |r.extension|;
            && (if r.fact == [] then Tag(f, at) == DATA else Tag(f, at) == FACT)
            && Tag(f, at + |r.fact|) == DATA && U32(f, at + |r.fact| + 4) == |r.data|
            && at + |r.fact| + 8 + |r.data| == |f| && f[at + |r.fact| + 8..] == r.data
  {
    hide Recording.Head, Le32, Tag, U16, U32;
    HeadLength(r);
    assert f[..36] == r.Head() && f[36..] == r.extension + (r.fact + (DATA + (Le32(|r.data|) + r.data)));
    Piece(f, 36, r.extension, r.fact + (DATA + (Le32(|r.data|) + r.data)));
    if r.extension != [] {
      ExtensionStart(f, r.extension);
    }
    DataChunk(f, 36 + |r.extension|, r.fact, r.data);
  }

  lemma DataChunk(f: seq<Byte>, at: nat, fact: seq<Byte>, data: seq<Byte>)
    requires |data| < 0x1_0000_0000 && |fact| in {0, 12} && (fact != [] ==> fact[..4] == FACT)
    requires at <= |f| && f[at..] == fact + (DATA + (Le32(|data|) + data))
    ensures if fact == [] then Tag(f, at) == DATA else Tag(f, at) == FACT
    ensures Tag(f, at + |fact|) == DATA && U32(f, at + |fact| + 4) == |data|
    ensures at + |fact| + 8 + |data| == |f| && f[at + |fact| + 8..] == data
  {
    hide Tag, U16, U32;
    var n := Le32(|data|);
    hide Le32;
    Piece(f, at, fact, DATA + (n + data));
    if fact != [] {
      assert f[at..at + 4] == f[at..at + 12][..4];
      BytesRead(f, at, FACT);
    }
    Piece(f, at + |fact|, DATA, n + data);
    Piece(f, at + |fact| + 4, n, data);
  }

  lemma HeadLength(r: Recording)
    requires r.Valid()
    ensures |r.Head()| == 36
  {
  }

  lemma ExtensionStart(f: seq<Byte>, e: seq<Byte>)
    requires 36 + |e| <= |f| && f[36..36 + |e|] == e
    requires e == [0, 0] || (|e| == 24 && e[..2] == [22, 0])
    ensures ExtensionSize(f) == if |e| == 24 then 22 else 0
  {
    assert f[36..36 + |e|][0] == f[36] && f[36..36 + |e|][1] == f[37];
    assert e[..2][0] == e[0] && e[..2][1] == e[1];
  }

  /** The parser reads back what a recorder wrote, and the offset is where the data begin. */
  lemma RecordingReadsBack(r: Recording, f: seq<Byte>)
    requires r.Valid() && f == r.Bytes()
    ensures Whole(f) && PlainFormat(f)
    ensures HeaderOf(f).numChannels == r.channels && HeaderOf(f).bitsPerSample == r.bits
    ensures HeaderOf(f).dataLength == |r.data| && HeaderOf(f).dataOffset <= |f|
    ensures f[HeaderOf(f).dataOffset..] == r.data
  {
    hide *;
    DataIs(r, f);
    HeadIs(r, f);
    TagsDiffer();
    Layout(r, f);
  }

  lemma Layout(r: Recording, f: seq<Byte>)
    requires r.Valid() && 36 <= |f| && DATA != FACT
    requires Tag(f, 0) == RIFF && Tag(f, 8) == WAVE && Tag(f, 12) == FMT && U16(f, 20) == 1
    requires FormatSize(f) == 16 + |r.extension| && U16(f, 22) == r.channels && U16(f, 34) == r.bits
    requires r.extension != [] ==> ExtensionSize(f) == if |r.extension| == 24 then 22 else 0
    requires var at := 36 + |r.extension|;
             && (if r.fact == [] then Tag(f, at) == DATA else Tag(f, at) == FACT)
             && Tag(f, at + |r.fact|) == DATA && U32(f, at + |r.fact| + 4) == |r.data|
             && at + |r.fact| + 8 + |r.data| == |f|
    ensures Whole(f) && PlainFormat(f)
    ensures HeaderOf(f) == Header(r.channels, r.bits, |r.data|, 36 + |r.extension| + |r.fact| + 8)
  {
    hide Recording.Head, Recording.Bytes, Tag, U16, U32, FormatSize, ExtensionSize;
  }

  /** A file that is open for reading. */
  class File {
    const bytes: seq<Byte>
    var pos: nat

    ghost predicate Valid()
      reads this
    {
      pos <= |bytes|
    }

    /** f_open. */
    constructor (bytes: seq<Byte>)
      ensures this.bytes == bytes && pos == 0 && Valid()
    {
      this.bytes, pos := bytes, 0;
    }

    /** f_read: what there is of n bytes. */
    method Read(n: nat) returns (data: seq<Byte>)
      requires Valid()
      modifies this
      ensures Valid() && pos == Min(old(pos) + n, |bytes|) && data == bytes[old(pos)..pos]
    {
      var end := Min(pos + n, |bytes|);
      data := bytes[pos..end];
      pos := end;
    }

    /** f_lseek, which does not go past the end of the file. */
    method Seek(to: nat)
      modifies this
      ensures Valid() && pos == Min(to, |bytes|)
    {
      pos := Min(to, |bytes|);
    }

    /** f_read into a buffer of four bytes: what is not read stays. */
    method ReadTag(buffer: seq<Byte>) returns (tag: seq<Byte>)
      requires Valid() && |buffer| == 4
      modifies this
      ensures Valid() && pos == Min(old(pos) + 4, |bytes|) && |tag| == 4
      ensures old(pos) + 4 <= |bytes| ==> tag == Tag(bytes, old(pos))
      ensures |bytes| < old(pos) + 4 ==> tag[3] == buffer[3]
    {
      var data := Read(4);
      tag := data + buffer[|data|..];
    }

    /** f_read into a number, which stays as it is, or is cut off, at the end of the file. */
    method ReadU16() returns (w: Word)
      requires Valid()
      modifies this
      ensures Valid() && pos == Min(old(pos) + 2, |bytes|)
      ensures old(pos) + 2 <= |bytes| ==> w == U16(bytes, old(pos))
    {
      var data := Read(2);
      if |data| == 2 {
        w := Word16(data[0], data[1]);
      } else {
        w := *;
      }
    }

    method ReadU32() returns (w: Word)
      requires Valid()
      modifies this
      ensures Valid() && pos == Min(old(pos) + 4, |bytes|)
      ensures old(pos) + 4 <= |bytes| ==> w == U32(bytes, old(pos))
    {
      var data := Read(4);
      if |data| == 4 {
        w := Word32(data[0], data[1], data[2], data[3]);
      } else {
        w := *;
      }
    }
  }

  /** The parser up to the size of the format chunk. */
  method ReadTags(fp: File) returns (ok: bool, buffer: seq<Byte>)
    requires fp.Valid() && fp.pos == 0
    modifies fp
    ensures fp.Valid() && |buffer| == 4
    ensures ok <==> Tag(fp.bytes, 0) == RIFF && Tag(fp.bytes, 8) == WAVE && Tag(fp.bytes, 12) == FMT
    ensures ok ==> fp.pos == 16 && buffer == FMT
  {
    var b0: Byte, b1: Byte, b2: Byte, b3: Byte := *, *, *, *;
    buffer := fp.ReadTag([b0, b1, b2, b3]);
    if buffer != RIFF { return false, buffer; }
    var _ := fp.ReadU32();
    buffer := fp.ReadTag(buffer);
    if buffer != WAVE { return false, buffer; }
    buffer := fp.ReadTag(buffer);
    ok := buffer == FMT;
  }

  /** The format chunk and its extension. */
  method ReadFormat(fp: File) returns (ok: bool, h: Header)
    requires fp.Valid() && fp.pos == 16
    modifies fp
    ensures fp.Valid() && 16 <= fp.pos
    ensures (36 <= |fp.bytes| ==>
               (ok <==> U16(fp.bytes, 20) == 1 && (FormatSize(fp.bytes) == 16 || Extended(fp.bytes))))
    ensures (ok && TagAt(fp.bytes) <= |fp.bytes| ==>
               && fp.pos == TagAt(fp.bytes) && h.dataOffset == 20 + FormatSize(fp.bytes)
               && h.numChannels == U16(fp.bytes, 22) && h.bitsPerSample == U16(fp.bytes, 34))
    ensures |fp.bytes| < TagAt(fp.bytes) ==> !ok || fp.pos == |fp.bytes|
  {
    hide U16, U32;
    h := Header(0, 0, 0, 0);
    var formatSize := fp.ReadU32();
    h := h.(dataOffset := h.dataOffset + 20 + formatSize);
    var audioFormat := fp.ReadU16();
    if audioFormat != 1 { return false, h; }
    var numChannels := fp.ReadU16();
    var _ := fp.ReadU32();
    var _ := fp.ReadU32();
    var _ := fp.ReadU16();
    var bitsPerSample := fp.ReadU16();
    h := h.(numChannels := numChannels, bitsPerSample := bitsPerSample);
    if formatSize == 18 || formatSize == 40 {
      var extension := fp.ReadU16();
      if extension == 22 {
        var _ := fp.Read(22);
      }
    } else if formatSize != 16 {
      return false, h;
    }
    ok := true;
  }

  /** The tags after the format chunk.  At the end of the file the buffer keeps what it had. */
  method ReadDataTag(fp: File, buffer0: seq<Byte>) returns (ok: bool, skipped: nat)
    requires fp.Valid() && |buffer0| == 4 && buffer0 == FMT
    modifies fp
    ensures fp.Valid()
    ensures (var at := old(fp.pos) + if Tag(fp.bytes, old(fp.pos)) == FACT then 12 else 0;
             && (ok <==> Tag(fp.bytes, at) == DATA)
             && (ok ==> fp.pos == at + 4 && skipped == at + 4 - old(fp.pos)))
  {
    var buffer := fp.ReadTag(buffer0);
    skipped := 4;
    if buffer == FACT {
      var _ := fp.ReadU32();
      var _ := fp.ReadU32();
      buffer := fp.ReadTag(buffer);
      skipped := skipped + 12;
    }
    ok := buffer == DATA;
  }

  /** wave_ReadHeader.  `consumed` is where the parser stops.  For a header it accepts that is not cut
      off, the offset of the data is what the parser consumed exactly when the format chunk has the
      size that the parser skips. */
  method ReadHeader(bytes: seq<Byte>) returns (ok: bool, h: Header, ghost consumed: nat)
    ensures ok <==> Accepted(bytes)
    ensures ok ==> h.dataOffset == HeaderOf(bytes).dataOffset
    ensures Whole(bytes) ==> h == HeaderOf(bytes) && consumed == DataAt(bytes) + 8
    ensures Whole(bytes) ==> (h.dataOffset == consumed <==> PlainFormat(bytes))
  {
    hide U16, U32, Tag;
    h := Header(0, 0, 0, 0);
    consumed := 0;
    var fp := new File(bytes);
    var buffer;
    ok, buffer := ReadTags(fp);
    if !ok { return; }
    ok, h := ReadFormat(fp);
    if !ok {
      TagInFile(bytes, DataAt(bytes));
      return;
    }
    var skipped;
    ok, skipped := ReadDataTag(fp, buffer);
    TagInFile(bytes, DataAt(bytes));
    TagInFile(bytes, fp.pos);
    if !ok { return; }
    var dataLength := fp.ReadU32();
    h := h.(dataLength := dataLength, dataOffset := h.dataOffset + skipped + 4);
    consumed := fp.pos;
  }

  lemma TagInFile(f: seq<Byte>, at: nat)
    ensures Tag(f, at) == DATA ==> at + 4 <= |f|
  {
  }

  // The refills.

  const HALF: nat := 512

  /** A 16-bit signed integer from what a larger one is cut to. */
  function Int16(x: int): (r: int)
    ensures -0x8000 <= r < 0x8000 && (r - x) % 0x1_0000 == 0
  {
    (x + 0x8000) % 0x1_0000 - 0x8000
  }

  /** The bytes that one refill of 512 samples takes; none for a format that is not played. */
  function Width(h: Header): nat
  {
    if h.bitsPerSample == 8 then 512
    else if h.bitsPerSample == 16 && h.numChannels == 1 then 1024
    else if h.bitsPerSample == 16 && h.numChannels == 2 then 2048
    else 0
  }

  /** Samples of two channels are moved 1200 away from 0. */
  function Spread(x: int): int
  {
    Int16(if x > 0 then x + 1200 else x - 1200)
  }

  /** Sample i of a block, of its left or right channel. */
  function SampleAt(h: Header, block: seq<Byte>, i: nat, right: bool): int
    requires i < HALF && |block| == Width(h) && 0 < Width(h)
  {
    if Width(h) == 512 then (block[i] as int - 128) * 256
    else if Width(h) == 1024 then Int16(Word16(block[2 * i], block[2 * i + 1]))
    else
      var at := 4 * i + if right then 2 else 0;
      Spread(Int16(Word16(block[at], block[at + 1])))
  }

  /** The end of the data, in 32 bits. */
  function DataEnd(h: Header): nat
  {
    (h.dataOffset + h.dataLength) % 0x1_0000_0000
  }

  /** Where the file stands after a refill that starts at pos. */
  function AfterRefill(h: Header, size: nat, pos: nat): nat
  {
    var end := Min(pos + Width(h), size);
    if Width(h) == 0 || DataEnd(h) <= end then Min(h.dataOffset, size) else end
  }

  /** Where refill k starts. */
  function StartOf(h: Header, size: nat, k: nat): nat
  {
    if k == 0 then Min(h.dataOffset, size) else AfterRefill(h, size, StartOf(h, size, k - 1))
  }

  /** The refills that one pass over the data takes. */
  function Passes(h: Header): (n: nat)
    requires 0 < Width(h)
    ensures 0 < n
  {
    if h.dataLength == 0 then 1 else (h.dataLength + Width(h) - 1) / Width(h)
  }

  lemma PassesCover(h: Header, j: nat)
    requires 0 < Width(h)
    ensures h.dataLength <= (j + 1) * Width(h) <==> Passes(h) <= j + 1
  {
  }

  lemma OneRefill(h: Header, size: nat, j: nat)
    requires 0 < Width(h) && h.dataOffset + h.dataLength <= size < 0x1_0000_0000 && j < Passes(h)
    ensures (AfterRefill(h, size, h.dataOffset + j * Width(h))
             == h.dataOffset + (if j + 1 == Passes(h) then 0 else j + 1) * Width(h))
  {
    PassesCover(h, j);
    assert j * Width(h) + Width(h) == (j + 1) * Width(h);
    hide Passes, Width;
  }

  /** In a complete file the refills go through the data block by block, again and again. */
  lemma {:induction false} RefillsRepeat(h: Header, size: nat, k: nat)
    requires 0 < Width(h) && h.dataOffset + h.dataLength <= size < 0x1_0000_0000
    ensures StartOf(h, size, k) == h.dataOffset + (k % Passes(h)) * Width(h)
  {
    hide AfterRefill, Width, Passes;
    if 0 < k {
      RefillsRepeat(h, size, k - 1);
      OneRefill(h, size, (k - 1) % Passes(h));
      NextInPass(k - 1, Passes(h));
    } else {
      Quotient(0, 0, Passes(h), 0);
    }
  }

  /** A complete file: all of its header and of its data is there, and the header is as the parser
      expects it. */
  predicate Complete(f: seq<Byte>)
  {
    && Whole(f) && PlainFormat(f) && 0 < Width(HeaderOf(f))
    && DataAt(f) + 8 + HeaderOf(f).dataLength <= |f| < 0x1_0000_0000
  }

  /** Where refill k of a complete file is to start: block by block through the bytes behind the
      header, again and again. */
  function BlockStart(f: seq<Byte>, k: nat): nat
    requires Complete(f)
  {
    DataAt(f) + 8 + (k % Passes(HeaderOf(f))) * Width(HeaderOf(f))
  }

  lemma CompleteRefills(f: seq<Byte>, k: nat)
    requires Complete(f)
    ensures StartOf(HeaderOf(f), |f|, k) == BlockStart(f, k)
  {
    assert HeaderOf(f).dataOffset == DataAt(f) + 8;
    RefillsRepeat(HeaderOf(f), |f|, k);
  }

  lemma NextInPass(k: nat, n: nat)
    requires 0 < n
    ensures (k + 1) % n == if k % n + 1 == n then 0 else k % n + 1
  {
    var q, r := k / n, k % n;
    if r + 1 < n {
      Quotient(k + 1, q, n, r + 1);
    } else {
      Quotient(k + 1, q + 1, n, 0);
    }
  }

  /** The end of the data is computed in 32 bits.  For a file that is said to reach to 2^32 or beyond, as a
      recorder does that does not know the length, it lies before the data: every refill is the first. */
  lemma {:induction false} OnlyFirstBlock(h: Header, size: nat, k: nat)
    requires h.dataOffset < 0x1_0000_0000 <= h.dataOffset + h.dataLength && h.dataOffset <= size
    ensures StartOf(h, size, k) == h.dataOffset
  {
    if 0 < k {
      OnlyFirstBlock(h, size, k - 1);
    }
  }

  /** In a file that is cut off they come to the end of the file and stay there. */
  lemma {:induction false} RefillsStop(h: Header, size: nat, k: nat)
    requires 0 < Width(h) && size < h.dataOffset + h.dataLength < 0x1_0000_0000
    ensures StartOf(h, size, k) == Min(h.dataOffset + k * Width(h), size)
  {
    if 0 < k {
      RefillsStop(h, size, k - 1);
    }
  }

  /** What a refill writes: a half of one table, or the same half of the tables of both channels. */
  datatype Half = Half(left: array?<int>, right: array?<int>)
  {
    ghost predicate Fits()
    {
      && (left != null ==> left.Length == HALF) && (right != null ==> right.Length == HALF)
      && (left == null || left != right)
    }

    /** The two have no RAM in common. */
    ghost predicate Apart(other: Half)
    {
      && (left != null ==> left != other.left && left != other.right)
      && (right != null ==> right != other.left && right != other.right)
    }
  }

  /** The samples in the RAM are those of the block at `start`, if the file has all of it. */
  ghost predicate Holds(ram: array?<int>, h: Header, f: seq<Byte>, start: nat, right: bool)
    reads ram
  {
    && (ram != null ==> ram.Length == HALF)
    && (ram != null && 0 < Width(h) && start + Width(h) <= |f| ==>
          forall i | 0 <= i < HALF :: ram[i] == SampleAt(h, f[start..start + Width(h)], i, right))
  }

  ghost predicate HasBlock(half: Half, h: Header, f: seq<Byte>, start: nat)
    reads half.left, half.right
  {
    Holds(half.left, h, f, start, false) && Holds(half.right, h, f, start, true)
  }

  /** The two bytes are x in two's complement, the low one first. */
  predicate Encodes(lo: Byte, hi: Byte, x: int)
  {
    -0x8000 <= x < 0x8000 && lo + 256 * hi == if x < 0 then x + 0x1_0000 else x
  }

  /** x moved 1200 away from 0, which wraps in 16 bits. */
  predicate MovedApart(x: int, y: int)
  {
    if x > 0 then y == x + (if x < 0x8000 - 1200 then 1200 else 1200 - 0x1_0000)
    else y == x - (if -0x8000 + 1200 <= x then 1200 else 1200 - 0x1_0000)
  }

  lemma SampleDecodes(lo: Byte, hi: Byte, x: int)
    requires Encodes(lo, hi, x)
    ensures Int16(Word16(lo, hi)) == x && MovedApart(x, Spread(x))
  {
  }

  /** One RAM holds the samples that the 512 bytes, or the 512 numbers of two bytes, of a block are. */
  ghost predicate Decodes8(ram: array?<int>, f: seq<Byte>, start: nat)
    requires start + 512 <= |f|
    reads ram
  {
    ram != null ==> ram.Length == HALF && forall i | 0 <= i < HALF :: ram[i] == 256 * (f[start + i] as int - 128)
  }

  ghost predicate DecodesMono(ram: array?<int>, f: seq<Byte>, start: nat)
    requires start + 1024 <= |f|
    reads ram
  {
    (ram != null ==>
       ram.Length == HALF && forall i | 0 <= i < HALF :: Encodes(f[start + 2 * i], f[start + 2 * i + 1], ram[i]))
  }

  /** Of two channels the left RAM holds the first of each pair and the right one the second, each moved
      1200 away from 0. */
  ghost predicate DecodesStereo(ram: array?<int>, f: seq<Byte>, start: nat, right: bool)
    requires start + 2048 <= |f|
    reads ram
  {
    (ram != null ==>
       && ram.Length == HALF
       && forall i, x | 0 <= i < HALF
                        && (if right then Encodes(f[start + 4 * i + 2], f[start + 4 * i + 3], x)
                            else Encodes(f[start + 4 * i], f[start + 4 * i + 1], x)) :: MovedApart(x, ram[i]))
  }

  /** The RAMs hold the samples that the bytes from `start` on are, if the file has all of them. */
  ghost predicate Decodes(half: Half, h: Header, f: seq<Byte>, start: nat)
    reads half.left, half.right
  {
    && (h.bitsPerSample == 8 && start + 512 <= |f| ==>
          Decodes8(half.left, f, start) && Decodes8(half.right, f, start))
    && (h.bitsPerSample == 16 && h.numChannels == 1 && start + 1024 <= |f| ==>
          DecodesMono(half.left, f, start) && DecodesMono(half.right, f, start))
    && (h.bitsPerSample == 16 && h.numChannels == 2 && start + 2048 <= |f| ==>
          DecodesStereo(half.left, f, start, false) && DecodesStereo(half.right, f, start, true))
  }

  lemma BlockDecodes(half: Half, h: Header, f: seq<Byte>, start: nat)
    requires HasBlock(half, h, f, start)
    ensures Decodes(half, h, f, start)
  {
    RamDecodes(half.left, h, f, start, false);
    RamDecodes(half.right, h, f, start, true);
  }

  lemma RamDecodes(ram: array?<int>, h: Header, f: seq<Byte>, start: nat, right: bool)
    requires Holds(ram, h, f, start, right)
    ensures h.bitsPerSample == 8 && start + 512 <= |f| ==> Decodes8(ram, f, start)
    ensures h.bitsPerSample == 16 && h.numChannels == 1 && start + 1024 <= |f| ==> DecodesMono(ram, f, start)
    ensures (h.bitsPerSample == 16 && h.numChannels == 2 && start + 2048 <= |f| ==>
               DecodesStereo(ram, f, start, right))
  {
    if ram != null && 0 < Width(h) && start + Width(h) <= |f| {
      var block := f[start..start + Width(h)];
      forall i | 0 <= i < HALF
        ensures h.bitsPerSample == 8 ==> ram[i] == 256 * (f[start + i] as int - 128)
        ensures (h.bitsPerSample == 16 && h.numChannels == 1 ==>
                   Encodes(f[start + 2 * i], f[start + 2 * i + 1], ram[i]))
      {
        assert ram[i] == SampleAt(h, block, i, right);
      }
      if h.bitsPerSample == 16 && h.numChannels == 2 {
        forall i, x | 0 <= i < HALF
                      && (if right then Encodes(f[start + 4 * i + 2], f[start + 4 * i + 3], x)
                          else Encodes(f[start + 4 * i], f[start + 4 * i + 1], x))
          ensures MovedApart(x, ram[i])
        {
          assert ram[i] == SampleAt(h, block, i, right);
          var at := 4 * i + if right then 2 else 0;
          SampleDecodes(block[at], block[at + 1], x);
        }
      }
    }
  }

  ghost predicate Silent(half: Half)
    reads half.left, half.right
  {
    && (half.left != null ==> forall i | 0 <= i < half.left.Length :: half.left[i] == 0)
    && (half.right != null ==> forall i | 0 <= i < half.right.Length :: half.right[i] == 0)
  }

  ghost function Rams(halves: seq<Half>): set<array?<int>>
  {
    (set i | 0 <= i < |halves| :: halves[i].left) + (set i | 0 <= i < |halves| :: halves[i].right)
  }

  twostate predicate Kept(ram: array?<int>)
    reads ram
  {
    ram != null ==> ram[..] == old(ram[..])
  }

  twostate predicate AllKept(rams: set<array?<int>>)
    reads rams
  {
    forall ram | ram in rams :: Kept(ram)
  }

  /** The RAMs of the half are silent now, and of the given ones only those: the others are as they
      were. */
  twostate predicate Silenced(half: Half, rams: set<array?<int>>)
    reads half.left, half.right, rams
  {
    Silent(half) && AllKept(rams - {half.left, half.right})
  }

  /** None of the calls after i, up to n, writes what call i has written. */
  ghost predicate Last(halves: seq<Half>, i: nat, n: nat)
    requires i < n <= |halves|
  {
    forall j | i < j < n :: halves[i].Apart(halves[j])
  }

  ghost predicate AllFit(halves: seq<Half>)
  {
    forall i | 0 <= i < |halves| :: halves[i].Fits()
  }

  /** The block that call i reads, if the first one reads `first`; after the first call the data may
      have to begin again. */
  function BlockOf(first: nat, again: bool, i: nat): nat
  {
    if again && 0 < i then i - 1 else first + i
  }

  /** Each of the first n calls has filled its half with the next block, if no later one of them filled
      it again. */
  ghost predicate Filled(halves: seq<Half>, n: nat, h: Header, f: seq<Byte>, first: nat, again: bool)
    requires n <= |halves|
    reads Rams(halves)
  {
    forall i | 0 <= i < n && Last(halves, i, n) ::
      HasBlock(halves[i], h, f, StartOf(h, |f|, BlockOf(first, again, i)))
  }

  /** The player.  Its calls come from the lookup-RAM interrupt, selections and stops from the page of
      the SD card. */
  class Player {
    var wav: seq<Byte>          // the file that is selected
    var fp: File?               // the file that is open
    var header: Header
    var isFileValid: bool
    var endOfFile: bool
    ghost var refills: nat      // refills since the data of the open file began

    /** A file is open that was accepted, and the header is what the parser makes of it. */
    ghost predicate Opened()
      reads this, fp
    {
      && fp != null && fp.Valid() && Accepted(fp.bytes)
      && header.dataOffset == HeaderOf(fp.bytes).dataOffset
      && (Whole(fp.bytes) ==> header == HeaderOf(fp.bytes))
    }

    /** An open file stands where the next refill is to start. */
    ghost predicate Valid()
      reads this, fp
    {
      fp != null ==> Opened() && fp.pos == StartOf(header, |fp.bytes|, refills)
    }

    /** Between any two calls, whatever calls, selections and stops came before, a complete file stands
        at one of the blocks of its data. */
    lemma AtBlock()
      requires Valid()
      ensures (fp != null && Complete(fp.bytes) ==>
                 header == HeaderOf(fp.bytes) && fp.pos == BlockStart(fp.bytes, refills))
    {
      if fp != null && Complete(fp.bytes) {
        CompleteRefills(fp.bytes, refills);
      }
    }

    constructor ()
      ensures Valid() && !isFileValid && !endOfFile && fp == null && wav == []
    {
      wav, fp, header := [], null, Header(0, 0, 0, 0);
      isFileValid, endOfFile, refills := false, false, 0;
    }

    /** One of the loops of ramUpdate. */
    method Fill(ram: array?<int>, h: Header, block: seq<Byte>, right: bool)
      requires ram != null ==> ram.Length == HALF
      requires 0 < Width(h) == |block|
      modifies ram
      ensures ram != null ==> forall i | 0 <= i < HALF :: ram[i] == SampleAt(h, block, i, right)
    {
      if ram != null {
        for i := 0 to HALF
          invariant forall k | 0 <= k < i :: ram[k] == SampleAt(h, block, k, right)
        {
          ram[i] := SampleAt(h, block, i, right);
        }
      }
    }

    /** What ramUpdate reads; what a short read does not fill is whatever was in the buffer. */
    method ReadBlock() returns (block: seq<Byte>)
      requires fp != null && fp.Valid() && 0 < Width(header)
      modifies fp
      ensures fp.Valid() && fp.pos == Min(old(fp.pos) + Width(header), |fp.bytes|)
      ensures |block| == Width(header)
      ensures (old(fp.pos) + Width(header) <= |fp.bytes| ==>
                 block == fp.bytes[old(fp.pos)..old(fp.pos) + Width(header)])
    {
      if header.bitsPerSample == 8 {
        block := fp.Read(512);
      } else if header.numChannels == 1 {
        block := fp.Read(1024);
      } else {
        block := fp.Read(1024);
        var rest := fp.Read(1024);
        block := block + rest;
      }
      while |block| < Width(header)
        invariant |block| <= Width(header)
        invariant (old(fp.pos) + Width(header) <= |fp.bytes| ==>
                     block == fp.bytes[old(fp.pos)..old(fp.pos) + Width(header)])
      {
        var b: Byte := *;
        block := block + [b];
      }
    }

    /** ramUpdate. */
    method RamUpdate(half: Half) returns (more: bool)
      requires fp != null && fp.Valid() && half.Fits()
      modifies fp, half.left, half.right
      ensures fp.Valid() && fp.pos == Min(old(fp.pos) + Width(header), |fp.bytes|)
      ensures more <==> 0 < Width(header) && fp.pos < DataEnd(header)
      ensures HasBlock(half, header, fp.bytes, old(fp.pos))
      ensures Decodes(half, header, fp.bytes, old(fp.pos))
      ensures (header.bitsPerSample != 8 && (header.bitsPerSample != 16 || header.numChannels !in {1, 2}) ==>
                 !more && fp.pos == old(fp.pos) && Kept(half.left) && Kept(half.right))
    {
      hide SampleAt;
      if header.bitsPerSample != 8 && (header.bitsPerSample != 16 || header.numChannels !in {1, 2}) {
        return false;
      }
      hide Width;
      var block := ReadBlock();
      Fill(half.left, header, block, false);
      Fill(half.right, header, block, true);
      BlockDecodes(half, header, fp.bytes, old(fp.pos));
      more := fp.pos < DataEnd(header);
    }

    method Silence(ram: array?<int>)
      modifies ram
      ensures ram != null ==> forall i | 0 <= i < ram.Length :: ram[i] == 0
    {
      if ram != null {
        for i := 0 to ram.Length
          invariant forall k | 0 <= k < i :: ram[k] == 0
        {
          ram[i] := 0;
        }
      }
    }

    /** Open the file, if none is: false if its header is not accepted. */
    method OpenFile() returns (ok: bool)
      requires Valid()
      modifies this`fp, this`header, this`refills
      ensures Valid()
      ensures old(fp) != null ==> ok && fp == old(fp) && header == old(header) && refills == old(refills)
      ensures old(fp) == null ==> (ok <==> Accepted(wav))
      ensures old(fp) == null && ok ==> fp != null && fresh(fp) && fp.bytes == wav && refills == 0
      ensures !ok ==> fp == null && refills == old(refills)
    {
      ok := true;
      if fp == null {
        var h;
        ghost var consumed;
        ok, h, consumed := ReadHeader(wav);
        header := h;
        if ok {
          var f := new File(wav);
          f.Seek(header.dataOffset);
          fp, refills := f, 0;
        }
      }
    }

    /** A call will play: a file is open, or the one that is selected can be opened. */
    predicate Playable()
      reads this
    {
      isFileValid && (fp != null || Accepted(wav))
    }

    /** Nothing is played, and nothing will be but by a selection. */
    twostate predicate Rests()
      reads this
    {
      && !isFileValid && fp == old(fp) && wav == old(wav)
      && (fp != null ==> header == old(header)) && refills == old(refills)
    }

    /** The block that the next call reads. */
    ghost function First(): nat
      reads this
    {
      if fp == null then 0 else refills
    }

    /** The file that was open, or was opened now, plays on; `n` calls were made. */
    twostate predicate Plays(n: nat)
      reads this
    {
      && isFileValid && fp != null && wav == old(wav)
      && (old(fp) != null ==> fp == old(fp) && header == old(header))
      && (old(fp) == null ==> fp.bytes == wav)
      && refills == BlockOf(old(First()), old(endOfFile), n)
    }

    /** The refill of a call, from the open file.  If no data is left the next one is to start with the
        first block. */
    method Refill(half: Half) returns (more: bool)
      requires Valid() && fp != null && half.Fits()
      modifies fp, this`refills, half.left, half.right
      ensures Opened() && refills == old(refills) + 1 && (more ==> Valid())
      ensures !more ==> StartOf(header, |fp.bytes|, refills) == StartOf(header, |fp.bytes|, 0)
      ensures HasBlock(half, header, fp.bytes, StartOf(header, |fp.bytes|, old(refills)))
    {
      hide SampleAt, Accepted, HeaderOf, Whole, HasBlock;
      more := RamUpdate(half);
      refills := refills + 1;
    }

    /** ram_wav_update. */
    method Update(half: Half)
      requires Valid() && half.Fits()
      modifies this, fp, half.left, half.right
      ensures Valid() && wav == old(wav)
      // A stop that was asked for closes the file and silences the half ...
      ensures (!old(isFileValid) && old(endOfFile) && old(fp) != null ==>
                 fp == null && endOfFile && !isFileValid && Silent(half))
      // ... and nothing is done without a file to play.
      ensures (!old(isFileValid) && (old(endOfFile) ==> old(fp) == null) ==>
                 !endOfFile && Rests() && Kept(half.left) && Kept(half.right))
      ensures old(isFileValid) && !old(Playable()) ==> !endOfFile && Rests() && Kept(half.left) && Kept(half.right)
      ensures (old(Playable()) ==>
                 && !endOfFile && Plays(1) && (old(fp) == null ==> fresh(fp))
                 && HasBlock(half, header, fp.bytes, StartOf(header, |fp.bytes|, old(First()))))
    {
      hide SampleAt, Accepted, HeaderOf, Whole, HasBlock, AfterRefill;
      if isFileValid {
        var ok := OpenFile();
        if !ok {
          endOfFile, isFileValid := false, false;
          return;
        }
        var more := Refill(half);
        if !more {
          endOfFile := true;
        }
      }
      if endOfFile {
        if fp != null && !isFileValid {
          Silence(half.left);
          Silence(half.right);
          isFileValid := false;
          fp := null;
        } else {
          if fp != null {
            fp.Seek(header.dataOffset);
            refills := if old(endOfFile) then 0 else refills;
          }
          endOfFile := false;
        }
      }
    }

    /** Calls while nothing is played. */
    method RestOn(halves: seq<Half>)
      requires Valid() && AllFit(halves) && !isFileValid && (endOfFile ==> fp == null)
      modifies this, fp, Rams(halves)
      ensures Valid() && Rests() && AllKept(Rams(halves)) && (endOfFile <==> old(endOfFile) && halves == [])
    {
      hide SampleAt, Accepted, HeaderOf, Whole, StartOf, HasBlock, Silent;
      for k := 0 to |halves|
        invariant Valid() && Rests() && (endOfFile ==> fp == null) && (endOfFile <==> old(endOfFile) && k == 0)
        invariant AllKept(Rams(halves))
      {
        Update(halves[k]);
      }
    }

    /** One more call while a file plays. */
    method NextCall(halves: seq<Half>, k: nat, ghost first: nat, ghost again: bool)
      requires Valid() && AllFit(halves) && 0 < k < |halves| && fp != null && isFileValid && !endOfFile
      requires refills == BlockOf(first, again, k) && Filled(halves, k, header, fp.bytes, first, again)
      modifies this, fp, Rams(halves)
      ensures Valid() && isFileValid && fp == old(fp) && fp != null && !endOfFile
      ensures wav == old(wav) && header == old(header)
      ensures refills == BlockOf(first, again, k + 1) && Filled(halves, k + 1, header, fp.bytes, first, again)
    {
      hide SampleAt, Accepted, HeaderOf, Whole, StartOf, HasBlock, Silent;
      Update(halves[k]);
      forall i | 0 <= i < k + 1 && Last(halves, i, k + 1)
        ensures HasBlock(halves[i], header, fp.bytes, StartOf(header, |fp.bytes|, BlockOf(first, again, i)))
      {
        if i < k {
          assert Last(halves, i, k) && halves[i].Apart(halves[k]);
        }
      }
    }

    /** Calls while a file plays. */
    method PlayOn(halves: seq<Half>)
      requires Valid() && AllFit(halves) && Playable() && halves != []
      modifies this, fp, Rams(halves)
      ensures Valid() && !endOfFile && Plays(|halves|) && (old(fp) == null ==> fresh(fp))
      ensures Filled(halves, |halves|, header, fp.bytes, old(First()), old(endOfFile))
    {
      hide SampleAt, Accepted, HeaderOf, Whole, StartOf, HasBlock, Silent;
      Update(halves[0]);
      for k := 1 to |halves|
        invariant Valid() && !endOfFile && Plays(k) && (old(fp) == null ==> fresh(fp))
        invariant Filled(halves, k, header, fp.bytes, old(First()), old(endOfFile))
      {
        NextCall(halves, k, old(First()), old(endOfFile));
      }
    }

    /** A stop was asked for and no call has come since. */
    predicate Stopping()
      reads this
    {
      !isFileValid && endOfFile && fp != null
    }

    /** The first call after a stop silences its half, closes the file and leaves the rest to rest. */
    method StopNow(halves: seq<Half>)
      requires Valid() && AllFit(halves) && Stopping() && halves != []
      modifies this, fp, Rams(halves)
      ensures Valid() && wav == old(wav) && fp == null && !isFileValid && (endOfFile <==> |halves| == 1)
      ensures Silenced(halves[0], Rams(halves))
    {
      hide SampleAt, Accepted, HeaderOf, Whole, StartOf, HasBlock;
      Update(halves[0]);
      RestOn(halves[1..]);
      assert forall i | 1 <= i < |halves| :: halves[i] == halves[1..][i - 1];
    }

    /** Any calls, whatever the state.  `rams` are RAMs that have to be accounted for. */
    method Calls(halves: seq<Half>, ghost rams: set<array?<int>>)
      requires Valid() && AllFit(halves) && Rams(halves) <= rams
      modifies this, fp, Rams(halves)
      ensures Valid() && wav == old(wav)
      ensures halves == [] ==> unchanged(this) && AllKept(rams)
      ensures (halves != [] && old(Stopping()) ==>
                 && fp == null && !isFileValid && (endOfFile <==> |halves| == 1) && Silenced(halves[0], rams))
      ensures halves != [] && !old(Stopping()) && !old(Playable()) ==> !endOfFile && Rests() && AllKept(rams)
      ensures (halves != [] && old(Playable()) ==>
                 && !endOfFile && Plays(|halves|) && (old(fp) == null ==> fresh(fp))
                 && Filled(halves, |halves|, header, fp.bytes, old(First()), old(endOfFile)))
    {
      hide SampleAt, Accepted, HeaderOf, Whole, StartOf, HasBlock, Silent, Filled;
      if halves == [] {
        return;
      }
      if Stopping() {
        StopNow(halves);
      } else if Playable() {
        PlayOn(halves);
      } else {
        Update(halves[0]);
        RestOn(halves[1..]);
        assert forall i | 1 <= i < |halves| :: halves[i] == halves[1..][i - 1];
      }
    }

    /** Calls while nothing is played; what earlier ones filled stays. */
    method RestAfter(halves: seq<Half>, ghost rams: set<array?<int>>,
                     ghost earlier: seq<Half>, ghost first: nat, ghost again: bool)
      requires Valid() && AllFit(halves) && !isFileValid && (endOfFile ==> fp == null)
      requires Rams(halves) + Rams(earlier) <= rams
      modifies this, fp, Rams(halves)
      ensures Valid() && Rests() && AllKept(rams) && (endOfFile ==> old(endOfFile) && halves == [])
      ensures (fp != null && old(Filled(earlier, |earlier|, header, fp.bytes, first, again)) ==>
                 Filled(earlier, |earlier|, header, fp.bytes, first, again))
    {
      hide SampleAt, Width, Accepted, HeaderOf, Whole, StartOf, Silent, AllFit;
      RestOn(halves);
      forall i | 0 <= i < |earlier| ensures Kept(earlier[i].left) && Kept(earlier[i].right) {
      }
    }

    lemma FirstRams(halves: seq<Half>)
      requires halves != []
      ensures {halves[0].left, halves[0].right} <= Rams(halves)
    {
    }

    /** The button that stops the player: two assignments, with calls between them and behind them.  It
        closes the file and silences the RAMs of the next call if and only if no call comes between the
        assignments, or none of those plays. */
    method Stop(between: seq<Half>, later: seq<Half>)
      requires Valid() && AllFit(between) && AllFit(later) && later != []
      modifies this, fp, Rams(between), Rams(later)
      ensures Valid() && wav == old(wav) && !isFileValid
      ensures fp == null <==> between == [] || !old(Playable())
      ensures (between == [] || !old(Playable()) ==>
                 if old(fp) == null then AllKept(Rams(between) + Rams(later))
                 else Silenced((between + later)[0], Rams(between) + Rams(later)))
      // Otherwise the file stays open, and the RAMs keep its samples.
      ensures (between != [] && old(Playable()) ==>
                 && !endOfFile && fp != null
                 && (if old(fp) == null then fresh(fp) && fp.bytes == wav
                     else fp == old(fp) && header == old(header))
                 && Filled(between, |between|, header, fp.bytes, old(First()), true))
    {
      hide SampleAt, Accepted, HeaderOf, Whole, StartOf, HasBlock, AllFit, Filled, Rams;
      ghost var rams := Rams(between) + Rams(later);
      endOfFile := true;
      Calls(between, rams);
      isFileValid := false;
      if between == [] {
        Calls(later, rams);
      } else {
        FirstRams(between);
        RestAfter(later, rams, between, old(First()), true);
      }
    }

    /** The button that selects a file: three assignments, with calls between them, and the calls of
        `later` behind them.  The file is played, if it is accepted, if and only if no other one is open,
        or that one is closed by a stop before the second assignment; otherwise the other one plays on. */
    method Select(file: seq<Byte>, before: seq<Half>, between: seq<Half>, later: seq<Half>)
      requires Valid() && AllFit(before) && AllFit(between) && AllFit(later) && later != []
      modifies this, fp, Rams(before), Rams(between), Rams(later)
      ensures Valid() && wav == file && !endOfFile && (isFileValid <==> fp != null)
      ensures (old(fp) == null || (old(Stopping()) && before != []) ==>
                 && (Accepted(file) <==> fp != null)
                 && (fp != null ==> fresh(fp) && fp.bytes == file))
      ensures (old(fp) != null && !(old(Stopping()) && before != []) ==>
                 fp == old(fp) && header == old(header))
      ensures old(fp) == null && before == [] && between == [] && fp != null ==> refills == |later|
      ensures (fp != null ==>
                 && |later| <= refills
                 && Filled(later, |later|, header, fp.bytes, refills - |later|, false))
    {
      hide SampleAt, Accepted, HeaderOf, Whole, StartOf, HasBlock, AllFit, Rams, Filled, AllKept, Silenced;
      wav := file;
      Calls(before, Rams(before));
      isFileValid := true;
      Calls(between, Rams(between));
      endOfFile := false;
      Calls(later, Rams(later));
    }

    /** A complete file that is selected while none is open: the parser reads what the file says, call i
        fills its half with the i-th block, again and again through the data, and the file stands at the
        next one. */
    method PlayComplete(file: seq<Byte>, halves: seq<Half>)
      requires Valid() && fp == null && Complete(file) && AllFit(halves) && halves != []
      modifies this, Rams(halves)
      ensures Valid() && fp != null && fresh(fp) && fp.bytes == file && header == HeaderOf(file)
      ensures isFileValid && !endOfFile && refills == |halves|
      ensures fp.pos == BlockStart(file, |halves|)
      ensures (forall i | 0 <= i < |halves| && Last(halves, i, |halves|) ::
                 && HasBlock(halves[i], header, file, BlockStart(file, i))
                 && Decodes(halves[i], header, file, BlockStart(file, i)))
    {
      CompleteIsAccepted(file);
      forall k ensures StartOf(HeaderOf(file), |file|, k) == BlockStart(file, k) {
        CompleteRefills(file, k);
      }
      hide SampleAt, Accepted, StartOf, HasBlock, BlockStart, HeaderOf, Complete, Width, Decodes;
      Select(file, [], [], halves);
      forall i | 0 <= i < |halves| && Last(halves, i, |halves|)
        ensures Decodes(halves[i], header, file, BlockStart(file, i))
      {
        BlockDecodes(halves[i], header, file, BlockStart(file, i));
      }
    }
  }

  /** A stop that is missed: one call between the two assignments, and the RAM keeps the samples of the
      file, which stays open. */
  method MissedStop(file: seq<Byte>, half: Half) returns (p: Player)
    requires Complete(file) && half.Fits()
    modifies half.left, half.right
    ensures p.Valid() && p.fp != null && p.fp.bytes == file && p.header == HeaderOf(file)
    ensures !p.isFileValid && !p.endOfFile && HasBlock(half, HeaderOf(file), file, BlockStart(file, 1))
  {
    CompleteRefills(file, 1);
    hide Complete, BlockStart, HeaderOf, HasBlock, StartOf, SampleAt, Accepted, Whole;
    p := new Player();
    p.PlayComplete(file, [half]);
    p.Stop([half], [half]);
    assert Last([half], 0, 1);
  }

  lemma CompleteIsAccepted(f: seq<Byte>)
    requires Complete(f)
    ensures Accepted(f) && Whole(f)
  {
  }
}
