// The EspFS image format: little-endian header fields, and records of header, name and data
// padded to 32-bit boundaries, closed by a data-less header.
module EspFsFormat {
  import opened Bytes

  // ----- little-endian numbers

  function LE16(v: int): (s: seq<Byte>)
    ensures |s| == 2
  {
    [v % 256, v / 256 % 256]
  }

  function LE32(v: int): (s: seq<Byte>)
    ensures |s| == 4
  {
    [v % 256, v / 256 % 256, v / 0x1_0000 % 256, v / 0x100_0000 % 256]
  }

  /** The int16_t stored at offset p. */
  function Int16At(s: seq<Byte>, p: nat): int
    requires p + 2 <= |s|
  {
    var u := s[p] as int + 256 * (s[p + 1] as int);
    if u < 0x8000 then u else u - 0x1_0000
  }

  /** The int32_t stored at offset p. */
  function Int32At(s: seq<Byte>, p: nat): int
    requires p + 4 <= |s|
  {
    var u := s[p] as int + 256 * (s[p + 1] as int)
             + 0x1_0000 * (s[p + 2] as int) + 0x100_0000 * (s[p + 3] as int);
    if u < 0x8000_0000 then u else u - 0x1_0000_0000
  }

  lemma Decode16(v: int, s: seq<Byte>, p: nat)
    requires -0x8000 <= v < 0x8000 && p + 2 <= |s| && s[p..p + 2] == LE16(v)
    ensures Int16At(s, p) == v
  {
    assert s[p] == s[p..p + 2][0] && s[p + 1] == s[p..p + 2][1];
  }

  lemma Decode32(v: int, s: seq<Byte>, p: nat)
    requires -0x8000_0000 <= v < 0x8000_0000 && p + 4 <= |s| && s[p..p + 4] == LE32(v)
    ensures Int32At(s, p) == v
  {
    var t := s[p..p + 4];
    assert s[p] == t[0] && s[p + 1] == t[1] && s[p + 2] == t[2] && s[p + 3] == t[3];
    assert v / 256 / 256 == v / 0x1_0000 && v / 0x1_0000 / 256 == v / 0x100_0000;
  }

  // ----- headers and records

  const HEADER_SIZE := 16
  const NAME_BUFFER := 256
  const FLAG_LASTFILE := 1
  const COMPRESS_NONE: Byte := 0
  const MAGIC := 0x73665345
  const MAGIC_BYTES: seq<Byte> := [0x45, 0x53, 0x66, 0x73]

  function Header(flags: Byte, compression: Byte, nameLen: int, lenComp: int, lenDecomp: int): (s: seq<Byte>)
    ensures |s| == HEADER_SIZE
  {
    MAGIC_BYTES + [flags, compression] + LE16(nameLen) + LE32(lenComp) + LE32(lenDecomp)
  }

  /** The number stored is the value of its bytes, least significant first. */
  lemma LittleEndian(v: int)
    ensures 0 <= v < 65536 ==> v == LE16(v)[0] as int + 256 * (LE16(v)[1] as int)
    ensures 0 <= v < 4294967296 ==>
              v == LE32(v)[0] as int + 256 * (LE32(v)[1] as int)
                   + 65536 * (LE32(v)[2] as int) + 16777216 * (LE32(v)[3] as int)
  {
    var s := LE32(v);
    ByteSteps(v);
    assert v == 256 * (v / 256) + s[0] as int;
    assert v / 256 == 256 * (v / 0x1_0000) + s[1] as int;
    assert v / 0x1_0000 == 256 * (v / 0x100_0000) + s[2] as int;
  }

  lemma ByteSteps(v: int)
    ensures v / 256 / 256 == v / 0x1_0000 && v / 0x1_0000 / 256 == v / 0x100_0000
  {
  }

  /** The header fields at their offsets. */
  lemma HeaderLayout(flags: Byte, compression: Byte, nameLen: int, lenComp: int, lenDecomp: int)
    requires -0x8000 <= nameLen < 0x8000
    requires -0x8000_0000 <= lenComp < 0x8000_0000 && -0x8000_0000 <= lenDecomp < 0x8000_0000
    ensures var h := Header(flags, compression, nameLen, lenComp, lenDecomp);
            && |h| == 16 && Int32At(h, 0) == 0x73665345 && h[4] == flags && h[5] == compression
            && Int16At(h, 6) == nameLen && Int32At(h, 8) == lenComp && Int32At(h, 12) == lenDecomp
  {
    var h := Header(flags, compression, nameLen, lenComp, lenDecomp);
    assert h[6..8] == LE16(nameLen) && h[8..12] == LE32(lenComp) && h[12..16] == LE32(lenDecomp);
    Decode16(nameLen, h, 6);
    Decode32(lenComp, h, 8);
    Decode32(lenDecomp, h, 12);
  }

  /** One stored file.  The padding bytes after the name are whatever followed it in memory. */
  datatype Entry = Entry(name: seq<Byte>, namePad: seq<Byte>, flags: Byte, compression: Byte,
                         data: seq<Byte>, lenDecomp: int, dataPad: seq<Byte>) {
    function NameLen(): int { |name| + 1 + |namePad| }

    /** What a reader needs: a NUL-free name, no last-file flag, a length that keeps the next
        record aligned, and lengths that fit the header fields. */
    predicate Readable() {
      && 0 !in name && flags % 2 == 0 && NameLen() < 0x8000
      && |data| < 0x8000_0000 && -0x8000_0000 <= lenDecomp < 0x8000_0000
      && |dataPad| < 4 && (NameLen() + |data| + |dataPad|) % 4 == 0
    }

    function Head(): seq<Byte> {
      Header(flags, compression, NameLen(), |data|, lenDecomp)
    }
  }

  function Record(e: Entry): (s: seq<Byte>)
    ensures |s| == HEADER_SIZE + e.NameLen() + |e.data| + |e.dataPad|
  {
    e.Head() + (e.name + [0] + e.namePad) + e.data + e.dataPad
  }

  function Trailer(): seq<Byte> {
    Header(FLAG_LASTFILE, COMPRESS_NONE, 0, 0, 0)
  }

  function Records(es: seq<Entry>): seq<Byte> {
    if es == [] then [] else Record(es[0]) + Records(es[1..])
  }

  function Image(es: seq<Entry>): seq<Byte> {
    Records(es) + Trailer()
  }

  lemma {:induction false} RecordsSnoc(es: seq<Entry>, e: Entry)
    ensures Records(es + [e]) == Records(es) + Record(e)
  {
    if es != [] {
      RecordsSnoc(es[1..], e);
      assert (es + [e])[1..] == es[1..] + [e];
    } else {
      assert es + [e] == [e];
    }
  }
}
