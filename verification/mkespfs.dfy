// The image writer, with the encoder's output as given: header fields filled in place, bytes appended to the
// output, and a loop that pads to the next 32-bit boundary.
module MkEspFs {
  import opened Bytes
  import opened EspFsFormat

  const COMPRESS_HEATSHRINK: Byte := 1

  /** The zero bytes the padding loop still has to write for a file of n bytes. */
  function ZeroPad(n: nat): (s: seq<Byte>)
    ensures |s| == (4 - n % 4) % 4 && forall i :: 0 <= i < |s| ==> s[i] == 0
    decreases (4 - n % 4) % 4
  {
    if n % 4 == 0 then [] else [0] + ZeroPad(n + 1)
  }

  function PadLength(n: nat): (k: nat)
    ensures k < 4 && (n + k) % 4 == 0
  {
    (4 - n % 4) % 4
  }

  /** The memory after a name's terminator, of which up to three bytes are written too. */
  type Beyond = s: seq<Byte> | |s| >= 3 witness [0, 0, 0]

  /** How a file is to be stored; for heatshrink, with the encoder's output for it. */
  datatype Packing = Plain | Heatshrink(packed: seq<Byte>)

  /** Compression that does not make the file larger is kept. */
  predicate KeepsPacked(data: seq<Byte>, packing: Packing) {
    packing.Heatshrink? && |packing.packed| <= |data|
  }

  /** The entry written for a file. */
  function EntryOf(name: seq<Byte>, beyond: Beyond, data: seq<Byte>, packing: Packing): Entry {
    var (compression, stored) := if KeepsPacked(data, packing) then (COMPRESS_HEATSHRINK, packing.packed)
                                 else (COMPRESS_NONE, data);
    Entry(name, beyond[..PadLength(|name| + 1)], 0, compression, stored, |data|, ZeroPad(|stored|))
  }

  /** The record of a file, part by part and at aligned offsets: header, the memory from the
      start of the name on, the stored bytes, and zeros up to the next multiple of four. */
  lemma RecordBytes(name: seq<Byte>, beyond: Beyond, data: seq<Byte>, packing: Packing)
    ensures var r := Record(EntryOf(name, beyond, data, packing));
            var nameLen := (|name| + 4) / 4 * 4;
            var packed := packing.Heatshrink? && |packing.packed| <= |data|;
            var stored := if packed then packing.packed else data;
            && |r| == 16 + nameLen + (|stored| + 3) / 4 * 4
            && r[..16] == Header(0, if packed then 1 else 0, nameLen, |stored|, |data|)
            && r[16..16 + nameLen] == (name + [0] + beyond)[..nameLen]
            && r[16 + nameLen..16 + nameLen + |stored|] == stored
            && forall i :: 16 + nameLen + |stored| <= i < |r| ==> r[i] == 0
  {
    var e := EntryOf(name, beyond, data, packing);
    PaddedLength(|name| + 1);
    PaddedLength(|e.data|);
    NameMemory(e, name, beyond);
    RecordBytesAt(Record(e), e.Head(), e.name + [0] + e.namePad, e.data, e.dataPad);
  }

  lemma PaddedLength(n: nat)
    ensures n + PadLength(n) == (n + 3) / 4 * 4
  {
  }

  lemma NameMemory(e: Entry, name: seq<Byte>, beyond: Beyond)
    requires e.name == name && e.namePad == beyond[..PadLength(|name| + 1)]
    ensures (name + [0] + beyond)[..e.NameLen()] == e.name + [0] + e.namePad
  {
  }

  lemma RecordBytesAt(r: seq<Byte>, head: seq<Byte>, name: seq<Byte>, stored: seq<Byte>, pad: seq<Byte>)
    requires r == head + name + stored + pad && forall i :: 0 <= i < |pad| ==> pad[i] == 0
    ensures r[..|head|] == head && r[|head|..|head| + |name|] == name
    ensures r[|head| + |name|..|head| + |name| + |stored|] == stored
    ensures forall i :: |head| + |name| + |stored| <= i < |r| ==> r[i] == 0
  {
  }

  /** The parts written for a file make up its record. */
  lemma RecordParts(before: seq<Byte>, e: Entry, h: seq<Byte>, written: seq<Byte>, r: seq<Byte>)
    requires h == e.Head()
    requires written == e.name + [0] + e.namePad && r == Record(e)
    ensures before + h + written + e.data + e.dataPad == before + r
  {
    assert r == h + written + e.data + e.dataPad;
    Regroup(before, h, written, e.data, e.dataPad);
  }

  lemma Regroup(a: seq<Byte>, b: seq<Byte>, c: seq<Byte>, d: seq<Byte>, e: seq<Byte>)
    ensures a + b + c + d + e == a + (b + c + d + e)
  {
  }

  class Archive {
    var out: seq<Byte>

    constructor ()
      ensures out == []
    {
      out := [];
    }

    /** Two or four bytes of a header, least significant first whatever the host's order. */
    method StoreShort(h: array<Byte>, at: nat, v: int)
      requires at + 2 <= h.Length
      modifies h
      ensures forall i :: 0 <= i < h.Length ==> h[i] == if at <= i < at + 2 then LE16(v)[i - at] else old(h[i])
    {
      h[at] := v % 256;
      h[at + 1] := v / 256 % 256;
    }

    method StoreLong(h: array<Byte>, at: nat, v: int)
      requires at + 4 <= h.Length
      modifies h
      ensures forall i :: 0 <= i < h.Length ==> h[i] == if at <= i < at + 4 then LE32(v)[i - at] else old(h[i])
    {
      h[at] := v % 256;
      h[at + 1] := v / 256 % 256;
      h[at + 2] := v / 0x1_0000 % 256;
      h[at + 3] := v / 0x100_0000 % 256;
    }

    method WriteHeader(flags: Byte, compression: Byte, nameLen: int, lenComp: int, lenDecomp: int)
      modifies this
      ensures out == old(out) + Header(flags, compression, nameLen, lenComp, lenDecomp)
    {
      var h := new Byte[HEADER_SIZE](_ => 0);
      StoreLong(h, 0, 0x45 + 0x53 * 0x100 + 0x66 * 0x1_0000 + 0x73 * 0x100_0000);
      h[4] := flags;
      h[5] := compression;
      StoreShort(h, 6, nameLen);
      StoreLong(h, 8, lenComp);
      StoreLong(h, 12, lenDecomp);
      assert h[..] == Header(flags, compression, nameLen, lenComp, lenDecomp);
      out := out + h[..];
    }

    /** Pads the output with zeros to a 32-bit boundary; returns the padded size. */
    method PadOut(size: nat) returns (csize: nat)
      modifies this
      ensures out == old(out) + ZeroPad(size) && csize == size + PadLength(size)
      ensures csize % 4 == 0 && size <= csize < size + 4 && |out| == |old(out)| + csize - size
      ensures forall i :: |old(out)| <= i < |out| ==> out[i] == 0
    {
      csize := size;
      while csize % 4 != 0
        invariant size <= csize && out + ZeroPad(csize) == old(out) + ZeroPad(size)
        invariant csize + PadLength(csize) == size + PadLength(size)
        decreases PadLength(csize)
      {
        ghost var before := out;
        out := out + [0];
        assert out + ZeroPad(csize + 1) == before + ZeroPad(csize);
        csize := csize + 1;
      }
      assert out + [] == out;
    }

    /** Appends one record and returns its size in percent of the file's; an empty file cannot be
        mapped and is skipped. */
    method HandleFile(name: seq<Byte>, beyond: Beyond, data: seq<Byte>, packing: Packing) returns (rate: int)
      modifies this
      ensures out == old(out) + if data == [] then [] else Record(EntryOf(name, beyond, data, packing))
      ensures data == [] ==> rate == 0
      ensures var size := if packing.Heatshrink? && |packing.packed| <= |data| then |packing.packed| else |data|;
              data != [] ==> rate == (size + PadLength(size)) * 100 / |data|
    {
      var size := |data|;
      if size == 0 { return 0; }
      var csize, cdat, compression := size, data, COMPRESS_NONE;
      if packing.Heatshrink? {
        compression := COMPRESS_HEATSHRINK;
        cdat := packing.packed;
        csize := |cdat|;
      }
      if csize > size {
        compression := COMPRESS_NONE;
        csize := size;
        cdat := data;
      }
      ghost var e := EntryOf(name, beyond, data, packing);
      assert e.compression == compression && e.data == cdat && csize == |cdat|;
      csize := WriteRecord(name, beyond, compression, cdat, size, e);
      rate := csize * 100 / size;
    }

    /** The header, the name, the stored bytes and their padding. */
    method WriteRecord(name: seq<Byte>, beyond: Beyond, compression: Byte, cdat: seq<Byte>, size: nat, ghost e: Entry)
      returns (csize: nat)
      requires e == Entry(name, beyond[..PadLength(|name| + 1)], 0, compression, cdat, size, ZeroPad(|cdat|))
      modifies this
      ensures out == old(out) + Record(e) && csize == |cdat| + PadLength(|cdat|)
    {
      var nameLen := |name| + 1;
      if nameLen % 4 != 0 {
        nameLen := nameLen + 4 - nameLen % 4;
      }
      WriteHeader(0, compression, nameLen, |cdat|, size);
      ghost var h := e.Head();
      assert out == old(out) + h;
      var written := (name + [0] + beyond)[..nameLen];
      assert written == e.name + [0] + e.namePad;
      out := out + written;
      out := out + cdat;
      csize := PadOut(|cdat|);
      RecordParts(old(out), e, h, written, Record(e));
    }

    method FinishArchive()
      modifies this
      ensures out == old(out) + Trailer()
    {
      WriteHeader(FLAG_LASTFILE, COMPRESS_NONE, 0, 0, 0);
    }
  }

  // ----- whole archives

  datatype File = File(name: seq<Byte>, beyond: Beyond, data: seq<Byte>, packing: Packing)

  function FileEntry(f: File): Entry {
    EntryOf(f.name, f.beyond, f.data, f.packing)
  }

  /** The entries of the files that can be mapped. */
  function Entries(files: seq<File>): seq<Entry> {
    if files == [] then []
    else
      var f, init := files[|files| - 1], Entries(files[..|files| - 1]);
      if f.data == [] then init else init + [FileEntry(f)]
  }

  /** The writer run over a list of files produces exactly the image of their entries. */
  method WriteArchive(files: seq<File>) returns (a: Archive)
    ensures fresh(a) && a.out == Image(Entries(files))
  {
    a := new Archive();
    for i := 0 to |files|
      invariant fresh(a) && a.out == Records(Entries(files[..i]))
    {
      var f := files[i];
      assert files[..i + 1][..i] == files[..i];
      var _ := a.HandleFile(f.name, f.beyond, f.data, f.packing);
      if f.data != [] {
        RecordsSnoc(Entries(files[..i]), FileEntry(f));
      }
    }
    assert files[..|files|] == files;
    a.FinishArchive();
  }
}
