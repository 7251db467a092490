// The EspFS reader (build without heatshrink): finding and opening a file by name, and reading
// its length and contents by aligned 32-bit loads from flash.
module EspFs {
  import opened CInt
  import opened Bytes
  import opened EspFsFormat
  import opened EspFsSearch

  // ----- memory-mapped flash

  /** The only access the flash supports: a 32-bit word at an aligned address. */
  function LoadWord(flash: seq<Byte>, address: nat): (w: int)
    requires address % 4 == 0 && address + 4 <= |flash|
    ensures -0x8000_0000 <= w < 0x8000_0000
  {
    Int32At(flash, address)
  }

  /** A signed word shifted right and cut to a byte gives its bytes in little-endian order. */
  lemma WordBytes(flash: seq<Byte>, address: nat)
    requires address % 4 == 0 && address + 4 <= |flash|
    ensures var w := LoadWord(flash, address);
            && w % 256 == flash[address] && w / 0x100 % 256 == flash[address + 1]
            && w / 0x1_0000 % 256 == flash[address + 2] && w / 0x100_0000 % 256 == flash[address + 3]
  {
    SplitWord(flash[address], flash[address + 1], flash[address + 2], flash[address + 3]);
  }

  lemma SplitWord(a: Byte, b: Byte, c: Byte, d: Byte)
    ensures var u := a as int + 256 * (b as int) + 0x1_0000 * (c as int) + 0x100_0000 * (d as int);
            var w := if u < 0x8000_0000 then u else u - 0x1_0000_0000;
            w % 256 == a && w / 0x100 % 256 == b && w / 0x1_0000 % 256 == c && w / 0x100_0000 % 256 == d
  {
    var u := a as int + 256 * (b as int) + 0x1_0000 * (c as int) + 0x100_0000 * (d as int);
    var w := if u < 0x8000_0000 then u else u - 0x1_0000_0000;
    var top: int := if d < 128 then d as int else d as int - 256;
    assert u < 0x8000_0000 <==> d < 128;
    LowByte(d, top);
    LowByte(c, c as int + 256 * top);
    LowByte(b, b as int + 256 * (c as int + 256 * top));
    LowByte(a, w);
    ShiftTwice(w);
  }

  lemma LowByte(b: Byte, v: int)
    requires (v - b) % 256 == 0
    ensures v % 256 == b && v == b + 256 * (v / 256)
  {
  }

  lemma ShiftTwice(w: int)
    ensures w / 0x1_0000 == w / 0x100 / 0x100 && w / 0x100_0000 == w / 0x1_0000 / 0x100
  {
  }

  /** The byte at any flash address, picked out of the aligned word that holds it. */
  method LoadByte(flash: seq<Byte>, address: nat) returns (v: Byte)
    requires address < |flash| && |flash| % 4 == 0
    ensures v == flash[address]
  {
    var b := address % 4;
    var w := LoadWord(flash, address - b);
    WordBytes(flash, address - b);
    v := w % 256;
    if b == 1 { v := w / 0x100 % 256; }
    if b == 2 { v := w / 0x1_0000 % 256; }
    if b == 3 { v := w / 0x100_0000 % 256; }
  }

  /** Copies len bytes from any flash address to dst, by aligned word loads alone. */
  method MemcpyAligned(dst: array<Byte>, flash: seq<Byte>, src: nat, len: int)
    requires len <= dst.Length && src <= |flash| && src + len <= |flash| && |flash| % 4 == 0
    modifies dst
    ensures len >= 0 ==> dst[..len] == flash[src..src + len] && dst[len..] == old(dst[len..])
    ensures len < 0 ==> dst[..] == old(dst[..])
  {
    var x := 0;
    while x < len
      invariant 0 <= x <= Max(len, 0)
      invariant forall i :: 0 <= i < x ==> dst[i] == flash[src + i]
      invariant forall i :: x <= i < dst.Length ==> dst[i] == old(dst[i])
    {
      dst[x] := LoadByte(flash, src + x);
      x := x + 1;
    }
  }

  // ----- open files

  class EspFsFile {
    const flash: seq<Byte>
    const header: nat
    const decompressor: Byte
    const posStart: int
    var posComp: int
    var posDecomp: int

    constructor (flash: seq<Byte>, header: nat, decompressor: Byte, posStart: int)
      ensures this.flash == flash && this.header == header && this.decompressor == decompressor
      ensures this.posStart == posStart && posComp == posStart && posDecomp == 0
    {
      this.flash, this.header, this.decompressor, this.posStart := flash, header, decompressor, posStart;
      posComp, posDecomp := posStart, 0;
    }

    /** The header names a stored region inside the flash and the cursor is in it. */
    ghost predicate Valid()
      reads this
    {
      && |flash| % 4 == 0 && header + HEADER_SIZE <= |flash|
      && 0 <= Length() && 0 <= posStart && posStart + Length() <= |flash|
      && posStart <= posComp <= posStart + Length() && posDecomp == posComp - posStart
    }

    function Length(): int
      requires header + HEADER_SIZE <= |flash|
    {
      HeaderAt(flash, header).lenComp
    }

    ghost function Data(): seq<Byte>
      reads this
      requires Valid()
    {
      flash[posStart..posStart + Length()]
    }

    ghost function Pos(): int
      reads this
    {
      posComp - posStart
    }
  }

  // ----- espFsOpen

  function StripSlashes(name: seq<Byte>): (r: seq<Byte>)
    ensures r == [] || r[0] != 0x2F
  {
    if name != [] && name[0] == 0x2F then StripSlashes(name[1..]) else name
  }

  lemma {:induction false} StripKeepsBytes(name: seq<Byte>, b: Byte)
    requires b !in name
    ensures b !in StripSlashes(name)
  {
    if name != [] && name[0] == 0x2F { StripKeepsBytes(name[1..], b); }
  }

  /** The body of the search loop: examine one header and move past its record. */
  method Examine(flash: seq<Byte>, p0: nat, fileName: seq<Byte>) returns (l: Look)
    requires LookAt(flash, p0, fileName) != Stop(Stuck)
    ensures l == LookAt(flash, p0, fileName)
  {
    var p: int := p0;
    var h := HeaderAt(flash, p);
    if h.magic != MAGIC { return Stop(Missing); }
    if h.flags % 2 == FLAG_LASTFILE { return Stop(Missing); }
    p := p + HEADER_SIZE;
    var namebuf := flash[p..p + NAME_BUFFER];
    if CompareName(namebuf, fileName) == Same { return Stop(At(p0)); }
    p := p + h.nameLen + h.lenComp;
    if p % 4 != 0 { p := p + 4 - p % 4; }
    return Next(p);
  }

  /** The search loop of espFsOpen: the offset of the header found, or -1. */
  method FindHeader(flash: seq<Byte>, fileName: seq<Byte>) returns (hpos: int)
    requires Search(flash, 0, fileName) != Stuck
    ensures match Search(flash, 0, fileName)
            case At(p) => hpos == p
            case _ => hpos == -1
  {
    var p: nat := 0;
    while true
      invariant Search(flash, p, fileName) == Search(flash, 0, fileName)
      decreases |flash| - p
    {
      var l := Examine(flash, p, fileName);
      if l.Stop? { return if l.found.At? then l.found.header else -1; }
      p := l.p;
    }
  }

  /** A file's header with exactly this name after it. */
  predicate BearsName(flash: seq<Byte>, q: nat, name: seq<Byte>) {
    && q % 4 == 0 && q + HEADER_SIZE + |name| < |flash|
    && HeaderAt(flash, q).magic == MAGIC && HeaderAt(flash, q).flags % 2 != FLAG_LASTFILE
    && var start := q + HEADER_SIZE;
       flash[start..start + |name|] == name && flash[start + |name|] == 0
  }

  lemma StopsAtName(flash: seq<Byte>, p: nat, name: seq<Byte>)
    requires LookAt(flash, p, name) == Stop(At(p))
    ensures BearsName(flash, p, name)
  {
    var start := p + HEADER_SIZE;
    SliceOfSlice(flash, start, start + NAME_BUFFER, 0, |name|);
    assert flash[start..start + NAME_BUFFER][..|name|] == flash[start..start + |name|];
  }

  /** Whatever the flash holds, a search ends only at a file header that bears the name. */
  lemma {:induction false} FoundInFlash(flash: seq<Byte>, p: nat, name: seq<Byte>)
    ensures match Search(flash, p, name)
            case At(q) => p <= q && BearsName(flash, q, name)
            case _ => true
    decreases |flash| - p
  {
    var l := LookAt(flash, p, name);
    if l.Next? {
      FoundInFlash(flash, l.p, name);
    } else if l.found.At? {
      StopsAtName(flash, p, name);
    }
  }

  /** Opens the first record that bears the name; `mallocOk` says whether malloc succeeds. */
  method EspFsOpen(flash: seq<Byte>, fileName0: seq<Byte>, mallocOk: bool) returns (r: EspFsFile?)
    requires Search(flash, 0, StripSlashes(fileName0)) != Stuck
    ensures Search(flash, 0, StripSlashes(fileName0)) == Missing ==> r == null
    ensures match Search(flash, 0, StripSlashes(fileName0))
            case At(p) =>
              p % 4 == 0 && p + HEADER_SIZE <= |flash|
              && (if !mallocOk || HeaderAt(flash, p).compression != COMPRESS_NONE then r == null
                  else r != null && fresh(r) && Describes(r, flash, p) && r.posComp == r.posStart && r.posDecomp == 0)
            case _ => true
  {
    var fileName := fileName0;
    while fileName != [] && fileName[0] == 0x2F
      invariant StripSlashes(fileName) == StripSlashes(fileName0)
      decreases |fileName|
    {
      fileName := fileName[1..];
    }
    FoundInFlash(flash, 0, fileName);
    var hpos := FindHeader(flash, fileName);
    if hpos == -1 { return null; }
    var h := HeaderAt(flash, hpos);
    if !mallocOk { return null; }
    if h.compression != COMPRESS_NONE { return null; }
    r := new EspFsFile(flash, hpos, h.compression, hpos + HEADER_SIZE + h.nameLen);
  }

  /** r is a handle for the record whose header is at p. */
  predicate Describes(r: EspFsFile, flash: seq<Byte>, p: nat)
    requires p + HEADER_SIZE <= |flash|
  {
    && r.flash == flash && r.header == p && r.decompressor == COMPRESS_NONE
    && r.posStart == p + HEADER_SIZE + HeaderAt(flash, p).nameLen
  }

  // ----- espFsRead

  /** How many bytes a read of len bytes delivers at a position. */
  function ReadCount(length: int, pos: int, len: int): int {
    if len > length - pos then length - pos else len
  }

  lemma SameWord(w: seq<Byte>, flash: seq<Byte>, p: nat)
    requires |w| == 4 && p + 4 <= |flash| && w[..4] == flash[p..p + 4]
    ensures Int32At(w, 0) == Int32At(flash, p)
  {
    assert w == flash[p..p + 4];
  }

  lemma SliceOfSlice(s: seq<Byte>, a: nat, b: nat, c: nat, d: nat)
    requires c <= d <= b - a && b <= |s|
    ensures s[a..b][c..d] == s[a + c..a + d]
  {
    forall i | 0 <= i < d - c ensures s[a..b][c..d][i] == s[a + c..a + d][i] {
      assert s[a..b][c..d][i] == s[a..b][c + i] == s[a + c + i];
    }
  }

  /** The file length, fetched from the header in flash. */
  method CachedLength(fh: EspFsFile) returns (flen: int)
    requires fh.Valid()
    ensures flen == fh.Length()
  {
    var word := new Byte[4](_ => 0);
    MemcpyAligned(word, fh.flash, fh.header + 8, 4);
    flen := Int32At(word[..], 0);
    SameWord(word[..], fh.flash, fh.header + 8);
  }

  /** The branch for a file stored as it is. */
  method ReadStored(fh: EspFsFile, buff: array<Byte>, len0: int, flen: int) returns (len: int)
    requires fh.Valid() && flen == fh.Length() && ReadCount(flen, fh.Pos(), len0) <= buff.Length
    modifies fh, buff
    ensures len == ReadCount(flen, old(fh.Pos()), len0)
    ensures fh.posComp == old(fh.posComp) + len && fh.posDecomp == old(fh.posDecomp) + len
    ensures len >= 0 ==> buff[..len] == fh.flash[old(fh.posComp)..old(fh.posComp) + len]
    ensures len >= 0 ==> buff[len..] == old(buff[len..])
    ensures len < 0 ==> buff[..] == old(buff[..])
  {
    len := len0;
    var toRead := flen - (fh.posComp - fh.posStart);
    if len > toRead { len := toRead; }
    MemcpyAligned(buff, fh.flash, fh.posComp, len);
    fh.posDecomp := fh.posDecomp + len;
    fh.posComp := fh.posComp + len;
  }

  /** A negative length moves the cursor back and copies nothing; a handle with another
      decompressor reads nothing. */
  method EspFsRead(fh: EspFsFile?, buff: array<Byte>, len0: int) returns (n: int)
    requires fh != null ==> fh.Valid() && ReadCount(fh.Length(), fh.Pos(), len0) <= buff.Length
    modifies fh, buff
    ensures fh == null || fh.decompressor != COMPRESS_NONE ==> n == 0 && buff[..] == old(buff[..])
    ensures fh != null && fh.decompressor == COMPRESS_NONE ==> n == Min(len0, fh.Length() - old(fh.Pos()))
    ensures fh != null ==> fh.Pos() == old(fh.Pos()) + n && fh.posDecomp == old(fh.posDecomp) + n
    ensures fh != null && fh.Pos() >= 0 ==> fh.Valid()
    ensures fh != null && n >= 0 ==>
              buff[..n] == old(fh.Data())[old(fh.Pos())..old(fh.Pos()) + n] && buff[n..] == old(buff[n..])
    ensures n < 0 ==> buff[..] == old(buff[..])
  {
    if fh == null { return 0; }
    var flen := CachedLength(fh);
    if fh.decompressor == COMPRESS_NONE {
      ghost var pos := fh.Pos();
      n := ReadStored(fh, buff, len0, flen);
      if n >= 0 { SliceOfSlice(fh.flash, fh.posStart, fh.posStart + fh.Length(), pos, pos + n); }
      return n;
    }
    return 0;
  }

  // ----- reading a file in pieces

  function Sum(lens: seq<nat>): nat {
    if lens == [] then 0 else lens[0] + Sum(lens[1..])
  }

  /** The bytes delivered by successive reads of the given lengths. */
  function Pieces(data: seq<Byte>, pos: nat, lens: seq<nat>): seq<seq<Byte>>
    requires pos <= |data|
    decreases lens
  {
    if lens == [] then []
    else
      var n := ReadCount(|data|, pos, lens[0]);
      [data[pos..pos + n]] + Pieces(data, pos + n, lens[1..])
  }

  function Concat(pieces: seq<seq<Byte>>): seq<Byte> {
    if pieces == [] then [] else pieces[0] + Concat(pieces[1..])
  }

  lemma ConcatCons(piece: seq<Byte>, rest: seq<seq<Byte>>)
    ensures Concat([piece] + rest) == piece + Concat(rest)
  {
    assert ([piece] + rest)[1..] == rest;
  }

  lemma JoinSlices(data: seq<Byte>, a: nat, b: nat, c: nat)
    requires a <= b <= c <= |data|
    ensures data[a..b] + data[b..c] == data[a..c]
  {
  }

  /** However the reads are cut, they deliver the file in order, without gaps or repeats, up
      to the bytes asked for or the end of the file. */
  lemma {:induction false} PiecesAreConsecutive(data: seq<Byte>, pos: nat, lens: seq<nat>)
    requires pos <= |data|
    ensures Concat(Pieces(data, pos, lens)) == data[pos..Min(pos + Sum(lens), |data|)]
    decreases lens
  {
    if lens != [] {
      var n := ReadCount(|data|, pos, lens[0]);
      PiecesAreConsecutive(data, pos + n, lens[1..]);
      ConcatCons(data[pos..pos + n], Pieces(data, pos + n, lens[1..]));
      JoinSlices(data, pos, pos + n, Min(pos + Sum(lens), |data|));
    }
  }

  /** One espFsRead call into a buffer of its own. */
  method ReadPiece(fh: EspFsFile, len: nat) returns (piece: seq<Byte>)
    requires fh.Valid() && fh.decompressor == COMPRESS_NONE
    modifies fh
    ensures fh.Valid() && fh.Pos() == old(fh.Pos()) + ReadCount(fh.Length(), old(fh.Pos()), len)
    ensures piece == fh.Data()[old(fh.Pos())..fh.Pos()]
  {
    var buff := new Byte[len](_ => 0);
    var n := EspFsRead(fh, buff, len);
    piece := buff[..n];
  }

  lemma {:induction false} NextPiece(data: seq<Byte>, pos: nat, lens: seq<nat>, i: nat)
    requires pos <= |data| && i < |lens|
    ensures var n := ReadCount(|data|, pos, lens[i]);
            Pieces(data, pos, lens[i..]) == [data[pos..pos + n]] + Pieces(data, pos + n, lens[i + 1..])
  {
    assert lens[i..][1..] == lens[i + 1..];
  }

  /** Read number i of a run: `out` has been delivered, and `rest` is still to come. */
  method ReadNext(fh: EspFsFile, lens: seq<nat>, i: nat, out: seq<seq<Byte>>, ghost rest: seq<seq<Byte>>)
    returns (out': seq<seq<Byte>>, ghost rest': seq<seq<Byte>>)
    requires fh.Valid() && fh.decompressor == COMPRESS_NONE && i < |lens|
    requires rest == Pieces(fh.Data(), fh.Pos(), lens[i..])
    modifies fh
    ensures fh.Valid() && rest' == Pieces(fh.Data(), fh.Pos(), lens[i + 1..])
    ensures out' + rest' == out + rest
  {
    NextPiece(fh.Data(), fh.Pos(), lens, i);
    var piece := ReadPiece(fh, lens[i]);
    out', rest' := out + [piece], Pieces(fh.Data(), fh.Pos(), lens[i + 1..]);
    assert rest == [piece] + rest';
  }

  /** A run of espFsRead calls delivers exactly the pieces, so together the file from the
      cursor on, up to the bytes asked for or its end. */
  method ReadAll(fh: EspFsFile, lens: seq<nat>) returns (out: seq<seq<Byte>>)
    requires fh.Valid() && fh.decompressor == COMPRESS_NONE
    modifies fh
    ensures fh.Valid() && out == Pieces(old(fh.Data()), old(fh.Pos()), lens)
    ensures Concat(out) == old(fh.Data())[old(fh.Pos())..Min(old(fh.Pos()) + Sum(lens), fh.Length())]
  {
    ghost var pieces := Pieces(fh.Data(), fh.Pos(), lens);
    ghost var rest := pieces;
    PiecesAreConsecutive(fh.Data(), fh.Pos(), lens);
    out := [];
    assert lens[0..] == lens;
    for i := 0 to |lens|
      invariant fh.Valid() && rest == Pieces(fh.Data(), fh.Pos(), lens[i..])
      invariant out + rest == pieces
    {
      out, rest := ReadNext(fh, lens, i, out, rest);
    }
  }

  // ----- leading slashes

  function Slashes(n: nat): seq<Byte> {
    if n == 0 then [] else [0x2F] + Slashes(n - 1)
  }

  /** Any number of leading slashes in a request is ignored. */
  lemma {:induction false} LeadingSlashesIgnored(n: nat, name: seq<Byte>)
    ensures StripSlashes(Slashes(n) + name) == StripSlashes(name)
  {
    if n == 0 {
      assert Slashes(n) + name == name;
    } else {
      var rest := Slashes(n - 1) + name;
      LeadingSlashesIgnored(n - 1, name);
      assert Slashes(n) + name == [0x2F] + rest;
      assert ([0x2F] + rest)[1..] == rest;
    }
  }

  /** A name can be asked for exactly when it does not itself start with a slash. */
  lemma AskableNames(name: seq<Byte>)
    ensures (exists request :: StripSlashes(request) == name) <==> name == [] || name[0] != 0x2F
  {
    if name == [] || name[0] != 0x2F {
      assert StripSlashes(name) == name;
    }
  }
}
