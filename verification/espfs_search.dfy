// Finding a file in flash: what the search does on any flash contents, and what it finds in
// an image.
module EspFsSearch {
  import opened Bytes
  import opened EspFsFormat

  // ----- headers in flash

  datatype FlashHeader = FlashHeader(magic: int, flags: Byte, compression: Byte,
                                     nameLen: int, lenComp: int, lenDecomp: int)

  function HeaderAt(flash: seq<Byte>, p: nat): FlashHeader
    requires p + HEADER_SIZE <= |flash|
  {
    FlashHeader(Int32At(flash, p), flash[p + 4], flash[p + 5],
                Int16At(flash, p + 6), Int32At(flash, p + 8), Int32At(flash, p + 12))
  }

  /** The middle part of a block in flash. */
  lemma Slice(flash: seq<Byte>, p: nat, block: seq<Byte>, a: seq<Byte>, b: seq<Byte>, c: seq<Byte>)
    requires p + |block| <= |flash| && flash[p..p + |block|] == block && block == a + b + c
    ensures flash[p + |a|..p + |a| + |b|] == b
  {
    forall i | 0 <= i < |b| ensures flash[p + |a| + i] == b[i] {
      assert flash[p + |a| + i] == flash[p..p + |block|][|a| + i] == block[|a| + i];
    }
  }

  lemma ReadsHeader(flash: seq<Byte>, p: nat, flags: Byte, compression: Byte,
                    nameLen: int, lenComp: int, lenDecomp: int)
    requires p + HEADER_SIZE <= |flash|
    requires flash[p..p + HEADER_SIZE] == Header(flags, compression, nameLen, lenComp, lenDecomp)
    requires -0x8000 <= nameLen < 0x8000
    requires -0x8000_0000 <= lenComp < 0x8000_0000 && -0x8000_0000 <= lenDecomp < 0x8000_0000
    ensures HeaderAt(flash, p) == FlashHeader(MAGIC, flags, compression, nameLen, lenComp, lenDecomp)
  {
    var h, a, b, c := flash[p..p + HEADER_SIZE], LE16(nameLen), LE32(lenComp), LE32(lenDecomp);
    assert h[0] == 0x45 && h[1] == 0x53 && h[2] == 0x66 && h[3] == 0x73;
    assert flash[p + 4] == h[4] && flash[p + 5] == h[5];
    Slice(flash, p, h, MAGIC_BYTES + [flags, compression], a, b + c);
    Slice(flash, p, h, MAGIC_BYTES + [flags, compression] + a, b, c);
    Slice(flash, p, h, MAGIC_BYTES + [flags, compression] + a + b, c, []);
    Decode16(nameLen, flash, p + 6);
    Decode32(lenComp, flash, p + 8);
    Decode32(lenDecomp, flash, p + 12);
  }

  // ----- the search

  /** Outcome of walking the records: the header found, none, or a walk that would leave the
      flash, stop advancing, or compare past the 256-byte name buffer. */
  datatype Found = At(header: nat) | Missing | Stuck

  function AlignUp(p: nat): (q: nat)
    ensures p <= q < p + 4 && q % 4 == 0
  {
    if p % 4 != 0 then p + 4 - p % 4 else p
  }

  /** strcmp of the name buffer with a NUL-free name; None when it runs off the buffer. */
  datatype Verdict = Same | Different | Overrun

  function CompareName(buf: seq<Byte>, name: seq<Byte>): Verdict
    requires |buf| == NAME_BUFFER
  {
    if |name| < NAME_BUFFER then (if buf[..|name|] == name && buf[|name|] == 0 then Same else Different)
    else if buf == name[..NAME_BUFFER] then Overrun
    else Different
  }

  /** What one record decides: the search stops, or goes on at a later offset. */
  datatype Look = Stop(found: Found) | Next(p: nat)

  /** The decision on a header at p, given how its name compares. */
  function Judge(h: FlashHeader, p: nat, limit: nat, v: Verdict): (l: Look)
    ensures l.Next? ==> p < l.p <= limit
  {
    if h.magic != MAGIC || h.flags % 2 == FLAG_LASTFILE then Stop(Missing)
    else
      match v
      case Same => Stop(At(p))
      case Overrun => Stop(Stuck)
      case Different =>
        var end := p + HEADER_SIZE + h.nameLen + h.lenComp;
        if end <= p || AlignUp(end) > limit then Stop(Stuck) else Next(AlignUp(end))
  }

  /** A name buffer that reaches past the flash cannot be filled. */
  function NameAt(flash: seq<Byte>, start: nat, name: seq<Byte>): Verdict {
    if start + NAME_BUFFER > |flash| then Overrun
    else CompareName(flash[start..start + NAME_BUFFER], name)
  }

  function LookAt(flash: seq<Byte>, p: nat, name: seq<Byte>): (l: Look)
    ensures l.Next? ==> p < l.p <= |flash|
  {
    if p % 4 != 0 || p + HEADER_SIZE > |flash| then Stop(Stuck)
    else Judge(HeaderAt(flash, p), p, |flash|, NameAt(flash, p + HEADER_SIZE, name))
  }

  function Search(flash: seq<Byte>, p: nat, name: seq<Byte>): Found
    decreases |flash| - p
  {
    var l := LookAt(flash, p, name);
    if l.Stop? then l.found else Search(flash, l.p, name)
  }

  // ----- searching an image

  function FirstNamed(es: seq<Entry>, name: seq<Byte>): (i: int)
    ensures -1 <= i < |es|
    ensures i >= 0 ==> es[i].name == name && forall j :: 0 <= j < i ==> es[j].name != name
    ensures i < 0 ==> forall j :: 0 <= j < |es| ==> es[j].name != name
  {
    if es == [] then -1
    else if es[0].name == name then 0
    else
      var i := FirstNamed(es[1..], name);
      assert forall j :: 0 < j < |es| ==> es[j] == es[1..][j - 1];
      if i < 0 then -1 else i + 1
  }

  /** Where record i of an image starts. */
  function Start(es: seq<Entry>, i: nat): (p: nat)
    requires i <= |es|
  {
    |Records(es[..i])|
  }

  /** What CompareName makes of a window that starts with a stored, NUL-terminated name. */
  lemma ComparesStoredName(buf: seq<Byte>, stored: seq<Byte>, name: seq<Byte>)
    requires |buf| == NAME_BUFFER && 0 !in stored && 0 !in name && |stored| < NAME_BUFFER
    requires buf[..|stored|] == stored && buf[|stored|] == 0
    ensures CompareName(buf, name) == if stored == name then Same else Different
  {
  }

  /** The same for a stored name that fills the window. */
  lemma ComparesLongName(buf: seq<Byte>, stored: seq<Byte>, name: seq<Byte>)
    requires 0 !in stored && |name| < NAME_BUFFER <= |stored| && buf == stored[..NAME_BUFFER]
    ensures CompareName(buf, name) == Different
  {
    assert buf[|name|] == stored[|name|];
  }

  /** Where the parts of a record lie in flash. */
  lemma RecordLayout(flash: seq<Byte>, p: nat, e: Entry)
    requires p + |Record(e)| <= |flash| && flash[p..p + |Record(e)|] == Record(e)
    ensures flash[p..p + HEADER_SIZE] == e.Head()
    ensures var start := p + HEADER_SIZE;
            flash[start..start + |e.name|] == e.name && flash[start + |e.name|] == 0
    ensures var body := p + HEADER_SIZE + e.NameLen();
            flash[body..body + |e.data|] == e.data
  {
    Parts(flash, p, Record(e), e.Head(), e.name, e.namePad, e.data, e.dataPad);
  }

  lemma Parts(flash: seq<Byte>, p: nat, r: seq<Byte>, head: seq<Byte>, name: seq<Byte>, namePad: seq<Byte>,
              data: seq<Byte>, dataPad: seq<Byte>)
    requires r == head + (name + [0] + namePad) + data + dataPad
    requires p + |r| <= |flash| && flash[p..p + |r|] == r
    ensures flash[p..p + |head|] == head
    ensures var start := p + |head|;
            flash[start..start + |name|] == name && flash[start + |name|] == 0
    ensures var body := p + |head| + |name| + 1 + |namePad|;
            flash[body..body + |data|] == data
  {
    Slice(flash, p, r, [], head, name + [0] + namePad + data + dataPad);
    Slice(flash, p, r, head, name, [0] + namePad + data + dataPad);
    Slice(flash, p, r, head + name, [0], namePad + data + dataPad);
    assert flash[p + |head| + |name|] == flash[p + |head| + |name|..p + |head| + |name| + 1][0];
    Slice(flash, p, r, head + name + [0] + namePad, data, dataPad);
  }

  lemma RecordHeader(flash: seq<Byte>, p: nat, e: Entry)
    requires e.Readable() && p + |Record(e)| <= |flash| && flash[p..p + |Record(e)|] == Record(e)
    ensures HeaderAt(flash, p) == FlashHeader(MAGIC, e.flags, e.compression, e.NameLen(), |e.data|, e.lenDecomp)
  {
    RecordLayout(flash, p, e);
    ReadsHeader(flash, p, e.flags, e.compression, e.NameLen(), |e.data|, e.lenDecomp);
  }

  /** The 256-byte buffer tells the two names apart. */
  predicate Comparable(stored: seq<Byte>, name: seq<Byte>) {
    |stored| < NAME_BUFFER || |name| < NAME_BUFFER
  }

  lemma ShortNamesCompare(stored: seq<Byte>, name: seq<Byte>)
    ensures |stored| < 256 || |name| < 256 ==> Comparable(stored, name)
  {
  }

  lemma RecordCompares(flash: seq<Byte>, p: nat, e: Entry, name: seq<Byte>)
    requires e.Readable() && 0 !in name && p + |Record(e)| <= |flash| && flash[p..p + |Record(e)|] == Record(e)
    requires p + HEADER_SIZE + NAME_BUFFER <= |flash| && Comparable(e.name, name)
    ensures NameAt(flash, p + HEADER_SIZE, name) == if e.name == name then Same else Different
  {
    RecordLayout(flash, p, e);
    ComparesInFlash(flash, p + HEADER_SIZE, e.name, name);
  }

  lemma RecordAligned(e: Entry)
    requires e.Readable()
    ensures |Record(e)| % 4 == 0 && HEADER_SIZE + e.NameLen() + |e.data| == |Record(e)| - |e.dataPad|
  {
    Aligned3(HEADER_SIZE, e.NameLen() + |e.data| + |e.dataPad|, 0);
  }

  lemma Aligned3(a: nat, b: nat, c: nat)
    requires a % 4 == 0 && b % 4 == 0 && c % 4 == 0
    ensures (a + b + c) % 4 == 0
  {
  }

  /** One step of the search over a readable record, compressed or not. */
  lemma SearchStep(flash: seq<Byte>, p: nat, e: Entry, name: seq<Byte>)
    requires e.Readable() && 0 !in name && p % 4 == 0
    requires p + |Record(e)| <= |flash| && flash[p..p + |Record(e)|] == Record(e)
    requires p + HEADER_SIZE + NAME_BUFFER <= |flash| && Comparable(e.name, name)
    ensures LookAt(flash, p, name) == if e.name == name then Stop(At(p)) else Next(p + |Record(e)|)
  {
    RecordHeader(flash, p, e);
    RecordCompares(flash, p, e, name);
    RecordAligned(e);
    Decides(p, |flash|, HeaderAt(flash, p), |Record(e)|, e.name == name);
  }

  lemma ComparesInFlash(flash: seq<Byte>, start: nat, stored: seq<Byte>, name: seq<Byte>)
    requires 0 !in stored && 0 !in name && start + NAME_BUFFER <= |flash| && start + |stored| < |flash|
    requires flash[start..start + |stored|] == stored && flash[start + |stored|] == 0 && Comparable(stored, name)
    ensures CompareName(flash[start..start + NAME_BUFFER], name) == if stored == name then Same else Different
  {
    var buf := flash[start..start + NAME_BUFFER];
    if |stored| < NAME_BUFFER {
      assert buf[..|stored|] == flash[start..start + |stored|];
      ComparesStoredName(buf, stored, name);
    } else {
      assert buf == flash[start..start + |stored|][..NAME_BUFFER];
      ComparesLongName(buf, stored, name);
    }
  }

  lemma Decides(p: nat, limit: nat, h: FlashHeader, size: nat, same: bool)
    requires h.magic == MAGIC && h.flags % 2 == 0 && h.nameLen >= 0 && h.lenComp >= 0
    requires p % 4 == 0 && p + size <= limit && size % 4 == 0
    requires HEADER_SIZE + h.nameLen + h.lenComp <= size < HEADER_SIZE + h.nameLen + h.lenComp + 4
    ensures Judge(h, p, limit, if same then Same else Different) == if same then Stop(At(p)) else Next(p + size)
  {
    NextAligned(p + HEADER_SIZE + h.nameLen + h.lenComp, p, size);
  }

  /** Past any record of another name the walk goes on at the next multiple of four after its
      end, whatever its lengths, flags and compression, as long as that is a step forward. */
  lemma SkipsBySize(h: FlashHeader, p: nat, limit: nat, q: nat)
    requires h.magic == 0x73665345 && h.flags % 2 == 0
    requires var end := p + 16 + h.nameLen + h.lenComp; p < end <= q < end + 4 && q % 4 == 0 && q <= limit
    ensures Judge(h, p, limit, Different) == Next(q)
  {
    var end := p + 16 + h.nameLen + h.lenComp;
    assert AlignUp(end) == q;
  }

  lemma NextAligned(end: nat, p: nat, size: nat)
    requires p % 4 == 0 && size % 4 == 0 && end <= p + size < end + 4
    ensures AlignUp(end) == p + size
  {
    Aligned3(p, size, 0);
  }

  /** The search gives up here: no magic word, or the last-file flag, whatever else is stored. */
  predicate EndsWalk(flash: seq<Byte>, p: nat) {
    && p + HEADER_SIZE <= |flash|
    && (HeaderAt(flash, p).magic != 0x73665345 || HeaderAt(flash, p).flags % 2 == 1)
  }

  predicate AllReadable(es: seq<Entry>) {
    forall e :: e in es ==> e.Readable()
  }

  lemma {:induction false} RecordsSplit(es: seq<Entry>, i: nat)
    requires i <= |es|
    ensures Records(es) == Records(es[..i]) + Records(es[i..])
  {
    if i == 0 {
      assert es[i..] == es && es[..i] == [];
    } else {
      RecordsSplit(es, i - 1);
      assert es[..i] == es[..i - 1] + [es[i - 1]];
      assert es[i - 1..][0] == es[i - 1] && es[i - 1..][1..] == es[i..];
      RecordsSnoc(es[..i - 1], es[i - 1]);
      Shift(Records(es[..i - 1]), Record(es[i - 1]), Records(es[i..]));
    }
  }

  lemma Shift(a: seq<Byte>, b: seq<Byte>, c: seq<Byte>)
    ensures a + (b + c) == a + b + c
  {
  }

  lemma StartNext(es: seq<Entry>, i: nat)
    requires i < |es|
    ensures Start(es, i + 1) == Start(es, i) + |Record(es[i])| <= |Records(es)|
  {
    assert es[..i + 1] == es[..i] + [es[i]];
    RecordsSnoc(es[..i], es[i]);
    RecordsSplit(es, i + 1);
  }

  lemma {:induction false} StartAligned(es: seq<Entry>, i: nat)
    requires i <= |es| && AllReadable(es)
    ensures Start(es, i) % 4 == 0
  {
    if i > 0 {
      var e := es[i - 1];
      assert e in es;
      StartAligned(es, i - 1);
      StartNext(es, i - 1);
      RecordAligned(e);
      Aligned3(Start(es, i - 1), |Record(e)|, 0);
    }
  }

  /** Record i of some records followed by other flash contents. */
  lemma RecordInFlash(es: seq<Entry>, tail: seq<Byte>, i: nat)
    requires i < |es|
    ensures var flash, p := Records(es) + tail, Start(es, i);
            p + |Record(es[i])| <= |flash| && flash[p..p + |Record(es[i])|] == Record(es[i])
  {
    RecordsSplit(es, i);
    var rest := es[i..];
    assert rest[0] == es[i];
    MiddlePart(Records(es), Records(es[..i]), Record(es[i]), Records(rest[1..]), tail);
  }

  lemma MiddlePart(whole: seq<Byte>, a: seq<Byte>, b: seq<Byte>, c: seq<Byte>, tail: seq<Byte>)
    requires whole == a + (b + c)
    ensures |a| + |b| <= |whole + tail| && (whole + tail)[|a|..|a| + |b|] == b
  {
  }

  lemma SameHeader(before: seq<Byte>, tail: seq<Byte>)
    requires HEADER_SIZE <= |tail|
    ensures HeaderAt(before + tail, |before|) == HeaderAt(tail, 0)
  {
    var flash, p := before + tail, |before|;
    assert forall i :: 0 <= i < HEADER_SIZE ==> flash[p + i] == tail[i];
  }

  predicate AllComparable(es: seq<Entry>, name: seq<Byte>) {
    forall e :: e in es ==> Comparable(e.name, name)
  }

  lemma WindowInFlash(records: seq<Byte>, tail: seq<Byte>, p: nat, size: nat)
    requires p + size <= |records| && HEADER_SIZE <= size && NAME_BUFFER <= |tail|
    ensures p + HEADER_SIZE + NAME_BUFFER <= |records + tail|
  {
  }

  /** The record e is at offset p, aligned, and the name buffer can be filled there. */
  predicate RecordAt(flash: seq<Byte>, p: nat, e: Entry) {
    && p % 4 == 0 && p + |Record(e)| <= |flash| && flash[p..p + |Record(e)|] == Record(e)
    && p + HEADER_SIZE + NAME_BUFFER <= |flash|
  }

  lemma RecordStarts(es: seq<Entry>, tail: seq<Byte>, i: nat)
    requires AllReadable(es) && |tail| >= NAME_BUFFER && i < |es|
    ensures RecordAt(Records(es) + tail, Start(es, i), es[i])
    ensures Start(es, i + 1) == Start(es, i) + |Record(es[i])|
  {
    StartAligned(es, i);
    StartNext(es, i);
    RecordInFlash(es, tail, i);
    WindowInFlash(Records(es), tail, Start(es, i), |Record(es[i])|);
  }

  /** What the search sees at the start of record i. */
  lemma LooksAtRecord(es: seq<Entry>, tail: seq<Byte>, name: seq<Byte>, i: nat)
    requires AllReadable(es) && AllComparable(es, name) && 0 !in name && |tail| >= NAME_BUFFER && i < |es|
    ensures LookAt(Records(es) + tail, Start(es, i), name)
         == if es[i].name == name then Stop(At(Start(es, i))) else Next(Start(es, i + 1))
  {
    RecordStarts(es, tail, i);
    assert es[i] in es;
    StepsOver(Records(es) + tail, Start(es, i), es[i], name);
  }

  lemma StepsOver(flash: seq<Byte>, p: nat, e: Entry, name: seq<Byte>)
    requires e.Readable() && 0 !in name && Comparable(e.name, name) && RecordAt(flash, p, e)
    ensures LookAt(flash, p, name) == if e.name == name then Stop(At(p)) else Next(p + |Record(e)|)
  {
    SearchStep(flash, p, e, name);
  }

  lemma LooksAtEnd(es: seq<Entry>, tail: seq<Byte>, name: seq<Byte>)
    requires AllReadable(es) && EndsWalk(tail, 0)
    ensures LookAt(Records(es) + tail, Start(es, |es|), name) == Stop(Missing)
  {
    StartAligned(es, |es|);
    assert es[..|es|] == es;
    SameHeader(Records(es), tail);
  }

  /** From the start of record i the search finds the first later record of that name. */
  lemma {:induction false} SearchFrom(es: seq<Entry>, tail: seq<Byte>, name: seq<Byte>, i: nat)
    requires AllReadable(es) && AllComparable(es, name) && 0 !in name
    requires |tail| >= NAME_BUFFER && EndsWalk(tail, 0) && i <= |es|
    requires forall j :: 0 <= j < i ==> es[j].name != name
    ensures var k := FirstNamed(es, name);
            Search(Records(es) + tail, Start(es, i), name) == if k < 0 then Missing else At(Start(es, k))
    decreases |es| - i
  {
    if i == |es| {
      LooksAtEnd(es, tail, name);
    } else {
      LooksAtRecord(es, tail, name, i);
      if es[i].name != name {
        assert forall j :: 0 <= j < i + 1 ==> es[j].name != name;
        SearchFrom(es, tail, name, i + 1);
      }
    }
  }

  /** Over any readable records (of any compression, padding and spare flags) up to a header
      that ends the walk, in a good image or a broken one, the search finds the first record
      that bears the name, and reports a missing file exactly when there is none. */
  lemma SearchRecords(es: seq<Entry>, tail: seq<Byte>, name: seq<Byte>)
    requires AllReadable(es) && AllComparable(es, name) && 0 !in name
    requires |tail| >= NAME_BUFFER && EndsWalk(tail, 0)
    ensures var k := FirstNamed(es, name);
            Search(Records(es) + tail, 0, name) == if k < 0 then Missing else At(Start(es, k))
  {
    assert Start(es, 0) == 0;
    SearchFrom(es, tail, name, 0);
  }

  lemma TrailerHeader(tail: seq<Byte>)
    ensures HeaderAt(Trailer() + tail, 0) == FlashHeader(0x73665345, 1, 0, 0, 0, 0)
  {
    assert (Trailer() + tail)[0..HEADER_SIZE] == Trailer();
    ReadsHeader(Trailer() + tail, 0, FLAG_LASTFILE, COMPRESS_NONE, 0, 0, 0);
  }

  /** In particular in a whole image. */
  lemma SearchImage(es: seq<Entry>, tail: seq<Byte>, name: seq<Byte>)
    requires AllReadable(es) && AllComparable(es, name) && 0 !in name && HEADER_SIZE + |tail| >= NAME_BUFFER
    ensures var k := FirstNamed(es, name);
            Search(Image(es) + tail, 0, name) == if k < 0 then Missing else At(Start(es, k))
  {
    TrailerHeader(tail);
    Shift(Records(es), Trailer(), tail);
    SearchRecords(es, Trailer() + tail, name);
  }
}
