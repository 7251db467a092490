// Writing an archive, opening a file in it by name and reading it back.
module EspFsRoundTrip {
  import opened CInt
  import opened Bytes
  import opened EspFsFormat
  import opened EspFsSearch
  import opened MkEspFs
  import opened EspFs

  /** No such file, a file stored as it is, or one that this build cannot unpack. */
  datatype Content = Absent | Present(data: seq<Byte>) | Packed

  predicate Named(f: File, name: seq<Byte>) {
    f.data != [] && f.name == name
  }

  /** The contents of the first non-empty file of that name. */
  function FirstContent(files: seq<File>, name: seq<Byte>): (c: Content)
    ensures c.Absent? ==> forall f :: f in files ==> !Named(f, name)
    ensures !c.Absent? ==> exists i :: 0 <= i < |files| && Named(files[i], name)
                                    && (forall j :: 0 <= j < i ==> !Named(files[j], name))
                                    && c == if KeepsPacked(files[i].data, files[i].packing) then Packed
                                            else Present(files[i].data)
  {
    if files == [] then Absent
    else
      var init, last := files[..|files| - 1], files[|files| - 1];
      assert files == init + [last];
      var c := FirstContent(init, name);
      if !c.Absent? then c
      else if !Named(last, name) then Absent
      else if KeepsPacked(last.data, last.packing) then Packed
      else Present(last.data)
  }

  /** The name's length and the file's fit the header fields. */
  predicate Storable(f: File) {
    0 !in f.name && |f.name| < 0x7FFC && |f.data| < 0x8000_0000
  }

  lemma {:induction false} FirstNamedSnoc(es: seq<Entry>, e: Entry, name: seq<Byte>)
    ensures FirstNamed(es + [e], name)
         == var k := FirstNamed(es, name);
            if k >= 0 then k else if e.name == name then |es| else -1
  {
    if es != [] {
      assert (es + [e])[1..] == es[1..] + [e];
      FirstNamedSnoc(es[1..], e, name);
    } else {
      assert es + [e] == [e];
    }
  }

  lemma StorableIsReadable(f: File)
    requires Storable(f)
    ensures FileEntry(f).Readable()
  {
    PaddedLength(|f.name| + 1);
    PaddedLength(|FileEntry(f).data|);
  }

  lemma {:induction false} EntriesAreReadable(files: seq<File>, name: seq<Byte>)
    requires forall f :: f in files ==> Storable(f) && Comparable(f.name, name)
    ensures AllReadable(Entries(files)) && AllComparable(Entries(files), name)
  {
    if files != [] {
      var init, f := files[..|files| - 1], files[|files| - 1];
      assert f in files;
      EntriesAreReadable(init, name);
      StorableIsReadable(f);
    }
  }

  function EntryContent(e: Entry): Content {
    if e.compression == COMPRESS_NONE then Present(e.data) else Packed
  }

  lemma {:induction false} EntriesFind(files: seq<File>, name: seq<Byte>)
    ensures var k := FirstNamed(Entries(files), name);
            FirstContent(files, name) == if k < 0 then Absent else EntryContent(Entries(files)[k])
  {
    if files != [] {
      var init, f := files[..|files| - 1], files[|files| - 1];
      EntriesFind(init, name);
      if f.data != [] {
        FirstNamedSnoc(Entries(init), FileEntry(f), name);
      }
    }
  }

  /** At p there is the header of an uncompressed file with these contents. */
  predicate HoldsFile(flash: seq<Byte>, p: nat, data: seq<Byte>) {
    && p + HEADER_SIZE <= |flash|
    && var h, body := HeaderAt(flash, p), p + HEADER_SIZE + HeaderAt(flash, p).nameLen;
       && h.compression == COMPRESS_NONE && h.lenComp == |data|
       && 0 <= body && body + |data| <= |flash| && flash[body..body + |data|] == data
  }

  lemma RecordHoldsFile(flash: seq<Byte>, p: nat, e: Entry)
    requires e.Readable() && RecordAt(flash, p, e)
    ensures HeaderAt(flash, p).compression == e.compression
    ensures e.compression == COMPRESS_NONE ==> HoldsFile(flash, p, e.data)
  {
    RecordHeader(flash, p, e);
    RecordLayout(flash, p, e);
  }

  /** What a search for the name meets in flash: no record, one with these contents, or a
      compressed one. */
  predicate Serves(flash: seq<Byte>, name: seq<Byte>, want: Content) {
    var found := Search(flash, 0, name);
    match want
    case Absent => found == Missing
    case Present(data) => found.At? && HoldsFile(flash, found.header, data)
    case Packed =>
      found.At? && found.header + HEADER_SIZE <= |flash| && HeaderAt(flash, found.header).compression != COMPRESS_NONE
  }

  /** A search over any readable records meets the first one of the name, whatever the
      compression of those before it. */
  lemma RecordsServe(es: seq<Entry>, tail: seq<Byte>, name: seq<Byte>)
    requires AllReadable(es) && AllComparable(es, name) && 0 !in name
    requires |tail| >= NAME_BUFFER && EndsWalk(tail, 0)
    ensures var k := FirstNamed(es, name);
            Serves(Records(es) + tail, name, if k < 0 then Absent else EntryContent(es[k]))
  {
    SearchRecords(es, tail, name);
    var k := FirstNamed(es, name);
    if k >= 0 {
      assert es[k] in es;
      RecordStarts(es, tail, k);
      RecordHoldsFile(Records(es) + tail, Start(es, k), es[k]);
    }
  }

  /** In the image written for any storable files, compressed or not, followed by any other flash
      contents, the search finds the first non-empty file whose name is the request without
      its leading slashes, and the record found holds exactly its bytes if it is uncompressed. */
  lemma RoundTrip(files: seq<File>, tail: seq<Byte>, request: seq<Byte>)
    requires forall f :: f in files ==> Storable(f) && Comparable(f.name, StripSlashes(request))
    requires 0 !in request && HEADER_SIZE + |tail| >= NAME_BUFFER
    ensures Serves(Image(Entries(files)) + tail, StripSlashes(request), FirstContent(files, StripSlashes(request)))
  {
    var es, name := Entries(files), StripSlashes(request);
    StripKeepsBytes(request, 0);
    EntriesAreReadable(files, name);
    EntriesFind(files, name);
    TrailerHeader(tail);
    Shift(Records(es), Trailer(), tail);
    RecordsServe(es, Trailer() + tail, name);
  }

  /** A handle on such a record starts valid, at the beginning of exactly those contents. */
  lemma HandleReadsFile(r: EspFsFile, flash: seq<Byte>, p: nat, data: seq<Byte>)
    requires |flash| % 4 == 0 && HoldsFile(flash, p, data) && Describes(r, flash, p)
    requires r.posComp == r.posStart && r.posDecomp == 0
    ensures r.Valid() && r.Data() == data && r.Pos() == 0
  {
  }

  lemma ImageAligned(es: seq<Entry>)
    requires AllReadable(es)
    ensures |Image(es)| % 4 == 0
  {
    StartAligned(es, |es|);
    assert es[..|es|] == es;
    Aligned3(|Records(es)|, HEADER_SIZE, 0);
  }

  /** Opens a request and reads it in pieces of any lengths. */
  method Fetch(flash: seq<Byte>, request: seq<Byte>, mallocOk: bool, lens: seq<nat>, ghost want: Content)
    returns (found: bool, got: seq<seq<Byte>>)
    requires |flash| % 4 == 0 && Serves(flash, StripSlashes(request), want)
    ensures found == (want.Present? && mallocOk)
    ensures found ==> Concat(got) == want.data[..Min(Sum(lens), |want.data|)]
  {
    got := [];
    var fh := EspFsOpen(flash, request, mallocOk);
    found := fh != null;
    if found {
      HandleReadsFile(fh, flash, Search(flash, 0, StripSlashes(request)).header, want.data);
      got := ReadAll(fh, lens);
    }
  }

  lemma FlashIsWords(files: seq<File>, tail: seq<Byte>, name: seq<Byte>)
    requires forall f :: f in files ==> Storable(f) && Comparable(f.name, name)
    requires |tail| % 4 == 0
    ensures |Image(Entries(files)) + tail| % 4 == 0
  {
    EntriesAreReadable(files, name);
    ImageAligned(Entries(files));
    Aligned3(|Image(Entries(files))|, |tail|, 0);
  }

  /** The whole way: the files are written, the image is put into flash before other contents,
      and what a request opens and reads back is the first non-empty file of its name, unless
      that one is stored compressed. */
  method StoreAndFetch(files: seq<File>, tail: seq<Byte>, request: seq<Byte>, mallocOk: bool, lens: seq<nat>)
    returns (found: bool, got: seq<seq<Byte>>)
    requires forall f :: f in files ==> Storable(f) && Comparable(f.name, StripSlashes(request))
    requires 0 !in request && HEADER_SIZE + |tail| >= NAME_BUFFER && |tail| % 4 == 0
    ensures var want := FirstContent(files, StripSlashes(request));
            && found == (want.Present? && mallocOk)
            && (found ==> Concat(got) == want.data[..Min(Sum(lens), |want.data|)])
  {
    var archive := WriteArchive(files);
    RoundTrip(files, tail, request);
    FlashIsWords(files, tail, StripSlashes(request));
    found, got := Fetch(archive.out + tail, request, mallocOk, lens, FirstContent(files, StripSlashes(request)));
  }
}
