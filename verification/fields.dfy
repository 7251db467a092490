// getValue: the index-th field of a separated string, found by one scan.
module Fields {
  import opened Bytes
  import opened CInt

  // ----- splitting, independently of the scan

  function IndexOf(s: seq<Byte>, sep: Byte): (k: int)
    ensures k == -1 <==> sep !in s
    ensures k != -1 ==> 0 <= k < |s| && s[k] == sep && sep !in s[..k]
  {
    if s == [] then -1
    else if s[0] == sep then 0
    else
      var k := IndexOf(s[1..], sep);
      assert s == [s[0]] + s[1..];
      if k == -1 then -1
      else
        assert s[..k + 1] == [s[0]] + s[1..][..k];
        k + 1
  }

  /** The fields of s: an empty string has one empty field. */
  function Split(s: seq<Byte>, sep: Byte): (fs: seq<seq<Byte>>)
    ensures |fs| >= 1
    decreases |s|
  {
    var k := IndexOf(s, sep);
    if k == -1 then [s] else [s[..k]] + Split(s[k + 1..], sep)
  }

  function Join(fs: seq<seq<Byte>>, sep: Byte): seq<Byte>
    requires fs != []
  {
    if |fs| == 1 then fs[0] else fs[0] + [sep] + Join(fs[1..], sep)
  }

  lemma JoinCons(f: seq<Byte>, fs: seq<seq<Byte>>, sep: Byte)
    requires fs != []
    ensures Join([f] + fs, sep) == f + [sep] + Join(fs, sep)
  {
    assert ([f] + fs)[1..] == fs;
  }

  lemma CutAt(s: seq<Byte>, k: nat)
    requires k < |s|
    ensures s == s[..k] + [s[k]] + s[k + 1..]
  {
  }

  lemma {:induction false} JoinSplit(s: seq<Byte>, sep: Byte)
    ensures Join(Split(s, sep), sep) == s
    ensures forall i :: 0 <= i < |Split(s, sep)| ==> sep !in Split(s, sep)[i]
    decreases |s|
  {
    var k := IndexOf(s, sep);
    if k != -1 {
      JoinSplit(s[k + 1..], sep);
      JoinCons(s[..k], Split(s[k + 1..], sep), sep);
      CutAt(s, k);
    }
  }

  /** Separator-free fields joined by the separator are all recovered. */
  lemma {:induction false} SplitJoin(fs: seq<seq<Byte>>, sep: Byte)
    requires fs != [] && forall i :: 0 <= i < |fs| ==> sep !in fs[i]
    ensures Split(Join(fs, sep), sep) == fs
    decreases |fs|
  {
    if |fs| == 1 {
      assert fs == [fs[0]];
    } else {
      var f, rest := fs[0], fs[1..];
      SplitJoin(rest, sep);
      assert fs == [f] + rest;
      JoinCons(f, rest, sep);
      SplitCons(f, sep, Join(rest, sep));
    }
  }

  lemma SplitCons(f: seq<Byte>, sep: Byte, b: seq<Byte>)
    requires sep !in f
    ensures Split(f + [sep] + b, sep) == [f] + Split(b, sep)
  {
    var s := f + [sep] + b;
    IndexIs(s, sep, |f|);
    assert s[..|f|] == f && s[|f| + 1..] == b;
  }

  lemma IndexIs(s: seq<Byte>, sep: Byte, k: nat)
    requires k < |s| && s[k] == sep && sep !in s[..k]
    ensures IndexOf(s, sep) == k
  {
    var j := IndexOf(s, sep);
    assert forall i :: 0 <= i < k ==> s[i] == s[..k][i];
    assert forall i :: 0 <= i < j ==> s[i] == s[..j][i];
  }

  // ----- what getValue returns

  /** The field the scan stops at: the index-th one, or the last when there are fewer. */
  function Reached(data: seq<Byte>, sep: Byte, index: nat): seq<Byte> {
    var fs := Split(data, sep);
    fs[if index < |fs| then index else |fs| - 1]
  }

  /** The C string at the start of a buffer. */
  function CString(buf: seq<Byte>): (s: seq<Byte>)
    ensures |s| <= |buf| && buf[..|s|] == s && 0 !in s && (|s| < |buf| ==> buf[|s|] == 0)
  {
    if buf == [] || buf[0] == 0 then [] else [buf[0]] + CString(buf[1..])
  }

  lemma {:induction false} CStringIs(buf: seq<Byte>, s: seq<Byte>)
    requires |s| < |buf| && buf[..|s|] == s && buf[|s|] == 0 && 0 !in s
    ensures CString(buf) == s
  {
    if s != [] {
      assert buf[0] == s[0] && s[0] in s;
      assert buf[1..][..|s| - 1] == s[1..];
      CStringIs(buf[1..], s[1..]);
    }
  }

  // ----- the scan

  predicate Clear(data: seq<Byte>, sep: Byte, from: int, to: int) {
    forall j :: from <= j < to && 0 <= j < |data| ==> data[j] != sep
  }

  /** The scan closes a field at offset i: one more field is done. */
  lemma FieldCloses(data: seq<Byte>, sep: Byte, from: nat, i: nat)
    requires from <= i <= |data| && Clear(data, sep, from, i)
    ensures i < |data| && data[i] == sep ==> Split(data[from..], sep) == [data[from..i]] + Split(data[i + 1..], sep)
    ensures i == |data| ==> Split(data[from..], sep) == [data[from..i]]
  {
    var rest := data[from..];
    assert rest[..i - from] == data[from..i];
    assert sep !in rest[..i - from];
    if i == |data| { assert rest == data[from..i]; }
    if i < |data| && data[i] == sep {
      IndexIs(rest, sep, i - from);
      assert rest[i - from + 1..] == data[i + 1..];
    }
  }

  /** Progress of the scan before offset i: `done` are the closed fields, the last of them
      data[first..last], and `rest` those still to come, which start after `last`. */
  ghost predicate Scanned(data: seq<Byte>, sep: Byte, i: int, first: int, last: int,
                          done: seq<seq<Byte>>, rest: seq<seq<Byte>>) {
    && 0 <= i && Split(data, sep) == done + rest
    && (done != [] ==> 0 <= first <= last <= |data| && done[|done| - 1] == data[first..last])
    && (i > |data| ==> rest == [])
    && (i <= |data| ==> 0 <= last + 1 <= i && Clear(data, sep, last + 1, i) && rest == Split(data[last + 1..], sep))
  }

  lemma FieldGrows(data: seq<Byte>, sep: Byte, i: int, first: int, last: int,
                   done: seq<seq<Byte>>, rest: seq<seq<Byte>>)
    requires i < |data| && Scanned(data, sep, i, first, last, done, rest) && data[i] != sep
    ensures Scanned(data, sep, i + 1, first, last, done, rest)
  {
  }

  lemma FieldDone(data: seq<Byte>, sep: Byte, i: int, first: int, last: int,
                  done: seq<seq<Byte>>, rest: seq<seq<Byte>>) returns (done': seq<seq<Byte>>, rest': seq<seq<Byte>>)
    requires i <= |data| && Scanned(data, sep, i, first, last, done, rest) && (i == |data| || data[i] == sep)
    ensures Scanned(data, sep, i + 1, last + 1, i, done', rest') && |done'| == |done| + 1
  {
    var f := data[last + 1..i];
    rest' := if i < |data| then Split(data[i + 1..], sep) else [];
    done' := done + [f];
    FieldCloses(data, sep, last + 1, i);
    assert rest == [f] + rest';
    MoveField(done, f, rest');
  }

  lemma MoveField(done: seq<seq<Byte>>, f: seq<Byte>, rest: seq<seq<Byte>>)
    ensures done + ([f] + rest) == done + [f] + rest
  {
  }

  lemma ScanStarts(data: seq<Byte>, sep: Byte)
    ensures Scanned(data, sep, 0, 0, -1, [], Split(data, sep))
  {
    assert data[0..] == data && [] + Split(data, sep) == Split(data, sep);
  }

  /** As many fields are closed as are looked for or exist, and data[first..last] is the last. */
  predicate StopsAt(data: seq<Byte>, sep: Byte, index: nat, found: int, first: int, last: int) {
    && found == Min(index + 1, |Split(data, sep)|)
    && 0 <= first <= last <= |data| && data[first..last] == Reached(data, sep, index)
  }

  lemma ScanEnds(data: seq<Byte>, sep: Byte, index: nat, i: int, first: int, last: int,
                 done: seq<seq<Byte>>, rest: seq<seq<Byte>>)
    requires Scanned(data, sep, i, first, last, done, rest) && |done| <= index + 1
    requires i > |data| || |done| == index + 1
    ensures StopsAt(data, sep, index, |done|, first, last)
  {
    assert Split(data, sep)[|done| - 1] == done[|done| - 1];
  }

  /** The scanning loop: how many fields it closed, and the extent of the last one. */
  method Scan(data: seq<Byte>, separator: Byte, index: nat) returns (found: int, first: int, last: int)
    ensures StopsAt(data, separator, index, found, first, last)
  {
    found, first, last := 0, 0, -1;
    ghost var done: seq<seq<Byte>>, rest := [], Split(data, separator);
    var x, maxIndex := 0, |data|;
    ScanStarts(data, separator);
    while x <= maxIndex && found <= index
      invariant 0 <= x <= maxIndex + 1 && |done| == found <= index + 1
      invariant Scanned(data, separator, x, first, last, done, rest)
    {
      if x == maxIndex || data[x] == separator {
        done, rest := FieldDone(data, separator, x, first, last, done, rest);
        found := found + 1;
        first := last + 1;
        last := x;
      } else {
        FieldGrows(data, separator, x, first, last, done, rest);
      }
      x := x + 1;
    }
    ScanEnds(data, separator, index, x, first, last, done, rest);
  }

  /** strncpy and the terminating NUL. */
  method CopyField(retParam: array<Byte>, data: seq<Byte>, first: nat, size: nat)
    requires first + size <= |data| && size < retParam.Length && 0 !in data[first..first + size]
    modifies retParam
    ensures CString(retParam[..]) == data[first..first + size]
  {
    forall k | 0 <= k < size { retParam[k] := data[first + k]; }
    retParam[size] := 0;
    assert retParam[..size] == data[first..first + size];
    CStringIs(retParam[..], data[first..first + size]);
  }

  lemma ReachedIsField(data: seq<Byte>, sep: Byte, index: nat)
    ensures var fs := Split(data, sep);
            index < |fs| ==> Reached(data, sep, index) == fs[index]
  {
  }

  /** `data` is the content of a C string; the buffer must hold the field the scan stops at. */
  method GetValue(retParam: array<Byte>, data: seq<Byte>, separator: Byte, index: nat) returns (ret: int)
    requires 0 !in data && |Reached(data, separator, index)| < retParam.Length
    modifies retParam
    ensures var fs := Split(data, separator);
            if index < |fs| && fs[index] != []
            then ret == |fs[index]| && CString(retParam[..]) == fs[index]
            else ret == -1 && CString(retParam[..]) == []
  {
    ReachedIsField(data, separator, index);
    var found, first, last := Scan(data, separator, index);
    var size := last - first;
    CopyField(retParam, data, first, size);
    found := found - 1;
    if found < index || size == 0 {
      retParam[0] := 0;
      return -1;
    }
    return size;
  }
}
