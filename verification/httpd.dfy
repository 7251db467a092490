// The receive callback of the web server: bytes of the request head are collected across
// packets, and the finished head is cut into lines in place.
module Httpd {
  import opened Bytes
  import opened HttpHead

  const MAX_HEAD_LEN := 1024

  lemma EndsHeadPrefix(s: seq<Byte>, t: seq<Byte>, n: int)
    requires EndsHead(s + t, n)
    ensures n <= |s| ==> EndsHead(s, n)
  {
    if n <= |s| {
      assert s[..n] == (s + t)[..n] && s[n - 4..n] == (s + t)[n - 4..n];
    }
  }

  lemma NulStays(u: seq<Byte>, m: nat)
    requires m <= |u| && 0 in u[..m]
    ensures forall n :: m <= n <= |u| ==> 0 in u[..n]
  {
    forall n | m <= n <= |u| ensures 0 in u[..n] {
      assert u[..m] == u[..n][..m];
    }
  }

  /** A NUL received before the head is complete hides everything after it: no further input
      ever completes the head. */
  lemma NulBlocksHead(s: seq<Byte>, t: seq<Byte>)
    requires HeadLength(s) == -1 && 0 in s
    ensures HeadLength(s + t) == -1 && Delivered(s + t) == []
  {
    assert (s + t)[..|s|] == s;
    NulStays(s + t, |s|);
    var n := HeadLength(s + t);
    if n != -1 { EndsHeadPrefix(s, t, n); }
  }

  lemma FitsPrefix(s: seq<Byte>, t: seq<Byte>)
    requires Fits(s + t)
    ensures Fits(s)
  {
    if t == [] {
      assert s + t == s;
    } else if HeadLength(s) != -1 {
      LaterBytesIgnored(s, t);
    } else if HeadLength(s + t) != -1 {
      EndsHeadPrefix(s, t, HeadLength(s + t));
    }
  }

  /** The stream so far leaves room in the head buffer for its terminating NUL. */
  predicate Fits(s: seq<Byte>) {
    HeadEnd(s) < MAX_HEAD_LEN
  }

  /** Where the terminating NUL goes after n collected bytes: headPos stops at the end of the buffer. */
  function TerminatorAt(n: nat): nat {
    if n < MAX_HEAD_LEN then n else MAX_HEAD_LEN
  }

  /** Byte number n of the stream arrives while the head is incomplete. */
  predicate Collected(s: seq<Byte>, n: int) {
    1 <= n <= |s| && HeadLength(s[..n - 1]) == -1
  }

  function HeadEnd(s: seq<Byte>): nat {
    if HeadLength(s) == -1 then |s| else HeadLength(s)
  }

  lemma CollectedExactly(s: seq<Byte>, n: int)
    ensures Collected(s, n) <==> 1 <= n <= HeadEnd(s)
  {
    if 1 <= n <= |s| { HeadLengthOfPrefix(s, n - 1); }
  }

  /** A stream fits exactly when every byte that is collected leaves the terminating NUL inside
      the head buffer. */
  lemma FitsExactly(s: seq<Byte>)
    ensures Fits(s) <==> HeadEnd(s) < 1024
    ensures Fits(s) <==> forall n :: Collected(s, n) ==> TerminatorAt(n) < MAX_HEAD_LEN
  {
    forall n ensures Collected(s, n) <==> 1 <= n <= HeadEnd(s) {
      CollectedExactly(s, n);
    }
    assert HeadEnd(s) > 0 ==> Collected(s, HeadEnd(s));
  }

  lemma HeadLengthOfPrefix(s: seq<Byte>, m: nat)
    requires m <= |s|
    ensures HeadLength(s[..m]) == if HeadLength(s) == -1 || m < HeadLength(s) then -1 else HeadLength(s)
  {
    var t := s[..m];
    assert s == t + s[m..];
    if HeadLength(t) != -1 {
      LaterBytesIgnored(t, s[m..]);
    } else if HeadLength(s) != -1 && HeadLength(s) <= m {
      EndsHeadPrefix(t, s[m..], HeadLength(s));
    }
  }

  class Connection {
    const head: array<Byte>
    var headPos: nat
    var postLen: int
    /** The strings handed to the header-line parser, in order. */
    var parsed: seq<seq<Byte>>
    /** Every byte received on this connection. */
    ghost var seen: seq<Byte>

    ghost predicate Valid()
      reads this, head
    {
      && head.Length == MAX_HEAD_LEN && Fits(seen)
      && parsed == Delivered(seen)
      && (postLen < 0 <==> HeadLength(seen) == -1)
      && (postLen < 0 ==> headPos == |seen| && head[..headPos] == seen)
    }

    constructor ()
      ensures Valid() && fresh(head) && seen == []
    {
      head := new Byte[MAX_HEAD_LEN](_ => 0);
      headPos, postLen, parsed, seen := 0, -1, [], [];
    }

    /** Appends a byte to the head unless the buffer is full; the NUL goes to headPos next, which
        is outside the buffer once it is full. */
    method Collect(b: Byte)
      requires head.Length == MAX_HEAD_LEN && headPos <= MAX_HEAD_LEN
      modifies this`headPos, head
      ensures headPos == TerminatorAt(old(headPos) + 1)
      ensures head[..headPos] == if old(headPos) < MAX_HEAD_LEN then old(head[..headPos]) + [b] else old(head[..])
    {
      if headPos != MAX_HEAD_LEN {
        head[headPos] := b;
        headPos := headPos + 1;
      }
    }

    /** One byte of a packet. */
    method RecvByte(b: Byte)
      requires Valid() && Fits(seen + [b])
      modifies this, head
      ensures Valid() && seen == old(seen) + [b]
    {
      OneMoreByte(seen, b);
      ghost var text := seen + [b];
      seen := text;
      if postLen < 0 {
        Collect(b);
        head[headPos] := 0;
        assert head[..headPos] == text;
        SeesBlankLine(head[..], text);
        if b == LF && StrStr(head[..], 0, BLANK_LINE) != -1 {
          postLen := 0;
          assert text[..|text| - 4] == text[..HeadLength(text) - 4];
          CutLines(text);
        }
      }
    }

    /** The receive callback.  Bytes that no longer belong to the head are dropped: the body
        length stays 0. */
    method RecvCb(data: seq<Byte>)
      requires Valid() && Fits(seen + data)
      modifies this, head
      ensures Valid() && seen == old(seen) + data
      ensures parsed == Delivered(old(seen) + data)
    {
      for x := 0 to |data|
        invariant Valid() && seen == old(seen) + data[..x]
      {
        assert seen + [data[x]] == old(seen) + data[..x + 1];
        assert old(seen) + data == old(seen) + data[..x + 1] + data[x + 1..];
        FitsPrefix(old(seen) + data[..x + 1], data[x + 1..]);
        RecvByte(data[x]);
      }
    }

    /** The head text from offset p on is still in the buffer, closed by a NUL. */
    ghost predicate Intact(text: seq<Byte>, p: nat)
      reads this, head
    {
      && |text| < head.Length && head[|text|] == 0
      && forall i :: p <= i < |text| ==> head[i] == text[i]
    }

    /** Ends one line in place and hands it to the parser; returns where the next one starts. */
    method CutLine(p: nat, e: nat, ghost text: seq<Byte>) returns (next: nat)
      requires p <= e && e + 2 <= |text| && Intact(text, p)
      modifies this`parsed, head
      ensures next == e + 2 && Intact(text, next) && parsed == old(parsed) + [text[p..e]]
    {
      head[e] := 0;
      assert head[p..e] == text[p..e];
      parsed := parsed + [head[p..e]];
      next := e + 2;
    }

    /** The while loop over the lines of a finished head. */
    method CutLines(ghost text: seq<Byte>)
      requires HeadLength(text) == |text| == headPos && Intact(text, 0) && parsed == []
      modifies this`parsed, head
      ensures parsed == Lines(text[..|text| - 4])
    {
      ghost var n, body := |text|, text[..|text| - 4];
      BlankLineAt(text, n);
      assert body[0..] == body;
      var p := 0;
      while p < headPos - 4
        invariant 0 <= p && (p <= n - 4 || p == n - 2) && Intact(text, p)
        invariant parsed + Rest(body, p) == Lines(body)
      {
        LineEnd(head[..], text, n, p);
        var e := StrStr(head[..], p, CRLF);
        if e == -1 { break; }
        NextLine(text, n, p, e);
        MoveLine(parsed, text[p..e], Rest(body, e + 2));
        p := CutLine(p, e, text);
      }
    }
  }

  // ----- recognising the end of the head

  /** A newly received line feed completes the head exactly when strstr sees a blank line. */
  lemma SeesBlankLine(buffer: seq<Byte>, s: seq<Byte>)
    requires s != [] && HeadLength(s[..|s| - 1]) == -1
    requires |s| < |buffer| && buffer[..|s|] == s && buffer[|s|] == 0
    ensures s[|s| - 1] == LF && StrStr(buffer, 0, BLANK_LINE) != -1 <==> HeadLength(s) == |s|
    ensures HeadLength(s) == -1 || HeadLength(s) == |s|
  {
    EndsNow(s);
    if StrStr(buffer, 0, BLANK_LINE) != -1 { BlankLineSeen(buffer, s); }
    if HeadLength(s) == |s| { BlankLineIsSeen(buffer, s); }
  }

  lemma EndsNow(s: seq<Byte>)
    requires s != [] && HeadLength(s[..|s| - 1]) == -1
    ensures HeadLength(s) == -1 || HeadLength(s) == |s|
  {
  }

  lemma BlankLineSeen(buffer: seq<Byte>, s: seq<Byte>)
    requires |s| < |buffer| && buffer[..|s|] == s && buffer[|s|] == 0
    requires StrStr(buffer, 0, BLANK_LINE) != -1
    ensures HeadLength(s) != -1
  {
    StrStrFinds(buffer, 0, BLANK_LINE);
    FoundEndsHead(buffer, s, StrStr(buffer, 0, BLANK_LINE));
  }

  lemma BlankLineIsSeen(buffer: seq<Byte>, s: seq<Byte>)
    requires |s| < |buffer| && buffer[..|s|] == s && HeadLength(s) == |s|
    ensures |s| > 0 && s[|s| - 1] == LF && StrStr(buffer, 0, BLANK_LINE) != -1
  {
    var n := |s|;
    assert s[n - 1] == s[n - 4..n][3] == LF;
    assert buffer[n - 4..n] == s[n - 4..n] && buffer[0..n] == s[..n];
    StrStrIsFirst(buffer, 0, BLANK_LINE, n - 4);
  }

  lemma FoundEndsHead(buffer: seq<Byte>, s: seq<Byte>, k: nat)
    requires |s| < |buffer| && buffer[..|s|] == s && buffer[|s|] == 0
    requires k + 4 <= |buffer| && buffer[k..k + 4] == BLANK_LINE && 0 !in buffer[0..k + 4]
    ensures EndsHead(s, k + 4)
  {
    forall i | 0 <= i < k + 4 ensures buffer[i] != 0 {
      assert buffer[i] == buffer[0..k + 4][i];
    }
    assert s[..k + 4] == buffer[0..k + 4] && s[k..k + 4] == buffer[k..k + 4];
  }

  lemma OneMoreByte(s: seq<Byte>, b: Byte)
    ensures HeadLength(s) != -1 ==> HeadLength(s + [b]) == HeadLength(s) && Delivered(s + [b]) == Delivered(s)
    ensures (s + [b])[..|s|] == s
  {
    if HeadLength(s) != -1 { LaterBytesIgnored(s, [b]); }
  }

  lemma MoveLine(done: seq<seq<Byte>>, line: seq<Byte>, rest: seq<seq<Byte>>)
    ensures done + ([line] + rest) == done + [line] + rest
  {
  }

  /** The lines still to come from offset p of a head's body. */
  function Rest(body: seq<Byte>, p: nat): seq<seq<Byte>> {
    if p < |body| then Lines(body[p..]) else []
  }

  lemma BlankLineAt(text: seq<Byte>, n: nat)
    requires HeadLength(text) == n
    ensures 4 <= n <= |text| && CrlfAt(text, n - 4) && CrlfAt(text, n - 2) && 0 !in text[..n]
  {
    var b := text[n - 4..n];
    assert b[0] == text[n - 4] && b[1] == text[n - 3] && b[2] == text[n - 2] && b[3] == text[n - 1];
  }

  /** strstr on the rest of the buffer finds the next line end of the head. */
  lemma LineEnd(buffer: seq<Byte>, text: seq<Byte>, n: nat, p: nat)
    requires n < |buffer| && HeadLength(text) == n == |text| && p < n - 4
    requires forall i :: p <= i < n ==> buffer[i] == text[i]
    ensures StrStr(buffer, p, CRLF) == FindCrlf(text, p) && p <= FindCrlf(text, p) <= n - 4
  {
    BlankLineAt(text, n);
    var k, s := FindCrlf(text, p), StrStr(buffer, p, CRLF);
    NoNulBefore(buffer, text, n, p, k + 2);
    assert buffer[k..k + 2] == CRLF;
    StrStrIsFirst(buffer, p, CRLF, k);
    StrStrFinds(buffer, p, CRLF);
    assert buffer[s] == buffer[s..s + 2][0] && buffer[s + 1] == buffer[s..s + 2][1];
    assert CrlfAt(text, s);
  }

  lemma NoNulBefore(buffer: seq<Byte>, text: seq<Byte>, n: nat, p: nat, q: nat)
    requires p <= q <= n <= |text| && n <= |buffer| && 0 !in text[..n]
    requires forall i :: p <= i < n ==> buffer[i] == text[i]
    ensures 0 !in buffer[p..q]
  {
    forall j | 0 <= j < q - p ensures buffer[p..q][j] != 0 {
      assert buffer[p..q][j] == buffer[p + j] == text[p + j] == text[..n][p + j];
    }
  }

  /** The first line end of a suffix of a prefix. */
  lemma FindInBody(text: seq<Byte>, m: nat, p: nat, e: nat)
    requires p < m <= |text| && e == FindCrlf(text, p) && (e == m || e + 2 <= m)
    ensures FindCrlf(text[p..m], 0) == if e == m then -1 else e - p
  {
    var rest := text[p..m];
    var k := FindCrlf(rest, 0);
    assert k != -1 ==> CrlfAt(text, p + k);
    assert e + 2 <= m ==> CrlfAt(rest, e - p);
  }

  /** Cutting at the next line end takes one line off the rest of the body. */
  lemma NextLine(text: seq<Byte>, n: nat, p: nat, e: nat)
    requires HeadLength(text) == n == |text| && p < n - 4 && e == FindCrlf(text, p) <= n - 4
    ensures var body := text[..n - 4];
            && (e == n - 4 || e + 2 <= n - 4)
            && Rest(body, p) == [text[p..e]] + Rest(body, e + 2)
  {
    BlankLineAt(text, n);
    var m := n - 4;
    FindInBody(text, m, p, e);
    TakeLine(text, m, p, e);
  }

  lemma TakeLine(text: seq<Byte>, m: nat, p: nat, e: nat)
    requires p < m <= |text| && p <= e && (e == m || e + 2 <= m)
    requires FindCrlf(text[p..m], 0) == if e == m then -1 else e - p
    ensures Rest(text[..m], p) == [text[p..e]] + Rest(text[..m], e + 2)
  {
    var rest := text[p..m];
    assert text[..m][p..] == rest;
    if e == m {
      assert Lines(rest) == [rest] && Rest(text[..m], e + 2) == [];
    } else {
      assert Lines(rest) == [rest[..e - p]] + Lines(rest[e - p + 2..]);
      assert rest[..e - p] == text[p..e] && rest[e - p + 2..] == text[..m][e + 2..];
    }
  }
}
