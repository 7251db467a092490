// The request head as a byte stream: where it ends, and the lines it consists of.
module HttpHead {
  import opened Bytes

  const CR: Byte := 13
  const LF: Byte := 10
  const CRLF: seq<Byte> := [CR, LF]
  const BLANK_LINE: seq<Byte> := [CR, LF, CR, LF]

  // ----- strstr on a NUL-terminated string inside a buffer

  /** Index of the first occurrence of `pat` at or after i that ends before the first NUL, or -1. */
  function StrStr(h: seq<Byte>, i: nat, pat: seq<Byte>): int
    requires i <= |h|
    decreases |h| - i
  {
    if i + |pat| > |h| then -1
    else if h[i..i + |pat|] == pat then i
    else if i == |h| || h[i] == 0 then -1
    else StrStr(h, i + 1, pat)
  }

  lemma {:induction false} StrStrFinds(h: seq<Byte>, i: nat, pat: seq<Byte>)
    requires i <= |h| && 0 !in pat
    ensures var k := StrStr(h, i, pat);
            k != -1 ==> i <= k && k + |pat| <= |h| && h[k..k + |pat|] == pat && 0 !in h[i..k + |pat|]
    decreases |h| - i
  {
    if i + |pat| <= |h| && h[i..i + |pat|] != pat && i < |h| && h[i] != 0 {
      StrStrFinds(h, i + 1, pat);
      var k := StrStr(h, i + 1, pat);
      if k != -1 { assert h[i..k + |pat|] == [h[i]] + h[i + 1..k + |pat|]; }
    }
  }

  lemma {:induction false} StrStrIsFirst(h: seq<Byte>, i: nat, pat: seq<Byte>, k: nat)
    requires i <= k && k + |pat| <= |h| && h[k..k + |pat|] == pat && 0 !in h[i..k + |pat|] && pat != []
    ensures i <= StrStr(h, i, pat) <= k
    decreases k - i
  {
    if h[i..i + |pat|] != pat {
      assert h[i] == h[i..k + |pat|][0];
      assert h[i + 1..k + |pat|] == h[i..k + |pat|][1..];
      StrStrIsFirst(h, i + 1, pat, k);
    }
  }

  // ----- the end of the head

  /** The first n bytes end with a blank line and hold no NUL. */
  predicate EndsHead(s: seq<Byte>, n: int) {
    4 <= n <= |s| && s[n - 4..n] == BLANK_LINE && 0 !in s[..n]
  }

  /** Length of the head at the front of the stream, or -1 while it is incomplete. */
  function HeadLength(s: seq<Byte>): (n: int)
    ensures n == -1 || EndsHead(s, n)
    ensures forall m :: EndsHead(s, m) ==> 0 <= n <= m
  {
    if s == [] then -1
    else
      var init := s[..|s| - 1];
      var n := HeadLength(init);
      assert forall m :: m < |s| && EndsHead(s, m) ==> EndsHead(init, m) by {
        forall m | m < |s| && EndsHead(s, m) ensures EndsHead(init, m) {
          assert init[..m] == s[..m] && init[m - 4..m] == s[m - 4..m];
        }
      }
      if n >= 0 then
        assert s[..n] == init[..n] && s[n - 4..n] == init[n - 4..n];
        n
      else if EndsHead(s, |s|) then |s|
      else -1
  }

  // ----- the lines of the head

  predicate CrlfAt(b: seq<Byte>, i: int) {
    0 <= i && i + 2 <= |b| && b[i] == CR && b[i + 1] == LF
  }

  /** The first line end at or after i, or -1. */
  function FindCrlf(b: seq<Byte>, i: nat): (k: int)
    requires i <= |b|
    ensures k == -1 || (i <= k && CrlfAt(b, k))
    ensures forall j :: i <= j && CrlfAt(b, j) ==> 0 <= k <= j
    decreases |b| - i
  {
    if i + 2 > |b| then -1 else if CrlfAt(b, i) then i else FindCrlf(b, i + 1)
  }

  /** The pieces of a head between its line ends. */
  function Lines(b: seq<Byte>): seq<seq<Byte>>
    decreases |b|
  {
    if b == [] then []
    else
      var k := FindCrlf(b, 0);
      if k == -1 then [b] else [b[..k]] + Lines(b[k + 2..])
  }

  function Join(lines: seq<seq<Byte>>): seq<Byte> {
    if lines == [] then []
    else if |lines| == 1 then lines[0]
    else lines[0] + CRLF + Join(lines[1..])
  }

  /** The lines a stream of received bytes has to deliver. */
  function Delivered(s: seq<Byte>): seq<seq<Byte>> {
    var n := HeadLength(s);
    if n == -1 then [] else Lines(s[..n - 4])
  }

  // ----- properties

  /** The bytes that end a head and a line. */
  lemma LineBytes(s: seq<Byte>, n: int)
    ensures EndsHead(s, n) <==> 4 <= n <= |s| && s[n - 4..n] == [13, 10, 13, 10] && 0 !in s[..n]
    ensures CrlfAt(s, n) <==> 0 <= n && n + 2 <= |s| && s[n..n + 2] == [13, 10]
    ensures forall a, b :: Join([a, b]) == a + [13, 10] + b
  {
    forall a, b ensures Join([a, b]) == a + [13, 10] + b {
      assert [a, b][1..] == [b];
    }
    if 0 <= n && n + 2 <= |s| {
      assert s[n..n + 2] == [s[n], s[n + 1]];
    }
  }

  predicate CrlfFree(line: seq<Byte>) {
    FindCrlf(line, 0) == -1
  }

  predicate EndsWithCrlf(b: seq<Byte>) {
    CrlfAt(b, |b| - 2)
  }

  /** The lines hold no line end and, joined by line ends, give the text back. */
  lemma {:induction false} LinesPartition(b: seq<Byte>)
    requires !EndsWithCrlf(b)
    ensures Join(Lines(b)) == b
    ensures forall i :: 0 <= i < |Lines(b)| ==> CrlfFree(Lines(b)[i])
    ensures b == [] <==> Lines(b) == []
    decreases |b|
  {
    if b != [] {
      var k := FindCrlf(b, 0);
      if k != -1 {
        var line, rest := b[..k], b[k + 2..];
        PrefixIsCrlfFree(b, k);
        assert rest != [];
        assert EndsWithCrlf(rest) ==> EndsWithCrlf(b);
        LinesPartition(rest);
        assert Lines(b) == [line] + Lines(rest);
        JoinCons(line, Lines(rest));
        CutAt(b, k);
      }
    }
  }

  lemma CutAt(b: seq<Byte>, k: int)
    requires CrlfAt(b, k)
    ensures b == b[..k] + CRLF + b[k + 2..]
  {
  }

  lemma PrefixIsCrlfFree(b: seq<Byte>, k: nat)
    requires k == FindCrlf(b, 0)
    ensures CrlfFree(b[..k])
  {
    var j := FindCrlf(b[..k], 0);
    assert j != -1 ==> CrlfAt(b, j);
  }

  lemma JoinCons(line: seq<Byte>, rest: seq<seq<Byte>>)
    requires rest != []
    ensures Join([line] + rest) == line + CRLF + Join(rest)
  {
    assert ([line] + rest)[1..] == rest;
  }

  /** The text before the first blank line does not itself end with a line end. */
  lemma HeadBody(s: seq<Byte>)
    requires HeadLength(s) != -1
    ensures !EndsWithCrlf(s[..HeadLength(s) - 4])
  {
    var n := HeadLength(s);
    var b := s[..n - 4];
    if EndsWithCrlf(b) {
      assert s[n - 4] == s[n - 4..n][0] && s[n - 3] == s[n - 4..n][1];
      assert s[n - 6..n - 2] == BLANK_LINE;
      assert s[..n - 2] == s[..n][..n - 2];
      assert EndsHead(s, n - 2);
    }
  }

  lemma HeadIsItsLines(s: seq<Byte>)
    requires HeadLength(s) != -1
    ensures Join(Delivered(s)) + BLANK_LINE == s[..HeadLength(s)]
    ensures forall i :: 0 <= i < |Delivered(s)| ==> CrlfFree(Delivered(s)[i])
  {
    var n := HeadLength(s);
    HeadBody(s);
    LinesPartition(s[..n - 4]);
    SplitAt(s, n - 4, n);
  }

  /** A complete head is exactly its delivered lines, joined by line ends, and a blank line. */
  lemma DeliveredIsTheHead(s: seq<Byte>)
    requires HeadLength(s) != -1
    ensures Join(Delivered(s)) + [13, 10, 13, 10] == s[..HeadLength(s)]
    ensures forall i :: 0 <= i < |Delivered(s)| ==> CrlfFree(Delivered(s)[i])
  {
    HeadIsItsLines(s);
    assert BLANK_LINE == [13, 10, 13, 10];
  }

  lemma SplitAt(s: seq<Byte>, m: nat, n: nat)
    requires m <= n <= |s|
    ensures s[..n] == s[..m] + s[m..n]
  {
  }

  /** Nothing is delivered before the head is complete, or for an empty one. */
  lemma NothingDelivered(s: seq<Byte>)
    ensures HeadLength(s) == -1 || HeadLength(s) == 4 ==> Delivered(s) == []
  {
  }

  /** Bytes after the head change nothing. */
  lemma {:induction false} LaterBytesIgnored(s: seq<Byte>, t: seq<Byte>)
    requires HeadLength(s) != -1
    ensures HeadLength(s + t) == HeadLength(s) && Delivered(s + t) == Delivered(s)
    decreases |t|
  {
    if t == [] {
      assert s + t == s;
    } else {
      var init := t[..|t| - 1];
      LaterBytesIgnored(s, init);
      assert (s + t)[..|s + t| - 1] == s + init;
      assert (s + t)[..HeadLength(s) - 4] == s[..HeadLength(s) - 4];
    }
  }
}
