/** Reading an artifact page by page on UTF-8 boundaries (`Registry.ReadPage` in
    internal/artifact/registry.go), over bytes; the syntax is that of section 4 of RFC 3629. */
module Paging {

  newtype Byte = b: int | 0 <= b < 0x100

  // ------------------------------------------------------------------ UTF-8

  predicate Tail(b: Byte) {
    0x80 <= b <= 0xBF
  }

  predicate Starts3(a: Byte, b: Byte) {
    || (a == 0xE0 && 0xA0 <= b <= 0xBF)
    || (0xE1 <= a <= 0xEC && Tail(b))
    || (a == 0xED && 0x80 <= b <= 0x9F)
    || (0xEE <= a <= 0xEF && Tail(b))
  }

  predicate Starts4(a: Byte, b: Byte) {
    || (a == 0xF0 && 0x90 <= b <= 0xBF)
    || (0xF1 <= a <= 0xF3 && Tail(b))
    || (a == 0xF4 && 0x80 <= b <= 0x8F)
  }

  /** The length of the well-formed character at `i` that ends by `n`, or 0. */
  function CharLen(s: seq<Byte>, i: nat, n: nat): nat
    requires i <= n <= |s|
  {
    if i + 1 <= n && s[i] <= 0x7F then 1
    else if i + 2 <= n && 0xC2 <= s[i] <= 0xDF && Tail(s[i + 1]) then 2
    else if i + 3 <= n && Starts3(s[i], s[i + 1]) && Tail(s[i + 2]) then 3
    else if i + 4 <= n && Starts4(s[i], s[i + 1]) && Tail(s[i + 2]) && Tail(s[i + 3]) then 4
    else 0
  }

  /** `utf8.Valid` of the bytes from `i` up to `n`. */
  predicate Utf8(s: seq<Byte>, i: nat, n: nat)
    requires i <= n <= |s|
    decreases n - i
  {
    i == n || (var k := CharLen(s, i, n); k > 0 && Utf8(s, i + k, n))
  }

  predicate Valid(content: seq<Byte>) {
    Utf8(content, 0, |content|)
  }

  /** `utf8.RuneStart`. */
  predicate RuneStart(b: Byte) {
    !Tail(b)
  }

  // ------------------------------------------------------------------ pages

  datatype Page = Page(content: seq<Byte>, offset: nat, next: nat, total: nat, truncated: bool)
  datatype Failure = NegativeOffset | BadBound | OffsetBeyondEnd | NotABoundary | BoundTooSmall
  datatype PageResult = Read(page: Page) | Refused(why: Failure)

  /** The greatest end at most `n` of a valid run from `i`. */
  function LongestValid(s: seq<Byte>, i: nat, n: nat): (e: nat)
    requires i <= n <= |s|
    ensures i <= e <= n && Utf8(s, i, e)
  {
    if i == n || Utf8(s, i, n) then n else LongestValid(s, i, n - 1)
  }

  function PageOf(file: seq<Byte>, offset: int, maxBytes: int): PageResult {
    if offset < 0 then Refused(NegativeOffset)
    else if maxBytes <= 0 then Refused(BadBound)
    else if offset > |file| then Refused(OffsetBeyondEnd)
    else if offset < |file| && !RuneStart(file[offset]) then Refused(NotABoundary)
    else
      var next := LongestValid(file, offset, if offset + maxBytes < |file| then offset + maxBytes else |file|);
      if next == offset < |file| then Refused(BoundTooSmall)
      else Read(Page(file[offset..next], offset, next, |file|, next < |file|))
  }

  lemma {:induction false} Utf8Slice(s: seq<Byte>, i: nat, j: nat, n: nat)
    requires i <= j <= n <= |s|
    ensures Utf8(s[i..n], j - i, n - i) <==> Utf8(s, j, n)
    decreases n - j
  {
    if j < n {
      var t := s[i..n];
      assert forall k :: j <= k < n ==> t[k - i] == s[k];
      assert CharLen(t, j - i, n - i) == CharLen(s, j, n);
      var k := CharLen(s, j, n);
      if k > 0 {
        Utf8Slice(s, i, j + k, n);
      }
    }
  }

  /** The trim loop over the bytes read. */
  method TrimToValid(file: seq<Byte>, offset: nat, limit: nat) returns (content: seq<Byte>)
    requires offset <= limit <= |file|
    ensures content == file[offset..LongestValid(file, offset, limit)]
  {
    content := file[offset..limit];
    Utf8Slice(file, offset, offset, limit);
    ghost var end := limit;
    while |content| > 0 && !Valid(content)
      invariant offset <= end <= limit && content == file[offset..end]
      invariant Valid(content) <==> Utf8(file, offset, end)
      invariant LongestValid(file, offset, limit) == LongestValid(file, offset, end)
    {
      content := content[..|content| - 1];
      end := end - 1;
      Utf8Slice(file, offset, offset, end);
    }
  }

  /** The page is the longest valid run that fits, found by dropping bytes from the end. */
  method ReadPage(file: seq<Byte>, offsetBytes: int, maxBytes: int) returns (result: PageResult)
    ensures result == PageOf(file, offsetBytes, maxBytes)
  {
    if offsetBytes < 0 {
      return Refused(NegativeOffset);
    }
    if maxBytes <= 0 {
      return Refused(BadBound);
    }
    var totalBytes := |file|;
    if offsetBytes > totalBytes {
      return Refused(OffsetBeyondEnd);
    }
    if offsetBytes < totalBytes {
      if !RuneStart(file[offsetBytes]) {
        return Refused(NotABoundary);
      }
    }
    var limit := if offsetBytes + maxBytes < totalBytes then offsetBytes + maxBytes else totalBytes;
    var content := TrimToValid(file, offsetBytes, limit);
    if |content| == 0 && offsetBytes < totalBytes {
      return Refused(BoundTooSmall);
    }
    var nextOffset := offsetBytes + |content|;
    return Read(Page(content, offsetBytes, nextOffset, totalBytes, nextOffset < totalBytes));
  }

  // ------------------------------------------------------------- boundaries

  lemma CharLenKeeps(s: seq<Byte>, i: nat, e: nat, n: nat)
    requires i <= e <= n <= |s|
    ensures CharLen(s, i, e) > 0 ==> CharLen(s, i, n) == CharLen(s, i, e)
    ensures 0 < CharLen(s, i, n) <= e - i ==> CharLen(s, i, e) == CharLen(s, i, n)
  {
  }

  /** Between two ends of valid runs from one place the bytes are valid. */
  lemma {:induction false} Utf8Rest(s: seq<Byte>, i: nat, e: nat, n: nat)
    requires i <= e <= n <= |s| && Utf8(s, i, e)
    ensures Utf8(s, i, n) <==> Utf8(s, e, n)
    decreases e - i
  {
    if i < e {
      CharLenKeeps(s, i, e, n);
      Utf8Rest(s, i + CharLen(s, i, e), e, n);
    }
  }

  /** A file position where characters begin or the file ends. */
  predicate Boundary(file: seq<Byte>, o: nat) {
    o <= |file| && Utf8(file, 0, o)
  }

  /** In a valid file the boundaries are exactly the ends and the bytes that can start a rune. */
  lemma {:induction false} BoundaryIsRuneStart(file: seq<Byte>, i: nat, o: nat)
    requires i <= o < |file| && Utf8(file, i, |file|)
    ensures Utf8(file, i, o) <==> RuneStart(file[o])
    decreases o - i
  {
    var k := CharLen(file, i, |file|);
    if i == o {
    } else if i + k <= o {
      CharLenKeeps(file, i, o, |file|);
      BoundaryIsRuneStart(file, i + k, o);
    } else {
      CharLenKeeps(file, i, o, |file|);
      assert Tail(file[o]);
    }
  }

  /** A boundary lies at most three bytes before any limit. */
  lemma {:induction false} NearBoundary(s: seq<Byte>, i: nat, limit: nat) returns (e: nat)
    requires i <= limit <= |s| && Utf8(s, i, |s|)
    ensures i <= e <= limit <= e + 3 && Utf8(s, i, e)
    ensures i + CharLen(s, i, |s|) <= limit ==> i + CharLen(s, i, |s|) <= e
    decreases limit - i
  {
    var k := CharLen(s, i, |s|);
    if i == limit || i + k > limit {
      e := i;
    } else {
      e := NearBoundary(s, i + k, limit);
      CharLenKeeps(s, i, e, |s|);
    }
  }

  lemma {:induction false} LongestIsGreatest(s: seq<Byte>, i: nat, e: nat, n: nat)
    requires i <= e <= n <= |s| && Utf8(s, i, e)
    ensures LongestValid(s, i, n) >= e
    decreases n
  {
    if e < n && !Utf8(s, i, n) {
      LongestIsGreatest(s, i, e, n - 1);
    }
  }

  // ------------------------------------------------------------ main results

  /** Reading at any offset of a valid file succeeds exactly at a boundary whose next character
      fits the bound; at the end there is nothing to fit. */
  lemma ReadsExactlyWhen(file: seq<Byte>, offset: int, maxBytes: int)
    requires Valid(file)
    ensures PageOf(file, offset, maxBytes).Read? <==>
              0 <= offset <= |file| && maxBytes > 0 && Boundary(file, offset)
              && (offset < |file| ==> CharLen(file, offset, |file|) <= maxBytes)
  {
    if 0 <= offset <= |file| && maxBytes > 0 {
      if offset < |file| {
        BoundaryIsRuneStart(file, 0, offset);
        if Boundary(file, offset) {
          Utf8Rest(file, 0, offset, |file|);
          var limit := if offset + maxBytes < |file| then offset + maxBytes else |file|;
          var k := CharLen(file, offset, |file|);
          var next := LongestValid(file, offset, limit);
          CharLenKeeps(file, offset, limit, |file|);
          CharLenKeeps(file, offset, next, |file|);
          if k <= maxBytes {
            CharLenKeeps(file, offset, offset + k, |file|);
            LongestIsGreatest(file, offset, offset + k, limit);
          }
        }
      }
    }
  }

  /** A page is valid UTF-8 within the bound; it ends on a boundary, where the next one can
      start, and gives up at most three of the bytes it could have read. */
  lemma PageIsValid(file: seq<Byte>, offset: int, maxBytes: int)
    requires Valid(file) && PageOf(file, offset, maxBytes).Read?
    ensures var page := PageOf(file, offset, maxBytes).page;
            && Valid(page.content) && |page.content| <= maxBytes && page.offset == offset
            && page.content == file[offset..page.next] && Boundary(file, page.next)
            && (page.truncated <==> page.next < |file|)
            && (page.truncated ==> offset < page.next && maxBytes <= |page.content| + 3)
  {
    ReadsExactlyWhen(file, offset, maxBytes);
    var limit := if offset + maxBytes < |file| then offset + maxBytes else |file|;
    var next := LongestValid(file, offset, limit);
    Utf8Rest(file, 0, offset, |file|);
    Utf8Slice(file, offset, offset, next);
    Utf8Rest(file, 0, offset, next);
    var e := NearBoundary(file, offset, limit);
    LongestIsGreatest(file, offset, e, limit);
  }

  /** The pages that a reader gets by following `next_offset_bytes`; it stops at a refusal. */
  function PagesFrom(file: seq<Byte>, offset: nat, maxBytes: int): seq<PageResult>
    requires offset <= |file|
    decreases |file| - offset
  {
    var result := PageOf(file, offset, maxBytes);
    if result.Read? && result.page.truncated && result.page.next > offset then
      [result] + PagesFrom(file, result.page.next, maxBytes)
    else [result]
  }

  function Concat(pages: seq<PageResult>): seq<Byte> {
    if pages == [] then []
    else (if pages[0].Read? then pages[0].page.content else []) + Concat(pages[1..])
  }

  lemma ConcatFirst(first: PageResult, rest: seq<PageResult>)
    ensures Concat([first] + rest) == (if first.Read? then first.page.content else []) + Concat(rest)
  {
    assert ([first] + rest)[1..] == rest;
  }

  lemma SplitAt(s: seq<Byte>, i: nat, j: nat)
    requires i <= j <= |s|
    ensures s[i..] == s[i..j] + s[j..]
  {
  }

  /** With room for any character, following the offsets from a boundary reads on to the end:
      no page is refused and the pages make up the rest of the file. */
  lemma {:induction false} PagesMakeUpFile(file: seq<Byte>, offset: nat, maxBytes: int)
    requires Valid(file) && Boundary(file, offset) && maxBytes >= 4
    ensures var pages := PagesFrom(file, offset, maxBytes);
            && Concat(pages) == file[offset..]
            && (forall i :: 0 <= i < |pages| ==> pages[i].Read?)
            && !pages[|pages| - 1].page.truncated
    decreases |file| - offset
  {
    ReadsExactlyWhen(file, offset, maxBytes);
    PageIsValid(file, offset, maxBytes);
    var page := PageOf(file, offset, maxBytes).page;
    var pages := PagesFrom(file, offset, maxBytes);
    if page.truncated {
      PagesMakeUpFile(file, page.next, maxBytes);
      ConcatFirst(Read(page), PagesFrom(file, page.next, maxBytes));
      SplitAt(file, offset, page.next);
    } else {
      ConcatFirst(Read(page), []);
    }
  }

  /** With less room a character too long for the bound stops the reader for good. */
  lemma SmallBoundStops(file: seq<Byte>, offset: nat, maxBytes: int)
    requires Valid(file) && offset < |file| && Boundary(file, offset) && 0 < maxBytes < CharLen(file, offset, |file|)
    ensures PageOf(file, offset, maxBytes) == Refused(BoundTooSmall)
  {
    ReadsExactlyWhen(file, offset, maxBytes);
    BoundaryIsRuneStart(file, 0, offset);
  }
}
