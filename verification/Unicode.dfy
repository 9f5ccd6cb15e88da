/** Text as the Go runtime sees it: a string is a sequence of code points, and every
    offset the program stores is a number of UTF-8 bytes.  Valid UTF-8 input is assumed,
    so a `string` of Unicode scalar values loses nothing. */
module Unicode {

  /** Bytes that UTF-8 spends on one code point (section 3 of RFC 3629). */
  function Width(c: char): (w: nat)
    ensures 1 <= w <= 4
  {
    var n := c as int;
    if n < 0x80 then 1 else if n < 0x800 then 2 else if n < 0x1_0000 then 3 else 4
  }

  /** The byte offset at which code point `k` starts. */
  function Offset(s: string, k: nat): (o: nat)
    requires k <= |s|
  {
    if k == 0 then 0 else Offset(s, k - 1) + Width(s[k - 1])
  }

  function ByteLen(s: string): nat {
    Offset(s, |s|)
  }

  /** `unicode.IsSpace`: the code points with the White_Space property. */
  predicate IsSpace(c: char) {
    var n := c as int;
    || 0x09 <= n <= 0x0D || n == 0x20 || n == 0x85 || n == 0xA0 || n == 0x1680
    || 0x2000 <= n <= 0x200A || n == 0x2028 || n == 0x2029 || n == 0x202F || n == 0x205F || n == 0x3000
  }

  /** `strings.TrimSpace(s) == ""`. */
  predicate Blank(s: string) {
    forall i :: 0 <= i < |s| ==> IsSpace(s[i])
  }

  function TrimRight(s: string): (t: string)
    ensures |t| <= |s|
  {
    if s != [] && IsSpace(s[|s| - 1]) then TrimRight(s[..|s| - 1]) else s
  }

  function TrimLeft(s: string): string {
    if s != [] && IsSpace(s[0]) then TrimLeft(s[1..]) else s
  }

  /** `strings.TrimSpace`. */
  function Trim(s: string): string {
    TrimLeft(TrimRight(s))
  }

  predicate Trimmed(s: string) {
    s != [] ==> !IsSpace(s[0]) && !IsSpace(s[|s| - 1])
  }

  lemma {:induction false} TrimRightIs(s: string)
    ensures var t := TrimRight(s);
            t == s[..|t|] && Blank(s[|t|..]) && (t != [] ==> !IsSpace(t[|t| - 1]))
  {
    hide IsSpace;
    if s != [] && IsSpace(s[|s| - 1]) {
      var rest := s[..|s| - 1];
      TrimRightIs(rest);
      var n := |TrimRight(rest)|;
      assert s[..n] == rest[..n] && s[n..] == rest[n..] + [s[|s| - 1]];
    } else {
      assert s[..|s|] == s && s[|s|..] == [];
    }
  }

  lemma {:induction false} TrimLeftIs(s: string)
    ensures var t := TrimLeft(s);
            |t| <= |s| && t == s[|s| - |t|..] && Blank(s[..|s| - |t|]) && (t != [] ==> !IsSpace(t[0]))
  {
    hide IsSpace;
    if s != [] && IsSpace(s[0]) {
      TrimLeftIs(s[1..]);
      var n := |s| - |TrimLeft(s[1..])|;
      assert s[n..] == s[1..][n - 1..] && s[..n] == [s[0]] + s[1..][..n - 1];
    } else {
      assert s[0..] == s && s[..0] == [];
    }
  }

  /** Trimming takes white space off both ends and nothing else. */
  lemma TrimIs(s: string) returns (i: nat, j: nat)
    ensures i <= j <= |s| && Trim(s) == s[i..j] && Blank(s[..i]) && Blank(s[j..]) && Trimmed(Trim(s))
  {
    hide IsSpace, Blank;
    TrimRightIs(s);
    TrimLeftIs(TrimRight(s));
    j := |TrimRight(s)|;
    i := j - |Trim(s)|;
    assert s[..j][i..] == s[i..j] && s[..j][..i] == s[..i];
    if Trim(s) != [] {
      assert Trim(s)[|Trim(s)| - 1] == TrimRight(s)[j - 1];
    }
  }

  lemma TrimmedStays(s: string)
    requires Trimmed(s)
    ensures Trim(s) == s
  {
  }

  lemma TrimTwice(s: string)
    ensures Trim(Trim(s)) == Trim(s)
  {
    var i, j := TrimIs(s);
    TrimmedStays(Trim(s));
  }

  // ----------------------------------------------------------- byte offsets

  lemma {:induction false} OffsetAgrees(s: string, t: string, k: nat)
    requires k <= |s| && k <= |t| && forall i :: 0 <= i < k ==> s[i] == t[i]
    ensures Offset(s, k) == Offset(t, k)
  {
    if k > 0 {
      OffsetAgrees(s, t, k - 1);
    }
  }

  lemma {:induction false} OffsetGrows(s: string, i: nat, j: nat)
    requires i <= j <= |s|
    ensures Offset(s, i) + (j - i) <= Offset(s, j)
  {
    if i < j {
      OffsetGrows(s, i, j - 1);
    }
  }

  lemma {:induction false} OffsetSlice(s: string, i: nat, k: nat, j: nat)
    requires i <= k <= j <= |s|
    ensures Offset(s[i..j], k - i) == Offset(s, k) - Offset(s, i)
  {
    if i < k {
      OffsetSlice(s, i, k - 1, j);
    }
  }

  lemma ByteLenConcat(s: string, t: string)
    ensures ByteLen(s + t) == ByteLen(s) + ByteLen(t)
  {
    var u := s + t;
    OffsetAgrees(u, s, |s|);
    OffsetSlice(u, |s|, |u|, |u|);
    assert u[|s|..|u|] == t;
  }

  /** The greatest of the first `k` indices that starts at or before byte `o`. */
  function LastStart(s: string, o: int, k: nat): (i: nat)
    requires k <= |s|
    ensures i <= k && (o >= 0 ==> Offset(s, i) <= o) && (i < k ==> o < Offset(s, i + 1))
  {
    if k == 0 || Offset(s, k) <= o then k else LastStart(s, o, k - 1)
  }

  /** How many code points end at or before byte `o`. */
  function RuneIndex(s: string, o: int): nat {
    LastStart(s, o, |s|)
  }

  /** Byte `o` starts a code point, or ends the text. */
  predicate Boundary(s: string, o: int) {
    o == Offset(s, RuneIndex(s, o))
  }

  /** Byte `o` belongs to code point `k`. */
  predicate Covers(s: string, k: nat, o: int) {
    k < |s| && Offset(s, k) <= o < Offset(s, k + 1)
  }

  /** The bytes from `a` up to `b`, as a slice of a Go string takes them. */
  function Cut(s: string, a: int, b: int): string {
    var i, j := RuneIndex(s, a), RuneIndex(s, b);
    if i <= j then s[i..j] else []
  }

  lemma IndexOfOffset(s: string, k: nat)
    requires k <= |s|
    ensures RuneIndex(s, Offset(s, k)) == k && Boundary(s, Offset(s, k))
  {
    hide Offset, LastStart;
    var i := RuneIndex(s, Offset(s, k));
    if i < k {
      OffsetGrows(s, i + 1, k);
    } else {
      OffsetGrows(s, k, i);
    }
  }

  lemma IndexGrows(s: string, a: int, b: int)
    requires 0 <= a <= b
    ensures RuneIndex(s, a) <= RuneIndex(s, b)
  {
    var i, j := RuneIndex(s, a), RuneIndex(s, b);
    if j < i {
      OffsetGrows(s, j + 1, i);
    }
  }

  lemma SliceOfSlice(s: string, begin: nat, stop: nat, i: nat, j: nat)
    requires begin <= i <= j <= stop <= |s|
    ensures s[begin..stop][i - begin..j - begin] == s[i..j]
  {
    var t := s[begin..stop];
    forall k | 0 <= k < j - i ensures t[i - begin..j - begin][k] == s[i..j][k] {
      assert t[i - begin + k] == s[i + k];
    }
  }

  /** Cutting between boundaries: the length, and the offsets inside. */
  lemma CutOffsets(s: string, a: int, o: int, b: int)
    requires 0 <= a <= o <= b && Boundary(s, a) && Boundary(s, o) && Boundary(s, b)
    ensures RuneIndex(s, a) <= RuneIndex(s, o) <= RuneIndex(s, b)
    ensures ByteLen(Cut(s, a, b)) == b - a
    ensures RuneIndex(Cut(s, a, b), o - a) == RuneIndex(s, o) - RuneIndex(s, a)
  {
    var i, k, j := RuneIndex(s, a), RuneIndex(s, o), RuneIndex(s, b);
    IndexGrows(s, a, o);
    IndexGrows(s, o, b);
    OffsetSlice(s, i, k, j);
    OffsetSlice(s, i, j, j);
    IndexOfOffset(s[i..j], k - i);
  }

  /** A cut of a cut is the cut. */
  lemma CutInside(s: string, a: int, start: int, end: int, b: int)
    requires 0 <= a <= start <= end <= b && Boundary(s, a) && Boundary(s, start) && Boundary(s, end) && Boundary(s, b)
    ensures ByteLen(Cut(s, a, b)) == b - a
    ensures RuneIndex(Cut(s, a, b), end - a) - RuneIndex(Cut(s, a, b), start - a)
            == RuneIndex(s, end) - RuneIndex(s, start)
    ensures Cut(Cut(s, a, b), start - a, end - a) == Cut(s, start, end)
  {
    CutOffsets(s, a, start, b);
    CutOffsets(s, a, end, b);
    IndexGrows(s, start, end);
    var cut := Cut(s, a, b);
    var p, q := RuneIndex(cut, start - a), RuneIndex(cut, end - a);
    SliceOfSlice(s, RuneIndex(s, a), RuneIndex(s, b), RuneIndex(s, start), RuneIndex(s, end));
    assert Cut(cut, start - a, end - a) == cut[p..q];
  }

  lemma BoundaryExtends(s: string, t: string, o: int)
    requires o >= 0 && Boundary(s, o)
    ensures Boundary(s + t, o)
  {
    var k := RuneIndex(s, o);
    OffsetAgrees(s, s + t, k);
    IndexOfOffset(s + t, k);
  }
}
