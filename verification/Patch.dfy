/** Batch patching of a text artifact (`ArtifactWriter.Patch` in internal/evidence/io.go):
    every expected text is located in the original, and the replacements are spliced in from
    back to front. */
module Patch {
  import opened Unicode

  datatype TextPatch = TextPatch(expected: string, replacement: string)
  datatype Edit = Edit(start: nat, end: nat, replacement: string)

  datatype PatchResult = Patched(content: string) | NothingToDo | BlankExpected | NotOnce | Overlap

  // ------------------------------------------------------------ occurrences

  predicate At(content: string, part: string, i: nat) {
    i + |part| <= |content| && content[i..i + |part|] == part
  }

  /** `strings.Index` from `from` on; the length of the content when there is none. */
  function Index(content: string, part: string, from: nat): (i: nat)
    requires from <= |content|
    ensures from <= i <= |content|
    decreases |content| - from
  {
    if from == |content| || At(content, part, from) then from else Index(content, part, from + 1)
  }

  /** `strings.Count` from `from` on: occurrences that do not overlap. */
  function Count(content: string, part: string, from: nat): nat
    requires from <= |content| && part != []
    decreases |content| - from
  {
    var i := Index(content, part, from);
    if At(content, part, i) then 1 + Count(content, part, i + |part|) else 0
  }

  lemma {:induction false} IndexIsFirst(content: string, part: string, from: nat)
    requires from <= |content| && part != []
    ensures var i := Index(content, part, from);
            && (forall j :: from <= j < i ==> !At(content, part, j))
            && (i < |content| ==> At(content, part, i))
    decreases |content| - from
  {
    if from < |content| && !At(content, part, from) {
      IndexIsFirst(content, part, from + 1);
    }
  }

  /** The count is one exactly when there is an occurrence and every other one overlaps the
      first. */
  lemma OnceMeansFirst(content: string, part: string)
    requires part != []
    ensures Count(content, part, 0) == 1 <==>
              var i := Index(content, part, 0);
              At(content, part, i) && forall j: nat :: At(content, part, j) ==> i <= j < i + |part|
  {
    var i := Index(content, part, 0);
    IndexIsFirst(content, part, 0);
    if At(content, part, i) {
      var k := Index(content, part, i + |part|);
      IndexIsFirst(content, part, i + |part|);
      if !At(content, part, k) {
        forall j: nat | At(content, part, j) ensures i <= j < i + |part| {
          assert j < |content|;
        }
      }
    }
  }

  // ------------------------------------------------------------ substitution

  predicate Fits(content: string, e: Edit) {
    e.start < e.end <= |content|
  }

  predicate Apart(e: Edit, f: Edit) {
    e.end <= f.start || f.end <= e.start
  }

  ghost predicate Disjoint(content: string, edits: set<Edit>) {
    && (forall e :: e in edits ==> Fits(content, e))
    && forall e, f :: e in edits && f in edits && e != f ==> Apart(e, f)
  }

  /** All edits at once, from position `p` on: each edited interval gives way to its
      replacement, everything else is copied. */
  ghost function Substitute(content: string, edits: set<Edit>, p: nat): string
    requires Disjoint(content, edits) && p <= |content|
    decreases |content| - p
  {
    if p == |content| then []
    else if e: Edit :| e in edits && e.start == p then e.replacement + Substitute(content, edits, e.end)
    else [content[p]] + Substitute(content, edits, p + 1)
  }

  function EditSet(edits: seq<Edit>, n: nat): set<Edit>
    requires n <= |edits|
  {
    set i | 0 <= i < n :: edits[i]
  }

  lemma CopyOne(content: string, p: nat, q: nat, rest: string)
    requires p < q <= |content|
    ensures [content[p]] + (content[p + 1..q] + rest) == content[p..q] + rest
  {
  }

  /** Where no edit starts, text is copied. */
  lemma {:induction false} SubstituteCopies(content: string, edits: set<Edit>, p: nat, q: nat)
    requires Disjoint(content, edits) && p <= q <= |content|
    requires forall e :: e in edits ==> !(p <= e.start < q)
    ensures Substitute(content, edits, p) == content[p..q] + Substitute(content, edits, q)
    decreases q - p
  {
    if p < q {
      SubstituteCopies(content, edits, p + 1, q);
      CopyOne(content, p, q, Substitute(content, edits, q));
    } else {
      assert content[p..q] == [];
    }
  }

  /** An edit says nothing about the text after its start. */
  lemma {:induction false} SubstituteIgnores(content: string, edits: set<Edit>, e: Edit, p: nat)
    requires Disjoint(content, edits + {e}) && e.start < p <= |content|
    ensures Substitute(content, edits + {e}, p) == Substitute(content, edits, p)
    decreases |content| - p
  {
    if p < |content| {
      if f: Edit :| f in edits && f.start == p {
        SubstituteAt(content, edits, f);
        SubstituteAt(content, edits + {e}, f);
        SubstituteIgnores(content, edits, e, f.end);
      } else {
        SubstituteIgnores(content, edits, e, p + 1);
      }
    }
  }

  /** At the start of an edit its replacement goes in. */
  lemma SubstituteAt(content: string, edits: set<Edit>, e: Edit)
    requires Disjoint(content, edits) && e in edits
    ensures Substitute(content, edits, e.start) == e.replacement + Substitute(content, edits, e.end)
  {
    var f :| f in edits && f.start == e.start
             && Substitute(content, edits, e.start) == f.replacement + Substitute(content, edits, f.end);
    assert f == e by {
      assert Fits(content, e) && Fits(content, f);
    }
  }

  // ---------------------------------------------------------------- splicing

  /** The first `n` edits spliced in, one after the other. */
  function Splice(content: string, edits: seq<Edit>, n: nat): string
    requires n <= |edits|
  {
    if n == 0 then content else
      var text, e := Splice(content, edits, n - 1), edits[n - 1];
      if e.start <= e.end <= |text| then text[..e.start] + e.replacement + text[e.end..] else text
  }

  /** From the back of the text to the front. */
  predicate BackToFront(edits: seq<Edit>) {
    forall i, j :: 0 <= i < j < |edits| ==> edits[j].end <= edits[i].start
  }

  predicate AllFit(content: string, edits: seq<Edit>) {
    forall i :: 0 <= i < |edits| ==> Fits(content, edits[i])
  }

  lemma BackToFrontIsDisjoint(content: string, edits: seq<Edit>, n: nat)
    requires n <= |edits| && BackToFront(edits) && AllFit(content, edits)
    ensures Disjoint(content, EditSet(edits, n))
  {
    forall e, f | e in EditSet(edits, n) && f in EditSet(edits, n) && e != f ensures Apart(e, f) {
      var i :| 0 <= i < n && edits[i] == e;
      var j :| 0 <= j < n && edits[j] == f;
      assert i < j || j < i;
    }
  }

  /** Splicing from back to front is substituting all at once: up to the last edit spliced the
      text is the original's, from there on it is done. */
  lemma {:induction false} SpliceSubstitutes(content: string, edits: seq<Edit>, n: nat, p: nat)
    requires n <= |edits| && BackToFront(edits) && AllFit(content, edits)
    requires p <= |content| && (n > 0 ==> p <= edits[n - 1].start)
    ensures Disjoint(content, EditSet(edits, n))
    ensures Splice(content, edits, n) == content[..p] + Substitute(content, EditSet(edits, n), p)
  {
    BackToFrontIsDisjoint(content, edits, n);
    if n == 0 {
      assert EditSet(edits, n) == {};
      SubstituteCopies(content, {}, p, |content|);
      assert content == content[..p] + content[p..];
    } else {
      var e := edits[n - 1];
      assert Fits(content, e);
      SpliceSubstitutes(content, edits, n - 1, e.end);
      LastIsFirst(content, edits, n, p);
      hide Substitute, Disjoint, BackToFront, AllFit;
      SubstituteIgnores(content, EditSet(edits, n - 1), e, e.end);
      SubstituteAt(content, EditSet(edits, n), e);
      SubstituteCopies(content, EditSet(edits, n), p, e.start);
      SpliceOne(content, e, Substitute(content, EditSet(edits, n - 1), e.end), p);
    }
  }

  /** The last of the edits from back to front is the first in the text. */
  lemma LastIsFirst(content: string, edits: seq<Edit>, n: nat, p: nat)
    requires 0 < n <= |edits| && BackToFront(edits) && AllFit(content, edits)
    ensures EditSet(edits, n) == EditSet(edits, n - 1) + {edits[n - 1]}
    ensures forall f :: f in EditSet(edits, n) ==> !(p <= f.start < edits[n - 1].start)
  {
    forall f | f in EditSet(edits, n) ensures !(p <= f.start < edits[n - 1].start) {
      var i :| 0 <= i < n && edits[i] == f;
    }
  }

  lemma SpliceOne(content: string, e: Edit, tail: string, p: nat)
    requires Fits(content, e) && p <= e.start
    ensures var text := content[..e.end] + tail;
            text[..e.start] + e.replacement + text[e.end..]
            == content[..p] + (content[p..e.start] + (e.replacement + tail))
  {
    var text := content[..e.end] + tail;
    assert text[..e.start] == content[..e.start] == content[..p] + content[p..e.start];
    assert text[e.end..] == tail;
  }

  // ------------------------------------------------------------- the writer

  predicate Acceptable(content: string, patch: TextPatch) {
    !Blank(patch.expected) && Count(content, patch.expected, 0) == 1
  }

  function EditFor(content: string, patch: TextPatch): Edit {
    var start := Index(content, patch.expected, 0);
    Edit(start, start + |patch.expected|, patch.replacement)
  }

  function EditsFor(content: string, patches: seq<TextPatch>): (edits: seq<Edit>)
    ensures |edits| == |patches| && forall i :: 0 <= i < |edits| ==> edits[i] == EditFor(content, patches[i])
  {
    seq(|patches|, i requires 0 <= i < |patches| => EditFor(content, patches[i]))
  }

  predicate PairwiseApart(edits: seq<Edit>, n: nat)
    requires n <= |edits|
  {
    forall i, j :: 0 <= i < j < n ==> Apart(edits[i], edits[j])
  }

  /** When `Patch` succeeds. */
  predicate Patchable(content: string, patches: seq<TextPatch>) {
    && patches != [] && (forall i :: 0 <= i < |patches| ==> Acceptable(content, patches[i]))
    && PairwiseApart(EditsFor(content, patches), |patches|)
  }

  function Insert(e: Edit, edits: seq<Edit>): seq<Edit> {
    if edits == [] || edits[0].start <= e.start then [e] + edits else [edits[0]] + Insert(e, edits[1..])
  }

  /** `slices.SortFunc` by descending start. */
  function Sorted(edits: seq<Edit>): seq<Edit> {
    if edits == [] then [] else Insert(edits[0], Sorted(edits[1..]))
  }

  function Outcome(content: string, patches: seq<TextPatch>): string
    requires Patchable(content, patches)
  {
    var edits := Sorted(EditsFor(content, patches));
    Splice(content, edits, |edits|)
  }

  lemma PatchFits(content: string, patch: TextPatch)
    requires Acceptable(content, patch)
    ensures Fits(content, EditFor(content, patch)) && At(content, patch.expected, EditFor(content, patch).start)
  {
    OnceMeansFirst(content, patch.expected);
  }

  predicate Descending(edits: seq<Edit>) {
    forall i, j :: 0 <= i < j < |edits| ==> edits[j].start <= edits[i].start
  }

  lemma {:induction false} InsertKeeps(e: Edit, edits: seq<Edit>)
    ensures multiset(Insert(e, edits)) == multiset(edits) + multiset{e}
  {
    if !(edits == [] || edits[0].start <= e.start) {
      InsertKeeps(e, edits[1..]);
      assert edits == [edits[0]] + edits[1..];
    }
  }

  lemma {:induction false} InsertBound(e: Edit, edits: seq<Edit>, bound: nat)
    requires e.start <= bound && forall i :: 0 <= i < |edits| ==> edits[i].start <= bound
    ensures forall i :: 0 <= i < |Insert(e, edits)| ==> Insert(e, edits)[i].start <= bound
  {
    if !(edits == [] || edits[0].start <= e.start) {
      InsertBound(e, edits[1..], bound);
    }
  }

  lemma {:induction false} InsertSorts(e: Edit, edits: seq<Edit>)
    requires Descending(edits)
    ensures Descending(Insert(e, edits))
  {
    if !(edits == [] || edits[0].start <= e.start) {
      InsertSorts(e, edits[1..]);
      InsertBound(e, edits[1..], edits[0].start);
    }
  }

  lemma {:induction false} SortedIsSorted(edits: seq<Edit>)
    ensures multiset(Sorted(edits)) == multiset(edits) && Descending(Sorted(edits))
  {
    if edits != [] {
      SortedIsSorted(edits[1..]);
      InsertKeeps(edits[0], Sorted(edits[1..]));
      InsertSorts(edits[0], Sorted(edits[1..]));
      assert edits == [edits[0]] + edits[1..];
    }
  }

  // ------------------------------------------------------------ order and set

  ghost predicate ApartFrom(edits: set<Edit>, e: Edit) {
    forall f :: f in edits ==> Apart(f, e)
  }

  lemma ApartStep(content: string, edits: seq<Edit>, n: nat)
    requires 0 < n <= |edits| && AllFit(content, edits)
    ensures EditSet(edits, n) == EditSet(edits, n - 1) + {edits[n - 1]}
    ensures PairwiseApart(edits, n) <==> PairwiseApart(edits, n - 1) && ApartFrom(EditSet(edits, n - 1), edits[n - 1])
    ensures Disjoint(content, EditSet(edits, n)) && edits[n - 1] !in EditSet(edits, n - 1) <==>
              Disjoint(content, EditSet(edits, n - 1)) && ApartFrom(EditSet(edits, n - 1), edits[n - 1])
  {
    var e := edits[n - 1];
    assert EditSet(edits, n) == EditSet(edits, n - 1) + {e};
    assert Fits(content, e);
    forall i | 0 <= i < n - 1 ensures edits[i] in EditSet(edits, n - 1) {
    }
  }

  /** One edit more, when the edits before it are pairwise apart exactly as a set of `n - 1`. */
  lemma ApartNext(content: string, edits: seq<Edit>, n: nat)
    requires 0 < n <= |edits| && AllFit(content, edits) && |EditSet(edits, n - 1)| <= n - 1
    requires PairwiseApart(edits, n - 1) <==>
               Disjoint(content, EditSet(edits, n - 1)) && |EditSet(edits, n - 1)| == n - 1
    ensures |EditSet(edits, n)| <= n
    ensures PairwiseApart(edits, n) <==> Disjoint(content, EditSet(edits, n)) && |EditSet(edits, n)| == n
  {
    ApartStep(content, edits, n);
    SizeWith(EditSet(edits, n - 1), edits[n - 1]);
  }

  lemma SizeWith(edits: set<Edit>, e: Edit)
    ensures |edits + {e}| == |edits| + if e in edits then 0 else 1
  {
    if e in edits {
      assert edits + {e} == edits;
    }
  }

  /** Edits that fit are pairwise apart exactly when they are disjoint and none is repeated. */
  lemma {:induction false} ApartAsSet(content: string, edits: seq<Edit>, n: nat)
    requires n <= |edits| && AllFit(content, edits)
    ensures |EditSet(edits, n)| <= n
    ensures PairwiseApart(edits, n) <==> Disjoint(content, EditSet(edits, n)) && |EditSet(edits, n)| == n
  {
    if n > 0 {
      ApartAsSet(content, edits, n - 1);
      ApartNext(content, edits, n);
    } else {
      assert EditSet(edits, 0) == {};
    }
  }

  /** Sorting changes neither the edits nor whether they are apart, and puts apart ones back to
      front. */
  lemma SortedBackToFront(content: string, edits: seq<Edit>)
    requires AllFit(content, edits) && PairwiseApart(edits, |edits|)
    ensures var sorted := Sorted(edits);
            && |sorted| == |edits| && EditSet(sorted, |sorted|) == EditSet(edits, |edits|)
            && AllFit(content, sorted) && BackToFront(sorted)
  {
    var sorted := Sorted(edits);
    SortedIsSorted(edits);
    assert |multiset(sorted)| == |sorted| && |multiset(edits)| == |edits|;
    SameElements(sorted, edits);
    forall i | 0 <= i < |sorted| ensures Fits(content, sorted[i]) {
      assert sorted[i] in multiset(edits);
    }
    ApartAsSet(content, edits, |edits|);
    ApartAsSet(content, sorted, |sorted|);
    forall i, j | 0 <= i < j < |sorted| ensures sorted[j].end <= sorted[i].start {
      assert Apart(sorted[i], sorted[j]) && Fits(content, sorted[i]) && Fits(content, sorted[j]);
    }
  }

  lemma SameElements(a: seq<Edit>, b: seq<Edit>)
    requires multiset(a) == multiset(b)
    ensures EditSet(a, |a|) == EditSet(b, |b|)
  {
    forall e ensures e in EditSet(a, |a|) <==> e in EditSet(b, |b|) {
      assert e in EditSet(a, |a|) <==> e in multiset(a);
      assert e in EditSet(b, |b|) <==> e in multiset(b);
    }
  }

  // ------------------------------------------------------------ main results

  /** The edits of a patch list, as a set. */
  function Edits(content: string, patches: seq<TextPatch>): set<Edit> {
    EditSet(EditsFor(content, patches), |patches|)
  }

  lemma PatchesFit(content: string, patches: seq<TextPatch>)
    requires forall i :: 0 <= i < |patches| ==> Acceptable(content, patches[i])
    ensures AllFit(content, EditsFor(content, patches))
  {
    forall i | 0 <= i < |patches| ensures Fits(content, EditsFor(content, patches)[i]) {
      PatchFits(content, patches[i]);
    }
  }

  /** Splicing the patches in from back to front replaces all matched intervals of the original
      at once. */
  lemma PatchSubstitutes(content: string, patches: seq<TextPatch>)
    requires Patchable(content, patches)
    ensures Disjoint(content, Edits(content, patches))
    ensures Outcome(content, patches) == Substitute(content, Edits(content, patches), 0)
  {
    var edits := EditsFor(content, patches);
    PatchesFit(content, patches);
    SortedBackToFront(content, edits);
    SpliceSubstitutes(content, Sorted(edits), |edits|, 0);
  }

  /** The order of the patch list does not matter, neither for success nor for the outcome. */
  lemma PatchOrder(content: string, a: seq<TextPatch>, b: seq<TextPatch>)
    requires multiset(a) == multiset(b) && Patchable(content, a)
    ensures Patchable(content, b) && Outcome(content, a) == Outcome(content, b)
  {
    forall i | 0 <= i < |b| ensures Acceptable(content, b[i]) {
      assert b[i] in multiset(a);
    }
    assert |multiset(a)| == |a| && |multiset(b)| == |b|;
    PatchesFit(content, a);
    PatchesFit(content, b);
    SameEdits(content, a, b);
    ApartAsSet(content, EditsFor(content, a), |a|);
    ApartAsSet(content, EditsFor(content, b), |b|);
    PatchSubstitutes(content, a);
    PatchSubstitutes(content, b);
  }

  lemma SameEdits(content: string, a: seq<TextPatch>, b: seq<TextPatch>)
    requires multiset(a) == multiset(b)
    ensures Edits(content, a) == Edits(content, b)
  {
    EditsWithin(content, a, b);
    EditsWithin(content, b, a);
  }

  lemma EditsWithin(content: string, a: seq<TextPatch>, b: seq<TextPatch>)
    requires multiset(a) == multiset(b)
    ensures Edits(content, a) <= Edits(content, b)
  {
    forall e | e in Edits(content, a) ensures e in Edits(content, b) {
      var i :| 0 <= i < |a| && EditsFor(content, a)[i] == e;
      assert a[i] in multiset(b);
      var j :| 0 <= j < |b| && b[j] == a[i];
      assert EditsFor(content, b)[j] == e;
    }
  }

  function Growth(edits: seq<Edit>, n: nat): int
    requires n <= |edits|
  {
    if n == 0 then 0 else Growth(edits, n - 1) + |edits[n - 1].replacement| - (edits[n - 1].end - edits[n - 1].start)
  }

  /** The length changes by the sum of the differences. */
  lemma {:induction false} SpliceLength(content: string, edits: seq<Edit>, n: nat)
    requires n <= |edits| && BackToFront(edits) && AllFit(content, edits)
    ensures |Splice(content, edits, n)| == |content| + Growth(edits, n)
  {
    if n > 0 {
      var e := edits[n - 1];
      assert Fits(content, e);
      SpliceLength(content, edits, n - 1);
      SpliceSubstitutes(content, edits, n - 1, e.end);
    }
  }

  lemma {:induction false} GrowthFront(e: Edit, edits: seq<Edit>, n: nat)
    requires n <= |edits|
    ensures Growth([e] + edits, n + 1) == |e.replacement| - (e.end - e.start) + Growth(edits, n)
  {
    if n > 0 {
      GrowthFront(e, edits, n - 1);
    }
  }

  lemma {:induction false} GrowthInsert(e: Edit, edits: seq<Edit>)
    ensures |Insert(e, edits)| == |edits| + 1
    ensures Growth(Insert(e, edits), |edits| + 1) == |e.replacement| - (e.end - e.start) + Growth(edits, |edits|)
  {
    if edits == [] || edits[0].start <= e.start {
      GrowthFront(e, edits, |edits|);
    } else {
      GrowthInsert(e, edits[1..]);
      GrowthFront(edits[0], Insert(e, edits[1..]), |edits|);
      assert edits == [edits[0]] + edits[1..];
      GrowthFront(edits[0], edits[1..], |edits| - 1);
    }
  }

  lemma {:induction false} GrowthSorted(edits: seq<Edit>)
    ensures |Sorted(edits)| == |edits| && Growth(Sorted(edits), |edits|) == Growth(edits, |edits|)
  {
    if edits != [] {
      GrowthSorted(edits[1..]);
      GrowthInsert(edits[0], Sorted(edits[1..]));
      assert edits == [edits[0]] + edits[1..];
      GrowthFront(edits[0], edits[1..], |edits| - 1);
    }
  }

  lemma PatchLength(content: string, patches: seq<TextPatch>)
    requires Patchable(content, patches)
    ensures |Outcome(content, patches)| == |content| + Growth(EditsFor(content, patches), |patches|)
  {
    var edits := EditsFor(content, patches);
    PatchesFit(content, patches);
    SortedBackToFront(content, edits);
    SpliceLength(content, Sorted(edits), |edits|);
    GrowthSorted(edits);
  }

  /** One rune of the outcome with its position in the original, or -1 where it is new. */
  datatype Rune = Rune(c: char, origin: int)

  function Inserted(s: string): seq<Rune> {
    seq(|s|, i requires 0 <= i < |s| => Rune(s[i], -1))
  }

  function Letters(runes: seq<Rune>): string {
    seq(|runes|, i requires 0 <= i < |runes| => runes[i].c)
  }

  /** The positions in the original of the first `n` runes that have one. */
  function OriginsTo(runes: seq<Rune>, n: nat): seq<int>
    requires n <= |runes|
  {
    if n == 0 then []
    else OriginsTo(runes, n - 1) + if runes[n - 1].origin >= 0 then [runes[n - 1].origin] else []
  }

  /** `Substitute`, rune by rune with its origin. */
  ghost function Traced(content: string, edits: set<Edit>, p: nat): seq<Rune>
    requires Disjoint(content, edits) && p <= |content|
    decreases |content| - p
  {
    if p == |content| then []
    else if e: Edit :| e in edits && e.start == p then Inserted(e.replacement) + Traced(content, edits, e.end)
    else [Rune(content[p], p)] + Traced(content, edits, p + 1)
  }

  /** The positions that no edit covers, in order. */
  ghost function Untouched(content: string, edits: set<Edit>, p: nat): seq<int>
    requires p <= |content|
    decreases |content| - p
  {
    if p == |content| then []
    else (if exists e: Edit :: e in edits && e.start <= p < e.end then [] else [p]) + Untouched(content, edits, p + 1)
  }

  /** Every rune of the trace is new or the one at its origin. */
  predicate Truthful(content: string, runes: seq<Rune>) {
    forall i :: 0 <= i < |runes| && runes[i].origin >= 0 ==>
      runes[i].origin < |content| && runes[i].c == content[runes[i].origin]
  }

  ghost function Trace(content: string, patches: seq<TextPatch>): seq<Rune>
    requires Patchable(content, patches)
  {
    PatchSubstitutes(content, patches);
    Traced(content, Edits(content, patches), 0)
  }

  /** On success the outcome is spelled by runes of which those that come from the original are
      exactly the uncovered ones, each once and in order. */
  lemma RestIsKept(content: string, patches: seq<TextPatch>)
    requires Patchable(content, patches)
    ensures var trace := Trace(content, patches);
            && Letters(trace) == Outcome(content, patches) && Truthful(content, trace)
            && OriginsTo(trace, |trace|) == Untouched(content, Edits(content, patches), 0)
  {
    PatchSubstitutes(content, patches);
    TraceSpells(content, Edits(content, patches), 0);
    TraceKeeps(content, Edits(content, patches), 0);
  }

  lemma TracedAt(content: string, edits: set<Edit>, e: Edit)
    requires Disjoint(content, edits) && e in edits
    ensures Traced(content, edits, e.start) == Inserted(e.replacement) + Traced(content, edits, e.end)
  {
    var f :| f in edits && f.start == e.start
             && Traced(content, edits, e.start) == Inserted(f.replacement) + Traced(content, edits, f.end);
    assert f == e by {
      assert Fits(content, e) && Fits(content, f);
    }
  }

  lemma LettersAppend(a: seq<Rune>, b: seq<Rune>)
    ensures Letters(a + b) == Letters(a) + Letters(b)
  {
  }

  lemma LetterOfOne(c: char, origin: int)
    ensures Letters([Rune(c, origin)]) == [c]
  {
  }

  lemma LettersInserted(s: string)
    ensures Letters(Inserted(s)) == s
  {
  }

  lemma TruthfulAppend(content: string, a: seq<Rune>, b: seq<Rune>)
    requires Truthful(content, a) && Truthful(content, b)
    ensures Truthful(content, a + b)
  {
  }

  lemma {:induction false} TraceSpells(content: string, edits: set<Edit>, p: nat)
    requires Disjoint(content, edits) && p <= |content|
    ensures Letters(Traced(content, edits, p)) == Substitute(content, edits, p)
    ensures Truthful(content, Traced(content, edits, p))
    decreases |content| - p
  {
    hide Letters;
    LettersInserted("");
    assert Inserted("") == [];
    if p < |content| {
      if e: Edit :| e in edits && e.start == p {
        SubstituteAt(content, edits, e);
        TracedAt(content, edits, e);
        TraceSpells(content, edits, e.end);
        LettersAppend(Inserted(e.replacement), Traced(content, edits, e.end));
        LettersInserted(e.replacement);
        TruthfulAppend(content, Inserted(e.replacement), Traced(content, edits, e.end));
      } else {
        TraceSpells(content, edits, p + 1);
        LettersAppend([Rune(content[p], p)], Traced(content, edits, p + 1));
        TruthfulAppend(content, [Rune(content[p], p)], Traced(content, edits, p + 1));
        assert Letters([Rune(content[p], p)]) == [content[p]] by {
          LetterOfOne(content[p], p);
        }
      }
    }
  }

  lemma {:induction false} OriginsAppend(a: seq<Rune>, b: seq<Rune>, n: nat)
    requires n <= |b|
    ensures OriginsTo(a + b, |a| + n) == OriginsTo(a, |a|) + OriginsTo(b, n)
  {
    if n == 0 {
      OriginsAgree(a + b, a, |a|);
    } else {
      OriginsAppend(a, b, n - 1);
    }
  }

  lemma {:induction false} OriginsAgree(a: seq<Rune>, b: seq<Rune>, n: nat)
    requires n <= |a| && n <= |b| && forall i :: 0 <= i < n ==> a[i] == b[i]
    ensures OriginsTo(a, n) == OriginsTo(b, n)
  {
    if n > 0 {
      OriginsAgree(a, b, n - 1);
    }
  }

  lemma {:induction false} OriginsInserted(s: string, n: nat)
    requires n <= |s|
    ensures OriginsTo(Inserted(s), n) == []
  {
    if n > 0 {
      OriginsInserted(s, n - 1);
    }
  }

  lemma {:induction false} TraceKeeps(content: string, edits: set<Edit>, p: nat)
    requires Disjoint(content, edits) && p <= |content|
    requires forall e :: e in edits ==> !(e.start < p < e.end)
    ensures var trace := Traced(content, edits, p);
            OriginsTo(trace, |trace|) == Untouched(content, edits, p)
    decreases |content| - p
  {
    if p == |content| {
      assert Untouched(content, edits, p) == [];
    } else {
      hide OriginsTo, Untouched, Inserted, Disjoint, Fits;
      if e: Edit :| e in edits && e.start == p {
        TracedAt(content, edits, e);
        NoneAcross(content, edits, e);
        TraceKeeps(content, edits, e.end);
        KeptAfterInsert(content, edits, e, Traced(content, edits, e.end));
      } else {
        TraceKeeps(content, edits, p + 1);
        KeptAfterCopy(content, edits, p, Traced(content, edits, p + 1));
      }
    }
  }

  lemma NoneAcross(content: string, edits: set<Edit>, e: Edit)
    requires Disjoint(content, edits) && e in edits
    ensures Fits(content, e) && forall f :: f in edits ==> !(f.start < e.end < f.end)
  {
    forall f | f in edits ensures !(f.start < e.end < f.end) {
      assert f != e ==> Apart(e, f) && Fits(content, f);
    }
  }

  lemma KeptAfterInsert(content: string, edits: set<Edit>, e: Edit, rest: seq<Rune>)
    requires Fits(content, e) && e in edits && OriginsTo(rest, |rest|) == Untouched(content, edits, e.end)
    ensures var trace := Inserted(e.replacement) + rest;
            OriginsTo(trace, |trace|) == Untouched(content, edits, e.start)
  {
    hide OriginsTo, Untouched;
    OriginsInserted(e.replacement, |e.replacement|);
    OriginsAppend(Inserted(e.replacement), rest, |rest|);
    SkipCovered(content, edits, e, e.start);
  }

  lemma KeptAfterCopy(content: string, edits: set<Edit>, p: nat, rest: seq<Rune>)
    requires p < |content| && (forall e :: e in edits ==> !(e.start <= p < e.end))
    requires OriginsTo(rest, |rest|) == Untouched(content, edits, p + 1)
    ensures var trace := [Rune(content[p], p)] + rest;
            OriginsTo(trace, |trace|) == Untouched(content, edits, p)
  {
    hide OriginsTo, Untouched;
    OriginsAppend([Rune(content[p], p)], rest, |rest|);
    OriginOfOne(content[p], p);
    UncoveredStays(content, edits, p);
  }

  lemma OriginOfOne(c: char, p: nat)
    ensures OriginsTo([Rune(c, p)], 1) == [p]
  {
    assert OriginsTo([Rune(c, p)], 0) == [];
  }

  lemma UncoveredStays(content: string, edits: set<Edit>, p: nat)
    requires p < |content| && forall e :: e in edits ==> !(e.start <= p < e.end)
    ensures Untouched(content, edits, p) == [p] + Untouched(content, edits, p + 1)
  {
  }

  lemma {:induction false} SkipCovered(content: string, edits: set<Edit>, e: Edit, p: nat)
    requires e in edits && Fits(content, e) && e.start <= p <= e.end
    ensures Untouched(content, edits, p) == Untouched(content, edits, e.end)
    decreases e.end - p
  {
    if p < e.end {
      SkipCovered(content, edits, e, p + 1);
    }
  }

  // ------------------------------------------------------------- the method

  /** All or nothing: every text is located and compared before anything is spliced. */
  method PatchText(content: string, patches: seq<TextPatch>) returns (result: PatchResult)
    ensures result.Patched? <==> Patchable(content, patches)
    ensures result.Patched? ==> result.content == Outcome(content, patches)
    ensures result.Patched? ==>
              Disjoint(content, Edits(content, patches))
              && result.content == Substitute(content, Edits(content, patches), 0)
  {
    if |patches| == 0 {
      return NothingToDo;
    }
    var matches := [];
    for i := 0 to |patches|
      invariant |matches| == i && forall k :: 0 <= k < i ==>
                  Acceptable(content, patches[k]) && matches[k] == EditFor(content, patches[k])
    {
      var patch := patches[i];
      if Blank(patch.expected) {
        return BlankExpected;
      }
      if Count(content, patch.expected, 0) != 1 {
        return NotOnce;
      }
      var start := Index(content, patch.expected, 0);
      matches := matches + [Edit(start, start + |patch.expected|, patch.replacement)];
    }
    assert matches == EditsFor(content, patches);
    var apart := CheckApart(matches);
    if !apart {
      return Overlap;
    }
    PatchesFit(content, patches);
    PatchSubstitutes(content, patches);
    SortedBackToFront(content, matches);
    var updated := SpliceAll(content, Sorted(matches));
    return Patched(updated);
  }

  method CheckApart(matches: seq<Edit>) returns (apart: bool)
    ensures apart <==> PairwiseApart(matches, |matches|)
  {
    for i := 0 to |matches|
      invariant forall k, l :: 0 <= k < i && k < l < |matches| ==> Apart(matches[k], matches[l])
    {
      for j := i + 1 to |matches|
        invariant forall l :: i < l < j ==> Apart(matches[i], matches[l])
      {
        if matches[i].start < matches[j].end && matches[j].start < matches[i].end {
          return false;
        }
      }
    }
    return true;
  }

  method SpliceAll(content: string, edits: seq<Edit>) returns (updated: string)
    requires BackToFront(edits) && AllFit(content, edits)
    ensures updated == Splice(content, edits, |edits|)
  {
    updated := content;
    for i := 0 to |edits|
      invariant updated == Splice(content, edits, i)
    {
      assert Fits(content, edits[i]);
      SpliceSubstitutes(content, edits, i, edits[i].end);
      updated := updated[..edits[i].start] + edits[i].replacement + updated[edits[i].end..];
    }
  }
}
