/** Field-level repair of knowledge.json by QC (`applyQCKnowledgePatch` in
    internal/cli/runtime_workflow_tools.go): one item is patched or removed, cited quotes are
    resolved by the host, and quotes nobody cites any more are dropped.  A field that is
    missing or of the wrong JSON type is `None`, or "" where the code treats both alike; the
    fields the code does not look at are carried as `rest`. */
module Knowledge {
  import opened Options
  import opened Unicode

  datatype Item = Item(id: Option<string>, claim: string, confidence: string, quoteIDs: Option<seq<string>>, rest: int)
  datatype StoredQuote = StoredQuote(ref: string, id: string, rest: int)
  datatype Trusted = Trusted(submitReady: bool, artifactID: string, rest: int)

  datatype Patch = Patch(id: string, claim: Option<string>, confidence: Option<string>, citations: Option<seq<string>>)
  datatype Args = Args(patch: Option<Patch>, removeID: string)

  /** What the host knows: the trusted quotes by reference, and the artifacts QC may cite. */
  datatype Host = Host(trusted: map<string, Trusted>, authorized: set<string>)

  datatype Issue = SingleChangeRequired | BadItemID | DuplicateItemID | EmptyPatchID | UnknownItem
                 | EmptyClaim | BadConfidence
                 | NoCitations | UntrustedQuote | UnauthorizedQuote | ItemWithoutCitations | UnknownQuote | InvalidItem

  /** The ID derived from a reference, as an injective function of it. */
  function DerivedID(ref: string): string {
    "quote-" + ref
  }

  /** `unicode.ToLower` where the result can be one of the three words. */
  function Lower(c: char): char {
    if 'A' <= c <= 'Z' then (c as int + 32) as char else if c as int == 0x130 then 'i' else c
  }

  function ToLower(s: string): (t: string)
    ensures |t| == |s|
  {
    seq(|s|, i requires 0 <= i < |s| => Lower(s[i]))
  }

  /** The letters that one of the words a to z is written with. */
  predicate Spells(c: char, letter: char) {
    c == letter || c as int + 32 == letter as int || (c as int == 0x130 && letter == 'i')
  }

  lemma LowersExactlyWhen(s: string, word: string)
    requires forall i :: 0 <= i < |word| ==> 'a' <= word[i] <= 'z'
    ensures ToLower(s) == word <==> |s| == |word| && forall i :: 0 <= i < |s| ==> Spells(s[i], word[i])
  {
    if |s| == |word| && forall i :: 0 <= i < |s| ==> Spells(s[i], word[i]) {
      forall i | 0 <= i < |s| ensures ToLower(s)[i] == word[i] {
        assert Spells(s[i], word[i]);
      }
    }
    if ToLower(s) == word {
      forall i | 0 <= i < |s| ensures Spells(s[i], word[i]) {
        assert ToLower(s)[i] == Lower(s[i]);
      }
    }
  }

  predicate Level(confidence: string) {
    confidence == "high" || confidence == "medium" || confidence == "low"
  }

  type Catalogue = map<string, StoredQuote>

  // ----------------------------------------------------------- specification

  /** The stored quotes by reference; of two with one reference the later counts. */
  function Stored(quotes: seq<StoredQuote>, n: nat): Catalogue
    requires n <= |quotes|
  {
    if n == 0 then map[] else
      var q := quotes[n - 1];
      if q.ref != "" && q.id != "" then Stored(quotes, n - 1)[q.ref := q] else Stored(quotes, n - 1)
  }

  predicate ValidIDs(items: seq<Item>, n: nat)
    requires n <= |items|
  {
    && (forall i :: 0 <= i < n ==> items[i].id.Some? && !Blank(items[i].id.value))
    && forall i, j :: 0 <= i < j < n ==> items[i].id != items[j].id
  }

  predicate Citable(host: Host, rawRef: string) {
    var ref := Trim(rawRef);
    ref in host.trusted && host.trusted[ref].submitReady && host.trusted[ref].artifactID in host.authorized
  }

  function CitedID(stored: Catalogue, rawRef: string): string {
    var ref := Trim(rawRef);
    if ref in stored && stored[ref].id != "" then stored[ref].id else DerivedID(ref)
  }

  function CitedIDs(stored: Catalogue, citations: seq<string>): (ids: seq<string>)
    ensures |ids| == |citations| && forall i :: 0 <= i < |ids| ==> ids[i] == CitedID(stored, citations[i])
  {
    seq(|citations|, i requires 0 <= i < |citations| => CitedID(stored, citations[i]))
  }

  /** The catalogue with the quotes of the first `n` citations. */
  function WithCited(stored: Catalogue, host: Host, citations: seq<string>, n: nat): Catalogue
    requires n <= |citations| && forall i :: 0 <= i < n ==> Citable(host, citations[i])
  {
    if n == 0 then stored else
      var before, ref := WithCited(stored, host, citations, n - 1), Trim(citations[n - 1]);
      assert Citable(host, citations[n - 1]);
      if ref in before then before
      else before[ref := StoredQuote(ref, CitedID(stored, citations[n - 1]), host.trusted[ref].rest)]
  }

  predicate ValidPatch(host: Host, p: Patch) {
    && (p.claim.Some? ==> !Blank(p.claim.value))
    && (p.confidence.Some? ==> Level(ToLower(Trim(p.confidence.value))))
    && (p.citations.Some? ==>
          p.citations.value != [] && forall i :: 0 <= i < |p.citations.value| ==> Citable(host, p.citations.value[i]))
  }

  function PatchedItem(item: Item, stored: Catalogue, p: Patch): Item {
    item.(claim := if p.claim.Some? then Trim(p.claim.value) else item.claim,
          confidence := if p.confidence.Some? then ToLower(Trim(p.confidence.value)) else item.confidence,
          quoteIDs := if p.citations.Some? then Some(CitedIDs(stored, p.citations.value)) else item.quoteIDs)
  }

  /** The items with the named one patched. */
  function Edited(items: seq<Item>, stored: Catalogue, patch: Option<Patch>): (edited: seq<Item>)
    ensures |edited| == |items|
  {
    if patch.None? then items
    else seq(|items|, i requires 0 <= i < |items| =>
               if items[i].id == Some(Trim(patch.value.id)) then PatchedItem(items[i], stored, patch.value)
               else items[i])
  }

  /** The first `n` items without the one to remove. */
  function Keep(items: seq<Item>, removeID: string, n: nat): seq<Item>
    requires n <= |items|
  {
    if n == 0 then []
    else if removeID != "" && items[n - 1].id == Some(removeID) then Keep(items, removeID, n - 1)
    else Keep(items, removeID, n - 1) + [items[n - 1]]
  }

  function Cites(item: Item): set<string> {
    if item.quoteIDs.None? then {} else
      var ids := item.quoteIDs.value;
      set id | id in ids
  }

  function Used(items: seq<Item>, n: nat): set<string>
    requires n <= |items|
  {
    if n == 0 then {} else Used(items, n - 1) + Cites(items[n - 1])
  }

  function IDsOf(catalogue: Catalogue): set<string> {
    set ref | ref in catalogue :: catalogue[ref].id
  }

  predicate AllCite(items: seq<Item>, n: nat)
    requires n <= |items|
  {
    forall i :: 0 <= i < n ==> items[i].quoteIDs.Some? && items[i].quoteIDs.value != []
  }

  predicate AllRated(items: seq<Item>, n: nat)
    requires n <= |items|
  {
    forall i :: 0 <= i < n ==> !Blank(items[i].claim) && Level(items[i].confidence)
  }

  predicate Names(items: seq<Item>, id: string) {
    exists i :: 0 <= i < |items| && items[i].id == Some(id)
  }

  predicate PatchFits(items: seq<Item>, host: Host, patch: Option<Patch>) {
    patch.Some? ==> Trim(patch.value.id) != "" && Names(items, Trim(patch.value.id)) && ValidPatch(host, patch.value)
  }

  function ItemsAfter(items: seq<Item>, quotes: seq<StoredQuote>, args: Args): seq<Item> {
    Keep(Edited(items, Stored(quotes, |quotes|), args.patch), Trim(args.removeID), |items|)
  }

  function CatalogueAfter(items: seq<Item>, quotes: seq<StoredQuote>, args: Args, host: Host): Catalogue
    requires PatchFits(items, host, args.patch)
  {
    var stored := Stored(quotes, |quotes|);
    if args.patch.Some? && args.patch.value.citations.Some? then
      WithCited(stored, host, args.patch.value.citations.value, |args.patch.value.citations.value|)
    else stored
  }

  /** When the change is accepted. */
  predicate Accepts(items: seq<Item>, quotes: seq<StoredQuote>, args: Args, host: Host) {
    && ValidIDs(items, |items|) && PatchFits(items, host, args.patch)
    && var after := ItemsAfter(items, quotes, args);
       && AllCite(after, |after|) && AllRated(after, |after|)
       && Used(after, |after|) <= IDsOf(CatalogueAfter(items, quotes, args, host))
  }

  /** The quotes that stay: those some surviving item cites. */
  function QuotesAfter(items: seq<Item>, quotes: seq<StoredQuote>, args: Args, host: Host): set<StoredQuote>
    requires Accepts(items, quotes, args, host)
  {
    var after := ItemsAfter(items, quotes, args);
    KeptQuotes(CatalogueAfter(items, quotes, args, host), Used(after, |after|))
  }

  // ------------------------------------------------------------ main results

  /** Referential closure: every item cites, every cited ID names a quote, and every quote is
      cited. */
  ghost predicate ClosedUnder(items: seq<Item>, quotes: set<StoredQuote>) {
    && (forall i :: 0 <= i < |items| ==> Cites(items[i]) != {})
    && (forall i, id :: 0 <= i < |items| && id in Cites(items[i]) ==> exists q :: q in quotes && q.id == id)
    && forall q :: q in quotes ==> exists i :: 0 <= i < |items| && q.id in Cites(items[i])
  }

  lemma {:induction false} UsedIsCited(items: seq<Item>, n: nat)
    requires n <= |items|
    ensures forall i, id :: 0 <= i < n && id in Cites(items[i]) ==> id in Used(items, n)
    ensures forall id :: id in Used(items, n) ==> exists i :: 0 <= i < n && id in Cites(items[i])
  {
    if n > 0 {
      UsedIsCited(items, n - 1);
    }
  }

  /** Which items survive, and in which order. */
  lemma {:induction false} KeepIsSubsequence(items: seq<Item>, removeID: string, n: nat) returns (from: seq<nat>)
    requires n <= |items|
    ensures |from| == |Keep(items, removeID, n)|
    ensures forall i :: 0 <= i < |from| ==> from[i] < n && Keep(items, removeID, n)[i] == items[from[i]]
    ensures forall i, j :: 0 <= i < j < |from| ==> from[i] < from[j]
    ensures forall k :: 0 <= k < n ==> (k in from <==> removeID == "" || items[k].id != Some(removeID))
  {
    if n == 0 {
      from := [];
    } else {
      var rest := KeepIsSubsequence(items, removeID, n - 1);
      if removeID != "" && items[n - 1].id == Some(removeID) {
        from := rest;
        assert n - 1 !in rest;
      } else {
        from := rest + [n - 1];
        forall k | 0 <= k < n ensures k in from <==> k in rest || k == n - 1 {
          assert from[|rest|] == n - 1;
        }
      }
    }
  }

  /** The catalogue's quotes with a used ID. */
  function KeptQuotes(catalogue: Catalogue, used: set<string>): set<StoredQuote> {
    set ref | ref in catalogue && catalogue[ref].id in used :: catalogue[ref]
  }

  lemma KeptIsClosed(items: seq<Item>, catalogue: Catalogue)
    requires AllCite(items, |items|) && Used(items, |items|) <= IDsOf(catalogue)
    ensures ClosedUnder(items, KeptQuotes(catalogue, Used(items, |items|)))
  {
    var used := Used(items, |items|);
    UsedIsCited(items, |items|);
    forall i | 0 <= i < |items| ensures Cites(items[i]) != {} {
      assert items[i].quoteIDs.value[0] in Cites(items[i]);
    }
    forall i, id | 0 <= i < |items| && id in Cites(items[i])
      ensures exists q :: q in KeptQuotes(catalogue, used) && q.id == id
    {
      assert id in IDsOf(catalogue);
      var ref :| ref in catalogue && catalogue[ref].id == id;
      assert catalogue[ref] in KeptQuotes(catalogue, used);
    }
  }

  /** What a knowledge file should be: referentially closed, with unique item IDs and every item
      rated. */
  ghost predicate Sound(items: seq<Item>, quotes: set<StoredQuote>) {
    ClosedUnder(items, quotes) && ValidIDs(items, |items|) && AllRated(items, |items|)
  }

  /** An accepted change leaves the file sound. */
  lemma ChangeKeepsClosure(items: seq<Item>, quotes: seq<StoredQuote>, args: Args, host: Host)
    requires Accepts(items, quotes, args, host)
    ensures Sound(ItemsAfter(items, quotes, args), QuotesAfter(items, quotes, args, host))
  {
    var after, edited := ItemsAfter(items, quotes, args), Edited(items, Stored(quotes, |quotes|), args.patch);
    KeptIsClosed(after, CatalogueAfter(items, quotes, args, host));
    var from := KeepIsSubsequence(edited, Trim(args.removeID), |items|);
    EditedKeepsIDs(items, Stored(quotes, |quotes|), args.patch);
    KeptIDs(items, edited, after, from);
  }

  lemma EditedKeepsIDs(items: seq<Item>, stored: Catalogue, patch: Option<Patch>)
    ensures var edited := Edited(items, stored, patch);
            forall i :: 0 <= i < |items| ==> edited[i].id == items[i].id && edited[i].rest == items[i].rest
  {
  }

  lemma KeptIDs(items: seq<Item>, edited: seq<Item>, after: seq<Item>, from: seq<nat>)
    requires ValidIDs(items, |items|) && |edited| == |items| && |from| == |after|
    requires forall i :: 0 <= i < |items| ==> edited[i].id == items[i].id
    requires forall i :: 0 <= i < |from| ==> from[i] < |items| && after[i] == edited[from[i]]
    requires forall i, j :: 0 <= i < j < |from| ==> from[i] < from[j]
    ensures ValidIDs(after, |after|)
  {
    forall i | 0 <= i < |after| ensures after[i].id.Some? && !Blank(after[i].id.value) {
      assert after[i].id == items[from[i]].id;
    }
    forall i, j | 0 <= i < j < |after| ensures after[i].id != after[j].id {
      assert items[from[i]].id != items[from[j]].id;
    }
  }

  /** Every item but the one patched or removed is untouched and in its place in the order. */
  lemma OthersAreUntouched(items: seq<Item>, quotes: seq<StoredQuote>, args: Args, host: Host) returns (from: seq<nat>)
    requires Accepts(items, quotes, args, host)
    ensures var after := ItemsAfter(items, quotes, args);
            && |from| == |after| && (forall i, j :: 0 <= i < j < |from| ==> from[i] < from[j])
            && (forall i :: 0 <= i < |from| ==>
                  from[i] < |items| && after[i].id == items[from[i]].id && after[i].rest == items[from[i]].rest
                  && (args.patch.None? || items[from[i]].id != Some(Trim(args.patch.value.id)) ==>
                           after[i] == items[from[i]]))
            && forall k :: 0 <= k < |items| ==>
                 (k in from <==> Trim(args.removeID) == "" || items[k].id != Some(Trim(args.removeID)))
  {
    var edited := Edited(items, Stored(quotes, |quotes|), args.patch);
    EditedKeepsIDs(items, Stored(quotes, |quotes|), args.patch);
    from := KeepIsSubsequence(edited, Trim(args.removeID), |items|);
  }

  // ------------------------------------------------------ what a change does

  /** The stored quote that counts for its reference: no later usable one has it. */
  ghost predicate Current(quotes: seq<StoredQuote>, n: nat, q: StoredQuote)
    requires n <= |quotes|
  {
    && q.ref != "" && q.id != ""
    && exists k :: 0 <= k < n && quotes[k] == q && Latest(quotes, n, k)
  }

  ghost predicate Latest(quotes: seq<StoredQuote>, n: nat, k: nat)
    requires k < n <= |quotes|
  {
    forall j :: k < j < n && quotes[j].ref == quotes[k].ref ==> quotes[j].id == ""
  }

  /** What a cited reference stands for: the quote stored for it, or else the trusted one under
      a derived ID. */
  ghost predicate StandsFor(q: StoredQuote, rawRef: string, quotes: seq<StoredQuote>, host: Host) {
    && q.ref == Trim(rawRef)
    && (Current(quotes, |quotes|, q)
        || (&& (forall s :: Current(quotes, |quotes|, s) ==> s.ref != q.ref)
            && q.ref in host.trusted && q == StoredQuote(q.ref, DerivedID(q.ref), host.trusted[q.ref].rest)))
  }

  ghost predicate ResolvesTo(rawRef: string, id: string, quotes: seq<StoredQuote>, host: Host) {
    exists q :: StandsFor(q, rawRef, quotes, host) && q.id == id
  }

  /** `ids` name, in order, what the references stand for. */
  ghost predicate CitesInOrder(ids: seq<string>, citations: seq<string>, quotes: seq<StoredQuote>, host: Host) {
    && |ids| == |citations|
    && forall k :: 0 <= k < |ids| ==> ResolvesTo(citations[k], ids[k], quotes, host)
  }

  /** The item as the patch wants it: each field it mentions, and no other. */
  ghost predicate PatchedAs(before: Item, after: Item, p: Patch, quotes: seq<StoredQuote>, host: Host) {
    && after.id == before.id && after.rest == before.rest
    && (p.claim.None? ==> after.claim == before.claim)
    && (p.claim.Some? ==> after.claim == Trim(p.claim.value) && !Blank(p.claim.value))
    && (p.confidence.None? ==> after.confidence == before.confidence)
    && (p.confidence.Some? ==> after.confidence == ToLower(Trim(p.confidence.value)) && Level(after.confidence))
    && (p.citations.None? ==> after.quoteIDs == before.quoteIDs)
    && (p.citations.Some? ==>
          after.quoteIDs.Some? && CitesInOrder(after.quoteIDs.value, p.citations.value, quotes, host))
  }

  ghost predicate PatchMade(before: seq<Item>, after: seq<Item>, p: Patch, quotes: seq<StoredQuote>, host: Host) {
    && |after| == |before| && Names(before, Trim(p.id))
    && forall k :: 0 <= k < |before| ==>
         if before[k].id == Some(Trim(p.id)) then PatchedAs(before[k], after[k], p, quotes, host)
         else after[k] == before[k]
  }

  /** The one item of this ID is gone, if there is one and an ID is given. */
  ghost predicate Removed(before: seq<Item>, after: seq<Item>, id: string) {
    if id == "" || !Names(before, id) then after == before
    else exists k :: 0 <= k < |before| && before[k].id == Some(id) && after == before[..k] + before[k + 1..]
  }

  /** The patched item is patched, the removed one gone, and the others are as they were. */
  ghost predicate Changed(before: seq<Item>, after: seq<Item>, args: Args, quotes: seq<StoredQuote>, host: Host) {
    exists edited ::
      && (if args.patch.Some? then PatchMade(before, edited, args.patch.value, quotes, host) else edited == before)
      && Removed(edited, after, Trim(args.removeID))
  }

  ghost predicate CitedAnew(q: StoredQuote, args: Args, quotes: seq<StoredQuote>, host: Host) {
    && args.patch.Some? && args.patch.value.citations.Some?
    && exists rawRef :: rawRef in args.patch.value.citations.value && StandsFor(q, rawRef, quotes, host)
  }

  /** The quotes kept are those stored before or cited by the patch that some item still cites. */
  ghost predicate Retained(after: seq<Item>, kept: set<StoredQuote>, args: Args, quotes: seq<StoredQuote>,
                           host: Host) {
    forall q :: q in kept <==> (exists i :: 0 <= i < |after| && q.id in Cites(after[i]))
                               && (Current(quotes, |quotes|, q) || CitedAnew(q, args, quotes, host))
  }

  lemma {:induction false} StoredIsCurrent(quotes: seq<StoredQuote>, n: nat, q: StoredQuote)
    requires n <= |quotes|
    ensures q.ref in Stored(quotes, n) && Stored(quotes, n)[q.ref] == q <==> Current(quotes, n, q)
  {
    if n > 0 {
      StoredIsCurrent(quotes, n - 1, q);
      OneMoreStored(quotes, n, q);
    }
  }

  lemma OneMoreStored(quotes: seq<StoredQuote>, n: nat, q: StoredQuote)
    requires 0 < n <= |quotes|
    ensures var last := quotes[n - 1];
            Current(quotes, n, q) <==>
              if last.ref == q.ref && last.ref != "" && last.id != "" then last == q else Current(quotes, n - 1, q)
  {
    var last := quotes[n - 1];
    if last.ref == q.ref && last.ref != "" && last.id != "" {
      if last == q {
        assert Latest(quotes, n, n - 1);
      }
    } else {
      if Current(quotes, n - 1, q) {
        var k :| 0 <= k < n - 1 && quotes[k] == q && Latest(quotes, n - 1, k);
        assert Latest(quotes, n, k);
      }
      if Current(quotes, n, q) {
        var k :| 0 <= k < n && quotes[k] == q && Latest(quotes, n, k);
        assert k < n - 1 && Latest(quotes, n - 1, k);
      }
    }
  }

  lemma {:induction false} StoredUnderRef(quotes: seq<StoredQuote>, n: nat)
    requires n <= |quotes|
    ensures forall ref :: ref in Stored(quotes, n) ==>
              ref != "" && Stored(quotes, n)[ref].ref == ref && Stored(quotes, n)[ref].id != ""
  {
    if n > 0 {
      StoredUnderRef(quotes, n - 1);
    }
  }

  /** Which quotes the catalogue holds under which reference. */
  ghost predicate Catalogued(stored: Catalogue, catalogue: Catalogue, host: Host, citations: seq<string>, n: nat)
    requires n <= |citations|
  {
    && (forall ref :: ref in stored ==> ref in catalogue && catalogue[ref] == stored[ref])
    && (forall k :: 0 <= k < n ==> Trim(citations[k]) in catalogue)
    && forall ref :: ref in catalogue && ref !in stored ==>
         && ref in host.trusted && catalogue[ref] == StoredQuote(ref, DerivedID(ref), host.trusted[ref].rest)
         && exists k :: 0 <= k < n && Trim(citations[k]) == ref
  }

  lemma {:induction false} CitedAreCatalogued(stored: Catalogue, host: Host, citations: seq<string>, n: nat)
    requires n <= |citations| && forall i :: 0 <= i < n ==> Citable(host, citations[i])
    ensures Catalogued(stored, WithCited(stored, host, citations, n), host, citations, n)
  {
    hide Trim, CitedID, DerivedID;
    if n > 0 {
      hide Catalogued;
      CitedAreCatalogued(stored, host, citations, n - 1);
      assert Citable(host, citations[n - 1]);
      CataloguedOneMore(stored, WithCited(stored, host, citations, n - 1), host, citations, n);
    }
  }

  lemma CataloguedOneMore(stored: Catalogue, before: Catalogue, host: Host, citations: seq<string>, n: nat)
    requires 0 < n <= |citations| && Catalogued(stored, before, host, citations, n - 1)
    requires Citable(host, citations[n - 1])
    ensures var ref := Trim(citations[n - 1]);
            Catalogued(stored, if ref in before then before
                               else before[ref := StoredQuote(ref, CitedID(stored, citations[n - 1]),
                                                              host.trusted[ref].rest)], host, citations, n)
  {
    hide Trim, DerivedID;
  }

  /** What is catalogued under a cited reference is what the reference stands for. */
  lemma CataloguedStandsFor(quotes: seq<StoredQuote>, catalogue: Catalogue, host: Host, citations: seq<string>, k: nat)
    requires k < |citations| && Catalogued(Stored(quotes, |quotes|), catalogue, host, citations, |citations|)
    ensures var ref := Trim(citations[k]);
            && ref in catalogue && catalogue[ref].id == CitedID(Stored(quotes, |quotes|), citations[k])
            && StandsFor(catalogue[ref], citations[k], quotes, host)
  {
    var stored, ref := Stored(quotes, |quotes|), Trim(citations[k]);
    StoredUnderRef(quotes, |quotes|);
    if ref in stored {
      StoredIsCurrent(quotes, |quotes|, stored[ref]);
    } else {
      forall s | Current(quotes, |quotes|, s) ensures s.ref != ref {
        StoredIsCurrent(quotes, |quotes|, s);
      }
    }
  }

  lemma StandsForOne(p: StoredQuote, q: StoredQuote, rawRef: string, quotes: seq<StoredQuote>, host: Host)
    requires StandsFor(p, rawRef, quotes, host) && StandsFor(q, rawRef, quotes, host)
    ensures p == q
  {
    StoredIsCurrent(quotes, |quotes|, p);
    StoredIsCurrent(quotes, |quotes|, q);
  }

  lemma ItemPatched(item: Item, p: Patch, quotes: seq<StoredQuote>, host: Host)
    requires ValidPatch(host, p)
    ensures PatchedAs(item, PatchedItem(item, Stored(quotes, |quotes|), p), p, quotes, host)
  {
    hide CitesInOrder, Trim, Citable, Stored, CitedIDs, Level, ToLower;
    if p.citations.Some? {
      CitationsResolve(p.citations.value, quotes, host);
    }
    if p.claim.Some? {
      assert !Blank(p.claim.value);
    }
  }

  lemma CitationsResolve(citations: seq<string>, quotes: seq<StoredQuote>, host: Host)
    requires forall i :: 0 <= i < |citations| ==> Citable(host, citations[i])
    ensures CitesInOrder(CitedIDs(Stored(quotes, |quotes|), citations), citations, quotes, host)
  {
    var stored := Stored(quotes, |quotes|);
    CitedAreCatalogued(stored, host, citations, |citations|);
    var catalogue := WithCited(stored, host, citations, |citations|);
    ResolveEach(citations, catalogue, quotes, host);
  }

  lemma ResolveEach(citations: seq<string>, catalogue: Catalogue, quotes: seq<StoredQuote>, host: Host)
    requires Catalogued(Stored(quotes, |quotes|), catalogue, host, citations, |citations|)
    ensures CitesInOrder(CitedIDs(Stored(quotes, |quotes|), citations), citations, quotes, host)
  {
    var stored := Stored(quotes, |quotes|);
    hide Catalogued, StandsFor, Stored, CitedID, Trim;
    forall k | 0 <= k < |citations|
      ensures ResolvesTo(citations[k], CitedIDs(stored, citations)[k], quotes, host)
    {
      CataloguedStandsFor(quotes, catalogue, host, citations, k);
    }
  }

  lemma ItemsPatched(items: seq<Item>, p: Patch, quotes: seq<StoredQuote>, host: Host)
    requires PatchFits(items, host, Some(p))
    ensures PatchMade(items, Edited(items, Stored(quotes, |quotes|), Some(p)), p, quotes, host)
  {
    hide PatchedAs, PatchedItem, ValidPatch, Names;
    forall k | 0 <= k < |items| && items[k].id == Some(Trim(p.id))
      ensures PatchedAs(items[k], PatchedItem(items[k], Stored(quotes, |quotes|), p), p, quotes, host)
    {
      ItemPatched(items[k], p, quotes, host);
    }
  }

  lemma {:induction false} NothingRemoved(items: seq<Item>, removeID: string, n: nat)
    requires n <= |items| && forall k :: 0 <= k < n ==> removeID == "" || items[k].id != Some(removeID)
    ensures Keep(items, removeID, n) == items[..n]
  {
    if n > 0 {
      NothingRemoved(items, removeID, n - 1);
      assert items[..n] == items[..n - 1] + [items[n - 1]];
    }
  }

  lemma {:induction false} OneRemoved(items: seq<Item>, removeID: string, n: nat, k: nat)
    requires k < n <= |items| && ValidIDs(items, n) && removeID != "" && items[k].id == Some(removeID)
    ensures Keep(items, removeID, n) == items[..k] + items[k + 1..n]
  {
    if k == n - 1 {
      NothingRemoved(items, removeID, k);
      assert items[k + 1..n] == [];
    } else {
      OneRemoved(items, removeID, n - 1, k);
      assert items[k].id != items[n - 1].id;
      assert items[k + 1..n] == items[k + 1..n - 1] + [items[n - 1]];
    }
  }

  lemma KeepRemoves(items: seq<Item>, removeID: string)
    requires ValidIDs(items, |items|)
    ensures Removed(items, Keep(items, removeID, |items|), removeID)
  {
    if removeID == "" || !Names(items, removeID) {
      NothingRemoved(items, removeID, |items|);
      assert items[..|items|] == items;
    } else {
      var k :| 0 <= k < |items| && items[k].id == Some(removeID);
      OneRemoved(items, removeID, |items|, k);
      assert items[k + 1..|items|] == items[k + 1..];
    }
  }

  /** An accepted change does what it says and nothing else. */
  lemma ChangeIsMade(items: seq<Item>, quotes: seq<StoredQuote>, args: Args, host: Host)
    requires Accepts(items, quotes, args, host)
    ensures Changed(items, ItemsAfter(items, quotes, args), args, quotes, host)
  {
    var stored := Stored(quotes, |quotes|);
    var edited := Edited(items, stored, args.patch);
    hide PatchMade, Removed, AllCite, AllRated, Used, IDsOf, PatchFits;
    if args.patch.Some? {
      ItemsPatched(items, args.patch.value, quotes, host);
    }
    EditedKeepsIDs(items, stored, args.patch);
    KeepRemoves(edited, Trim(args.removeID));
    assert Removed(edited, ItemsAfter(items, quotes, args), Trim(args.removeID));
  }

  /** A quote is catalogued after the change exactly when it was stored or is cited anew. */
  lemma CatalogueIs(items: seq<Item>, quotes: seq<StoredQuote>, args: Args, host: Host, q: StoredQuote)
    requires PatchFits(items, host, args.patch)
    ensures var catalogue := CatalogueAfter(items, quotes, args, host);
            (q.ref in catalogue && catalogue[q.ref] == q)
            <==> Current(quotes, |quotes|, q) || CitedAnew(q, args, quotes, host)
    ensures var catalogue := CatalogueAfter(items, quotes, args, host);
            forall ref :: ref in catalogue ==> catalogue[ref].ref == ref
  {
    var stored, catalogue := Stored(quotes, |quotes|), CatalogueAfter(items, quotes, args, host);
    StoredUnderRef(quotes, |quotes|);
    StoredIsCurrent(quotes, |quotes|, q);
    if args.patch.Some? && args.patch.value.citations.Some? {
      var citations := args.patch.value.citations.value;
      CitedAreCatalogued(stored, host, citations, |citations|);
      CitedIsCatalogued(quotes, catalogue, host, citations, q);
    }
  }

  lemma CitedIsCatalogued(quotes: seq<StoredQuote>, catalogue: Catalogue, host: Host, citations: seq<string>,
                          q: StoredQuote)
    requires Catalogued(Stored(quotes, |quotes|), catalogue, host, citations, |citations|)
    ensures (q.ref in catalogue && catalogue[q.ref] == q)
            <==> Current(quotes, |quotes|, q)
                 || exists rawRef :: rawRef in citations && StandsFor(q, rawRef, quotes, host)
  {
    var stored := Stored(quotes, |quotes|);
    StoredIsCurrent(quotes, |quotes|, q);
    StoredUnderRef(quotes, |quotes|);
    if q.ref in catalogue && catalogue[q.ref] == q && q.ref !in stored {
      var k :| 0 <= k < |citations| && Trim(citations[k]) == q.ref;
      CataloguedStandsFor(quotes, catalogue, host, citations, k);
      assert citations[k] in citations;
    }
    hide Current, Stored, Catalogued;
    if rawRef :| rawRef in citations && StandsFor(q, rawRef, quotes, host) {
      var k :| 0 <= k < |citations| && citations[k] == rawRef;
      CataloguedStandsFor(quotes, catalogue, host, citations, k);
      StandsForOne(catalogue[Trim(rawRef)], q, rawRef, quotes, host);
    }
  }

  lemma QuotesAreRetained(items: seq<Item>, quotes: seq<StoredQuote>, args: Args, host: Host)
    requires Accepts(items, quotes, args, host)
    ensures Retained(ItemsAfter(items, quotes, args), QuotesAfter(items, quotes, args, host), args, quotes, host)
  {
    var after, catalogue := ItemsAfter(items, quotes, args), CatalogueAfter(items, quotes, args, host);
    UsedIsCited(after, |after|);
    hide Current, CitedAnew, CatalogueAfter, ItemsAfter, Used, Cites;
    forall q
      ensures q in KeptQuotes(catalogue, Used(after, |after|)) <==>
                (exists i :: 0 <= i < |after| && q.id in Cites(after[i]))
                && (Current(quotes, |quotes|, q) || CitedAnew(q, args, quotes, host))
    {
      CatalogueIs(items, quotes, args, host, q);
    }
  }

  /** What a single accepted change leaves: a sound file in which the patched item is patched, or
      the named one gone, with every other item as it was. */
  ghost predicate Repaired(before: seq<Item>, quotes: seq<StoredQuote>, args: Args, host: Host, after: seq<Item>,
                           kept: set<StoredQuote>) {
    && Sound(after, kept) && Retained(after, kept, args, quotes, host)
    && (if args.patch.Some? then PatchMade(before, after, args.patch.value, quotes, host)
        else Removed(before, after, Trim(args.removeID)))
  }

  lemma OneChange(before: seq<Item>, quotes: seq<StoredQuote>, args: Args, host: Host, after: seq<Item>,
                  kept: set<StoredQuote>)
    requires args.patch.None? != Blank(args.removeID) && Changed(before, after, args, quotes, host)
    requires Sound(after, kept) && Retained(after, kept, args, quotes, host)
    ensures Repaired(before, quotes, args, host, after, kept)
  {
    hide PatchMade, Trim, Sound, Retained;
    TrimBlank(args.removeID);
  }

  // ------------------------------------------------------------- the method

  /** The decoded document, edited in place. */
  class Document {
    var items: seq<Item>
    var quotes: seq<StoredQuote>

    constructor (items: seq<Item>, quotes: seq<StoredQuote>)
      ensures this.items == items && this.quotes == quotes
    {
      this.items, this.quotes := items, quotes;
    }

    method Apply(args: Args, host: Host) returns (issue: Option<Issue>)
      modifies this
      ensures issue.None? <==> Accepts(old(items), old(quotes), args, host)
      ensures issue.None? ==> items == ItemsAfter(old(items), old(quotes), args)
      ensures issue.None? ==> Members(quotes) == QuotesAfter(old(items), old(quotes), args, host)
      ensures issue.None? ==> Changed(old(items), items, args, old(quotes), host)
      ensures issue.None? ==> Retained(items, Members(quotes), args, old(quotes), host)
    {
      ghost var items0, quotes0 := items, quotes;
      issue := CheckIDs(items);
      if issue.Some? {
        return;
      }
      var stored := StoredByRef(quotes);
      var edited, catalogue;
      issue, edited, catalogue := ApplyPatch(items, stored, args.patch, host);
      if issue.Some? {
        return;
      }
      assert catalogue == CatalogueAfter(items, quotes, args, host);
      items := Filter(edited, Trim(args.removeID));
      assert items == ItemsAfter(old(items), quotes, args);
      var used;
      issue, used := CollectUsed(items);
      if issue.Some? {
        return;
      }
      var known := set ref | ref in catalogue :: catalogue[ref].id;
      if !(used <= known) {
        return Some(UnknownQuote);
      }
      quotes := KeepUsed(catalogue, used);
      issue := CheckRated(items);
      if issue.None? {
        ChangeIsMade(items0, quotes0, args, host);
        QuotesAreRetained(items0, quotes0, args, host);
      }
    }
  }

  method CheckIDs(items: seq<Item>) returns (issue: Option<Issue>)
    ensures issue.None? <==> ValidIDs(items, |items|)
  {
    var seen: set<string> := {};
    for i := 0 to |items|
      invariant ValidIDs(items, i) && seen == set k | 0 <= k < i :: items[k].id.value
    {
      if items[i].id.None? || Blank(items[i].id.value) {
        return Some(BadItemID);
      }
      if items[i].id.value in seen {
        return Some(DuplicateItemID);
      }
      seen := seen + {items[i].id.value};
    }
    return None;
  }

  method StoredByRef(quotes: seq<StoredQuote>) returns (stored: Catalogue)
    ensures stored == Stored(quotes, |quotes|)
  {
    stored := map[];
    for i := 0 to |quotes|
      invariant stored == Stored(quotes, i)
    {
      if quotes[i].ref != "" && quotes[i].id != "" {
        stored := stored[quotes[i].ref := quotes[i]];
      }
    }
  }

  method ApplyPatch(items: seq<Item>, stored: Catalogue, patch: Option<Patch>, host: Host)
    returns (issue: Option<Issue>, edited: seq<Item>, catalogue: Catalogue)
    requires ValidIDs(items, |items|)
    ensures issue.None? <==> PatchFits(items, host, patch)
    ensures issue.None? ==> edited == Edited(items, stored, patch)
    ensures issue.None? ==>
              catalogue == if patch.Some? && patch.value.citations.Some?
                           then WithCited(stored, host, patch.value.citations.value, |patch.value.citations.value|)
                           else stored
  {
    issue, edited, catalogue := None, items, stored;
    if patch.None? {
      return;
    }
    var p := patch.value;
    var id := Trim(p.id);
    if id == "" {
      issue := Some(EmptyPatchID);
      return;
    }
    var index := FindItem(items, id);
    if index == |items| {
      issue := Some(UnknownItem);
      return;
    }
    var item := items[index];
    if p.claim.Some? {
      TrimBlank(p.claim.value);
      if Trim(p.claim.value) == "" {
        issue := Some(EmptyClaim);
        return;
      }
      item := item.(claim := Trim(p.claim.value));
    }
    if p.confidence.Some? {
      var confidence := ToLower(Trim(p.confidence.value));
      if !Level(confidence) {
        issue := Some(BadConfidence);
        return;
      }
      item := item.(confidence := confidence);
    }
    if p.citations.Some? {
      var quoteIDs;
      issue, quoteIDs, catalogue := Cite(stored, host, p.citations.value);
      if issue.Some? {
        return;
      }
      item := item.(quoteIDs := Some(quoteIDs));
    }
    edited := items[index := item];
    assert edited == Edited(items, stored, patch);
  }

  /** The index that the ID map gives; the length when there is none. */
  method FindItem(items: seq<Item>, id: string) returns (index: nat)
    ensures index <= |items| && (index == |items| <==> !Names(items, id))
    ensures index < |items| ==> items[index].id == Some(id)
  {
    for i := 0 to |items|
      invariant forall k :: 0 <= k < i ==> items[k].id != Some(id)
    {
      if items[i].id == Some(id) {
        return i;
      }
    }
    return |items|;
  }

  method Cite(stored: Catalogue, host: Host, citations: seq<string>)
    returns (issue: Option<Issue>, quoteIDs: seq<string>, catalogue: Catalogue)
    ensures issue.None? <==> citations != [] && forall i :: 0 <= i < |citations| ==> Citable(host, citations[i])
    ensures issue.None? ==>
              quoteIDs == CitedIDs(stored, citations) && catalogue == WithCited(stored, host, citations, |citations|)
  {
    hide Trim, DerivedID;
    quoteIDs, catalogue := [], stored;
    if |citations| == 0 {
      return Some(NoCitations), quoteIDs, catalogue;
    }
    for i := 0 to |citations|
      invariant forall k :: 0 <= k < i ==> Citable(host, citations[k])
      invariant |quoteIDs| == i && forall k :: 0 <= k < i ==> quoteIDs[k] == CitedID(stored, citations[k])
      invariant catalogue == WithCited(stored, host, citations, i)
    {
      var ref := Trim(citations[i]);
      if ref !in host.trusted || !host.trusted[ref].submitReady {
        return Some(UntrustedQuote), quoteIDs, catalogue;
      }
      if host.trusted[ref].artifactID !in host.authorized {
        return Some(UnauthorizedQuote), quoteIDs, catalogue;
      }
      var quoteID := if ref in stored then stored[ref].id else "";
      if quoteID == "" {
        quoteID := DerivedID(ref);
      }
      quoteIDs := quoteIDs + [quoteID];
      if ref !in catalogue {
        catalogue := catalogue[ref := StoredQuote(ref, quoteID, host.trusted[ref].rest)];
      }
    }
    issue := None;
  }

  method Filter(items: seq<Item>, removeID: string) returns (kept: seq<Item>)
    ensures kept == Keep(items, removeID, |items|)
  {
    kept := [];
    for i := 0 to |items|
      invariant kept == Keep(items, removeID, i)
    {
      if !(removeID != "" && items[i].id == Some(removeID)) {
        kept := kept + [items[i]];
      }
    }
  }

  method CollectUsed(items: seq<Item>) returns (issue: Option<Issue>, used: set<string>)
    ensures issue.None? <==> AllCite(items, |items|)
    ensures issue.None? ==> used == Used(items, |items|)
  {
    used := {};
    for i := 0 to |items|
      invariant AllCite(items, i) && used == Used(items, i)
    {
      if items[i].quoteIDs.None? || |items[i].quoteIDs.value| == 0 {
        return Some(ItemWithoutCitations), used;
      }
      used := used + Cites(items[i]);
    }
    issue := None;
  }

  function Members(quotes: seq<StoredQuote>): set<StoredQuote> {
    set q | q in quotes
  }

  /** The used quotes, in the order the map yields them. */
  method KeepUsed(catalogue: Catalogue, used: set<string>) returns (kept: seq<StoredQuote>)
    ensures Members(kept) == KeptQuotes(catalogue, used)
  {
    kept := [];
    var rest := catalogue.Keys;
    while rest != {}
      invariant rest <= catalogue.Keys
      invariant forall q :: q in kept <==>
                  exists ref :: ref in catalogue.Keys - rest && catalogue[ref].id in used && catalogue[ref] == q
    {
      var ref :| ref in rest;
      if catalogue[ref].id in used {
        kept := kept + [catalogue[ref]];
      }
      rest := rest - {ref};
    }
  }

  method CheckRated(items: seq<Item>) returns (issue: Option<Issue>)
    ensures issue.None? <==> AllRated(items, |items|)
  {
    for i := 0 to |items|
      invariant AllRated(items, i)
    {
      if Blank(items[i].claim) || !Level(items[i].confidence) {
        return Some(InvalidItem);
      }
    }
    return None;
  }

  lemma TrimBlank(s: string)
    ensures Trim(s) == "" <==> Blank(s)
  {
    TrimRightBlank(s);
    TrimLeftBlank(TrimRight(s));
  }

  lemma {:induction false} TrimRightBlank(s: string)
    ensures Blank(TrimRight(s)) <==> Blank(s)
  {
    if s != [] && IsSpace(s[|s| - 1]) {
      TrimRightBlank(s[..|s| - 1]);
      assert forall i :: 0 <= i < |s| - 1 ==> s[..|s| - 1][i] == s[i];
    }
  }

  lemma {:induction false} TrimLeftBlank(s: string)
    ensures TrimLeft(s) == "" <==> Blank(s)
  {
    if s != [] && IsSpace(s[0]) {
      TrimLeftBlank(s[1..]);
      assert forall i :: 0 < i < |s| ==> s[1..][i - 1] == s[i];
    }
  }

  /** The knowledge file: replaced as a whole, or not at all. */
  class KnowledgeFile {
    var items: seq<Item>
    var quotes: seq<StoredQuote>

    constructor (items: seq<Item>, quotes: seq<StoredQuote>)
      ensures this.items == items && this.quotes == quotes
    {
      this.items, this.quotes := items, quotes;
    }

    method PatchKnowledge(args: Args, host: Host) returns (issue: Option<Issue>)
      modifies this
      ensures issue.None? <==>
                (args.patch.None? != Blank(args.removeID)) && Accepts(old(items), old(quotes), args, host)
      ensures issue.Some? ==> items == old(items) && quotes == old(quotes)
      ensures issue.None? ==>
                && items == ItemsAfter(old(items), old(quotes), args)
                && Members(quotes) == QuotesAfter(old(items), old(quotes), args, host)
      ensures issue.None? ==> Repaired(old(items), old(quotes), args, host, items, Members(quotes))
    {
      hide *;
      if args.patch.None? == Blank(args.removeID) {
        return Some(SingleChangeRequired);
      }
      ghost var items0, quotes0 := items, quotes;
      var document := new Document(items, quotes);
      issue := document.Apply(args, host);
      if issue.None? {
        ChangeKeepsClosure(items0, quotes0, args, host);
        OneChange(items0, quotes0, args, host, document.items, Members(document.quotes));
        items, quotes := document.items, document.quotes;
      }
    }
  }
}
