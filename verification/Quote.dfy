/** Trusted quotes (internal/evidence/quote.go): text captured from a search, expanded by
    whole lines, and kept once per byte range.  Digests and references come from SHA-256,
    which is taken to be injective. */
module Quote {
  import opened Options
  import opened Text
  import opened Unicode

  const MAX_CONTEXT_LINES := 20
  const MAX_QUOTE_RUNES := 12000

  datatype Digest = Sha(content: string)
  datatype Key = Key(artifactID: string, digest: Digest, start: int, end: int)
  datatype Ref = RefOf(key: Key)
  datatype Locator = OneLine(line: int) | LineSpan(first: int, last: int)

  datatype Quote = Quote(ref: Ref, submitReady: bool, artifactID: string, digest: Digest, title: string, url: string,
                         locator: Locator, exact: string, startLine: int, endLine: int, start: int, end: int)

  datatype Artifact = Artifact(title: string, url: string, content: string)

  /** A search match as the search hands it over. */
  datatype Match = Match(line: int, endLine: int, text: string, digest: Option<Digest>, start: int, end: int)

  datatype Table = Table(byRef: map<Ref, Quote>, byRange: map<Key, Ref>)

  datatype Failure = NotFromSearch | BadContext | UnknownQuote | UnknownArtifact | ArtifactChanged
                   | IndexOutOfRange | EmptyRange | TooLong
  datatype Outcome = Captured(quote: Quote) | Failed(why: Failure)

  const EMPTY := Table(map[], map[])

  function KeyOf(q: Quote): Key {
    Key(q.artifactID, q.digest, q.start, q.end)
  }

  function Locate(first: int, last: int): Locator {
    if first == last then OneLine(first) else LineSpan(first, last)
  }

  /** The two maps are inverse to each other, and every reference is that of its range. */
  ghost predicate Inverse(t: Table) {
    && (forall ref :: ref in t.byRef ==>
          var key := KeyOf(t.byRef[ref]);
          t.byRef[ref].ref == ref == RefOf(key) && key in t.byRange && t.byRange[key] == ref)
    && forall key :: key in t.byRange ==> t.byRange[key] in t.byRef && KeyOf(t.byRef[t.byRange[key]]) == key
  }

  /** `store`: one quote per byte range, the first one kept. */
  function Store(t: Table, q: Quote): (Table, Quote)
    requires Inverse(t)
  {
    var key := KeyOf(q);
    if key in t.byRange then (t, t.byRef[t.byRange[key]])
    else
      var stored := q.(ref := RefOf(key));
      (Table(t.byRef[stored.ref := stored], t.byRange[key := stored.ref]), stored)
  }

  function CaptureIn(t: Table, artifacts: map<string, Artifact>, id: string, m: Match): (Table, Outcome)
    requires Inverse(t)
  {
    if m.digest.None? || m.start < 0 || m.end <= m.start then (t, Failed(NotFromSearch))
    else if id !in artifacts then (t, Failed(UnknownArtifact))
    else
      var key := Key(id, m.digest.value, m.start, m.end);
      var (t', q) := Store(t, Quote(RefOf(key), true, id, m.digest.value, artifacts[id].title, artifacts[id].url,
                                    Locate(m.line, m.endLine), m.text, m.line, m.endLine, m.start, m.end));
      (t', Captured(q))
  }

  function Max(a: int, b: int): int {
    if a < b then b else a
  }

  function Min(a: int, b: int): int {
    if a < b then a else b
  }

  /** Lines, and the bytes they cover. */
  datatype Span = Span(startLine: int, endLine: int, start: int, end: int)

  function SpanOf(q: Quote): Span {
    Span(q.startLine, q.endLine, q.start, q.end)
  }

  /** The lines of a span and those before and after it, as far as the text goes. */
  function Reach(startLine: int, endLine: int, starts: seq<LineStart>, total: nat, before: int, after: int): Span
    requires starts != []
  {
    var first := Max(1, startLine - before);
    var last := Min(endLine + after, starts[|starts| - 1].line);
    var (start, end) := LineRange(starts, first, last, total);
    Span(first, last, start, end)
  }

  /** The quote that `Expand` makes of `q` over the lines of a normalised text. */
  function Widen(q: Quote, text: string, starts: seq<LineStart>, before: int, after: int): Outcome {
    if starts == [] then Failed(IndexOutOfRange) else
      var s := Reach(q.startLine, q.endLine, starts, ByteLen(text), before, after);
      if s.start >= s.end then Failed(EmptyRange) else Reword(q, s, Trim(Cut(text, s.start, s.end)))
  }

  function Reword(q: Quote, s: Span, exact: string): Outcome {
    if |exact| > MAX_QUOTE_RUNES then Failed(TooLong)
    else Captured(Quote(RefOf(Key(q.artifactID, q.digest, s.start, s.end)), true, q.artifactID, q.digest,
                        q.title, q.url, Locate(s.startLine, s.endLine), exact, s.startLine, s.endLine, s.start, s.end))
  }

  function ExpandIn(t: Table, artifacts: map<string, Artifact>, ref: Ref, before: int, after: int): (Table, Outcome)
    requires Inverse(t)
  {
    if !(0 <= before <= MAX_CONTEXT_LINES && 0 <= after <= MAX_CONTEXT_LINES) then (t, Failed(BadContext))
    else if ref !in t.byRef then (t, Failed(UnknownQuote))
    else
      var base := t.byRef[ref];
      if base.artifactID !in artifacts then (t, Failed(UnknownArtifact))
      else
        var content := artifacts[base.artifactID].content;
        if Sha(content) != base.digest then (t, Failed(ArtifactChanged))
        else
          var wide := Widen(base, Normalize(content), Starts(content), before, after);
          if wide.Failed? then (t, wide)
          else
            var (t', q) := Store(t, wide.quote);
            (t', Captured(q))
  }

  // ---------------------------------------------------------------- the store

  /** Storing keeps the maps inverse and every earlier quote, and answers with the one quote
      of that range. */
  lemma StoreKeeps(t: Table, q: Quote)
    requires Inverse(t)
    ensures var (t', stored) := Store(t, q);
            && Inverse(t') && KeyOf(stored) == KeyOf(q) && stored.ref == RefOf(KeyOf(q))
            && stored.ref in t'.byRef && t'.byRef[stored.ref] == stored
            && (forall ref :: ref in t.byRef ==> ref in t'.byRef && t'.byRef[ref] == t.byRef[ref])
            && (forall ref :: ref in t'.byRef && ref !in t.byRef ==> t'.byRef[ref] == q.(ref := RefOf(KeyOf(q))))
  {
  }

  // --------------------------------------------------------------- grounding

  /** The lines and bytes belong together in this text: the range is a real one, on code
      points, and its bytes lie on the lines. */
  ghost predicate Grounded(s: Span, text: string, starts: seq<LineStart>) {
    && starts != []
    && 0 <= s.start < s.end <= ByteLen(text) && Boundary(text, s.start) && Boundary(text, s.end)
    && 1 <= s.startLine <= LineAt(starts, s.start)
    && LineAt(starts, s.end - 1) <= s.endLine <= starts[|starts| - 1].line
  }

  ghost predicate AllGrounded(t: Table) {
    forall ref :: ref in t.byRef ==> QuoteGrounded(t.byRef[ref])
  }

  /** A quote of its own text, which its locator and its range point at. */
  ghost predicate QuoteGrounded(q: Quote) {
    && q.submitReady && Locates(q.locator, q.startLine, q.endLine)
    && Quotes(q.exact, Normalize(q.digest.content), q.start, q.end)
    && Grounded(SpanOf(q), Normalize(q.digest.content), Starts(q.digest.content))
  }

  /** The locator names these lines, and one line exactly when they are the same. */
  ghost predicate Locates(locator: Locator, first: int, last: int) {
    && FirstLine(locator) == first && LastLine(locator) == last
    && (locator.OneLine? <==> first == last)
  }

  function FirstLine(locator: Locator): int {
    match locator
    case OneLine(line) => line
    case LineSpan(first, _) => first
  }

  function LastLine(locator: Locator): int {
    match locator
    case OneLine(line) => line
    case LineSpan(_, last) => last
  }

  /** The words of the range, whatever white space surrounds them. */
  ghost predicate Quotes(exact: string, text: string, start: int, end: int) {
    Trim(exact) == Trim(Cut(text, start, end))
  }

  lemma LocateLocates(first: int, last: int)
    ensures Locates(Locate(first, last), first, last)
  {
  }

  lemma ReachStart(text: string, starts: seq<LineStart>, line: int, start: nat)
    requires Mapping(text, starts) && Aligned(text, starts) && start < ByteLen(text) && line <= LineAt(starts, start)
    ensures var first := FirstByte(starts, line, ByteLen(text));
            first <= start && Boundary(text, first) && line <= LineAt(starts, first)
  {
    FirstByteSplits(text, starts, line, start);
    FirstByteSplits(text, starts, line, FirstByte(starts, line, ByteLen(text)));
    FirstByteOnBoundary(text, starts, line);
  }

  lemma ReachEnd(text: string, starts: seq<LineStart>, line: int, last: nat)
    requires Mapping(text, starts) && Aligned(text, starts) && last < ByteLen(text) && LineAt(starts, last) <= line
    ensures var end := FirstByte(starts, line + 1, ByteLen(text));
            last < end <= ByteLen(text) && Boundary(text, end) && LineAt(starts, end - 1) <= line
  {
    FirstByteSplits(text, starts, line + 1, last);
    FirstByteOnBoundary(text, starts, line + 1);
    FirstByteSplits(text, starts, line + 1, FirstByte(starts, line + 1, ByteLen(text)) - 1);
  }

  lemma ReachContains(s: Span, text: string, starts: seq<LineStart>, before: int, after: int)
    requires Mapping(text, starts) && Aligned(text, starts) && Grounded(s, text, starts) && before >= 0 && after >= 0
    ensures var r := Reach(s.startLine, s.endLine, starts, ByteLen(text), before, after);
            r.start <= s.start && s.end <= r.end && r.startLine <= r.endLine && Grounded(r, text, starts)
  {
    var first, last := Max(1, s.startLine - before), Min(s.endLine + after, starts[|starts| - 1].line);
    assert first <= LineAt(starts, s.start) <= LineAt(starts, s.end - 1) <= last by {
      LineAtGrows(starts, s.start, s.end - 1);
    }
    ReachStart(text, starts, first, s.start);
    ReachEnd(text, starts, last, s.end - 1);
    ReachIs(s, starts, ByteLen(text), before, after, first, last);
    GroundedReach(first, last, text, starts);
  }

  lemma ReachIs(s: Span, starts: seq<LineStart>, total: nat, before: int, after: int, first: int, last: int)
    requires starts != [] && first == Max(1, s.startLine - before)
             && last == Min(s.endLine + after, starts[|starts| - 1].line)
    ensures Reach(s.startLine, s.endLine, starts, total, before, after)
            == Span(first, last, FirstByte(starts, first, total), FirstByte(starts, last + 1, total))
  {
  }

  lemma GroundedReach(first: int, last: int, text: string, starts: seq<LineStart>)
    requires starts != [] && 1 <= first && last <= starts[|starts| - 1].line
    requires var start, end := FirstByte(starts, first, ByteLen(text)), FirstByte(starts, last + 1, ByteLen(text));
             && start < end <= ByteLen(text) && Boundary(text, start) && Boundary(text, end)
             && first <= LineAt(starts, start) && LineAt(starts, end - 1) <= last
    ensures var total := ByteLen(text);
            Grounded(Span(first, last, FirstByte(starts, first, total), FirstByte(starts, last + 1, total)),
                     text, starts)
  {
  }

  /** What is reached is exactly the bytes of the lines asked for, as far as the text goes. */
  lemma ReachIsExact(s: Span, text: string, starts: seq<LineStart>, before: int, after: int, o: nat)
    requires Mapping(text, starts) && o < ByteLen(text) && starts != []
    ensures var r := Reach(s.startLine, s.endLine, starts, ByteLen(text), before, after);
            && (r.start <= o < r.end <==> s.startLine - before <= LineAt(starts, o) <= s.endLine + after)
            && (r.startLine == s.startLine - before || (r.startLine == 1 > s.startLine - before))
            && (r.endLine == s.endLine + after
                || (r.endLine == starts[|starts| - 1].line < s.endLine + after))
  {
    var first, last := Max(1, s.startLine - before), Min(s.endLine + after, starts[|starts| - 1].line);
    ReachIs(s, starts, ByteLen(text), before, after, first, last);
    FoundOnLine(text, starts, o);
    FirstByteSplits(text, starts, first, o);
    FirstByteSplits(text, starts, last + 1, o);
  }

  lemma FoundOnLine(text: string, starts: seq<LineStart>, o: nat)
    requires Mapping(text, starts) && o < ByteLen(text)
    ensures starts != [] && 1 <= LineAt(starts, o) <= starts[|starts| - 1].line
  {
    LineIsSearched(starts, o + 1);
  }

  /** Expanding a grounded quote never gives an empty range and never slices out of range:
      the new range contains the old one, its lines are in order, and it is grounded again. */
  lemma WidenContains(q: Quote, text: string, starts: seq<LineStart>, before: int, after: int)
    requires Mapping(text, starts) && Aligned(text, starts) && Grounded(SpanOf(q), text, starts) && before >= 0
             && after >= 0
    ensures var wide := Widen(q, text, starts, before, after);
            && (wide.Failed? ==> wide.why == TooLong)
            && (wide.Captured? ==>
                  && wide.quote.start <= q.start && q.end <= wide.quote.end
                  && wide.quote.startLine <= wide.quote.endLine
                  && wide.quote.exact == Trim(Cut(text, wide.quote.start, wide.quote.end))
                  && Grounded(SpanOf(wide.quote), text, starts))
  {
    ReachContains(SpanOf(q), text, starts, before, after);
  }

  lemma ReachTwice(s: Span, starts: seq<LineStart>, total: nat, b1: int, a1: int, b2: int, a2: int, before: int,
                   after: int)
    requires starts != [] && b1 >= 0 && a1 >= 0 && b2 >= 0 && a2 >= 0 && before == b1 + b2 && after == a1 + a2
    ensures var r := Reach(s.startLine, s.endLine, starts, total, b1, a1);
            Reach(r.startLine, r.endLine, starts, total, b2, a2)
            == Reach(s.startLine, s.endLine, starts, total, before, after)
  {
    var last := starts[|starts| - 1].line;
    var x, u := Max(1, s.startLine - b1), Min(s.endLine + a1, last);
    ReachIs(s, starts, total, b1, a1, x, u);
    var r := Reach(s.startLine, s.endLine, starts, total, b1, a1);
    ReachIs(r, starts, total, b2, a2, Max(1, x - b2), Min(u + a2, last));
    ReachIs(s, starts, total, before, after, Max(1, x - b2), Min(u + a2, last));
  }

  /** Two expansions in a row, nothing stored before, reach as far as one by the sums. */
  lemma WidenTwice(q: Quote, text: string, starts: seq<LineStart>, b1: int, a1: int, b2: int, a2: int, before: int,
                   after: int)
    requires b1 >= 0 && a1 >= 0 && b2 >= 0 && a2 >= 0 && before == b1 + b2 && after == a1 + a2
    requires Widen(q, text, starts, b1, a1).Captured?
    ensures Widen(Widen(q, text, starts, b1, a1).quote, text, starts, b2, a2) == Widen(q, text, starts, before, after)
  {
    ReachTwice(SpanOf(q), starts, ByteLen(text), b1, a1, b2, a2, before, after);
    var r := Reach(q.startLine, q.endLine, starts, ByteLen(text), b1, a1);
    WidenAgain(q, Widen(q, text, starts, b1, a1).quote, r, text, starts, b2, a2, before, after);
  }

  lemma WidenAgain(q: Quote, m: Quote, r: Span, text: string, starts: seq<LineStart>, b2: int, a2: int, before: int,
                   after: int)
    requires m == q.(ref := m.ref, submitReady := m.submitReady, locator := m.locator, exact := m.exact,
                     startLine := r.startLine, endLine := r.endLine, start := m.start, end := m.end)
    requires starts != [] && Reach(r.startLine, r.endLine, starts, ByteLen(text), b2, a2)
                             == Reach(q.startLine, q.endLine, starts, ByteLen(text), before, after)
    ensures Widen(m, text, starts, b2, a2) == Widen(q, text, starts, before, after)
  {
  }

  // ------------------------------------------------------------ over a run

  /** A call of a tool, with the artifacts as they are then. */
  datatype Call =
    | Capture(id: string, found: Match, artifacts: map<string, Artifact>)
    | Expand(ref: Ref, before: int, after: int, artifacts: map<string, Artifact>)

  /** Captured matches come from a search of the text their digest names. */
  ghost predicate Genuine(call: Call) {
    call.Capture? && call.found.digest.Some? ==>
      var m, content := call.found, call.found.digest.value.content;
      && m.text == Cut(Normalize(content), m.start, m.end)
      && Grounded(Span(m.line, m.endLine, m.start, m.end), Normalize(content), Starts(content))
  }

  /** What a search reports is grounded in what it searched. */
  lemma FoundIsGrounded(text: string, starts: seq<LineStart>, start: nat, end: nat)
    requires Mapping(text, starts) && start < end <= ByteLen(text) && Boundary(text, start) && Boundary(text, end)
    ensures Grounded(Span(LineAt(starts, start), LineAt(starts, end - 1), start, end), text, starts)
  {
    LineAtGrows(starts, start, end - 1);
    LineIsSearched(starts, start + 1);
  }

  function Do(t: Table, call: Call): Table
    requires Inverse(t)
  {
    match call
    case Capture(id, found, artifacts) => CaptureIn(t, artifacts, id, found).0
    case Expand(ref, before, after, artifacts) => ExpandIn(t, artifacts, ref, before, after).0
  }

  /** One successful expansion. */
  ghost predicate Expands(t: Table, artifacts: map<string, Artifact>, ref: Ref, before: int, after: int, t': Table,
                          q: Quote) {
    Inverse(t) && ExpandIn(t, artifacts, ref, before, after) == (t', Captured(q))
  }

  /** `q` has the range that `base` reaches in its own text. */
  ghost predicate Reached(base: Quote, before: int, after: int, q: Quote) {
    Starts(base.digest.content) != [] && KeyOf(q) == ReachedKey(base, before, after)
  }

  function ReachedKey(base: Quote, before: int, after: int): Key
    requires Starts(base.digest.content) != []
  {
    var content := base.digest.content;
    var r := Reach(base.startLine, base.endLine, Starts(content), ByteLen(Normalize(content)), before, after);
    Key(base.artifactID, base.digest, r.start, r.end)
  }

  ghost predicate Stored(t: Table, q: Quote) {
    q.ref in t.byRef && t.byRef[q.ref] == q && q.ref == RefOf(KeyOf(q))
  }

  /** It answers with the quote of the range it reaches, and forgets none. */
  lemma ExpandReaches(t: Table, artifacts: map<string, Artifact>, ref: Ref, before: int, after: int, t': Table,
                      q: Quote)
    requires Expands(t, artifacts, ref, before, after, t', q)
    ensures ref in t.byRef && Reached(t.byRef[ref], before, after, q) && Stored(t', q)
    ensures forall other :: Stored(t, other) ==> Stored(t', other)
  {
    var base := t.byRef[ref];
    StoreKeeps(t, Widen(base, Normalize(base.digest.content), Starts(base.digest.content), before, after).quote);
  }

  lemma StoreGrounds(t: Table, q: Quote)
    requires Inverse(t) && AllGrounded(t) && QuoteGrounded(q)
    ensures Inverse(Store(t, q).0) && AllGrounded(Store(t, q).0) && QuoteGrounded(Store(t, q).1)
  {
    StoreKeeps(t, q);
    RenamedIsGrounded(q, RefOf(KeyOf(q)));
    var (t', stored) := Store(t, q);
    forall ref | ref in t'.byRef ensures QuoteGrounded(t'.byRef[ref]) {
      if ref in t.byRef {
        assert t'.byRef[ref] == t.byRef[ref];
      }
    }
  }

  lemma RenamedIsGrounded(q: Quote, ref: Ref)
    requires QuoteGrounded(q)
    ensures QuoteGrounded(q.(ref := ref))
  {
    assert SpanOf(q.(ref := ref)) == SpanOf(q);
  }

  lemma WidenGrounds(q: Quote, before: int, after: int)
    requires QuoteGrounded(q) && before >= 0 && after >= 0
    ensures var wide := Widen(q, Normalize(q.digest.content), Starts(q.digest.content), before, after);
            && (wide.Failed? ==> wide.why == TooLong)
            && (wide.Captured? ==> QuoteGrounded(wide.quote) && wide.quote.start <= q.start && q.end <= wide.quote.end)
  {
    var text, starts := Normalize(q.digest.content), Starts(q.digest.content);
    StartsMap(q.digest.content);
    StartsAlign(q.digest.content, |q.digest.content|);
    WidenContains(q, text, starts, before, after);
    var wide := Widen(q, text, starts, before, after);
    if wide.Captured? {
      WidenLocates(q, text, starts, before, after);
      hide Widen, Normalize, Starts, Trim, Grounded, Mapping, Aligned;
      TrimTwice(Cut(text, wide.quote.start, wide.quote.end));
    }
  }

  lemma WidenLocates(q: Quote, text: string, starts: seq<LineStart>, before: int, after: int)
    requires Widen(q, text, starts, before, after).Captured?
    ensures var wide := Widen(q, text, starts, before, after).quote;
            wide.submitReady && wide.digest == q.digest && Locates(wide.locator, wide.startLine, wide.endLine)
  {
    hide Reach, Cut, Trim;
  }

  lemma DoKeeps(t: Table, call: Call)
    requires Inverse(t) && AllGrounded(t) && Genuine(call)
    ensures Inverse(Do(t, call)) && AllGrounded(Do(t, call))
  {
    hide Inverse, AllGrounded, Genuine;
    match call
    case Capture(id, m, artifacts) => CaptureKeeps(t, artifacts, id, m);
    case Expand(ref, before, after, artifacts) => ExpandKeeps(t, artifacts, ref, before, after);
  }

  lemma CaptureKeeps(t: Table, artifacts: map<string, Artifact>, id: string, m: Match)
    requires Inverse(t) && AllGrounded(t) && Genuine(Capture(id, m, artifacts))
    ensures Inverse(CaptureIn(t, artifacts, id, m).0) && AllGrounded(CaptureIn(t, artifacts, id, m).0)
  {
    hide Inverse, AllGrounded, Grounded, Store;
    if m.digest.Some? && 0 <= m.start < m.end && id in artifacts {
      var key := Key(id, m.digest.value, m.start, m.end);
      var q := Quote(RefOf(key), true, id, m.digest.value, artifacts[id].title, artifacts[id].url,
                     Locate(m.line, m.endLine), m.text, m.line, m.endLine, m.start, m.end);
      assert SpanOf(q) == Span(m.line, m.endLine, m.start, m.end);
      StoreGrounds(t, q);
    }
  }

  lemma StoredIsGrounded(t: Table, ref: Ref)
    requires AllGrounded(t) && ref in t.byRef
    ensures QuoteGrounded(t.byRef[ref])
  {
  }

  lemma ExpandKeeps(t: Table, artifacts: map<string, Artifact>, ref: Ref, before: int, after: int)
    requires Inverse(t) && AllGrounded(t)
    ensures Inverse(ExpandIn(t, artifacts, ref, before, after).0)
    ensures AllGrounded(ExpandIn(t, artifacts, ref, before, after).0)
  {
    hide Inverse, AllGrounded, QuoteGrounded, Store, Widen, Normalize, Starts;
    if ExpandIn(t, artifacts, ref, before, after).1.Captured? {
      var base := t.byRef[ref];
      StoredIsGrounded(t, ref);
      WidenGrounds(base, before, after);
      StoreGrounds(t, Widen(base, Normalize(base.digest.content), Starts(base.digest.content), before, after).quote);
    }
  }

  ghost predicate AllGenuine(calls: seq<Call>) {
    forall i :: 0 <= i < |calls| ==> Genuine(calls[i])
  }

  /** The registry after a run of tool calls. */
  function After(calls: seq<Call>): (t: Table)
    requires AllGenuine(calls)
    ensures Inverse(t) && AllGrounded(t)
  {
    if calls == [] then EMPTY else
      var before := After(calls[..|calls| - 1]);
      DoKeeps(before, calls[|calls| - 1]);
      Do(before, calls[|calls| - 1])
  }

  /** The call captured a match in the text and artifact of this quote, whose title and URL were
      then those of the quote. */
  ghost predicate CameFrom(q: Quote, call: Call) {
    && call.Capture? && call.id == q.artifactID && call.found.digest == Some(q.digest) && q.artifactID in call.artifacts
    && q.title == call.artifacts[q.artifactID].title && q.url == call.artifacts[q.artifactID].url
  }

  /** A call stores at most one more quote: the captured one, or one of the artifact, text, title
      and URL of the one it expands. */
  lemma DoAddsOne(t: Table, call: Call, ref: Ref)
    requires Inverse(t) && ref in Do(t, call).byRef
    ensures var q := Do(t, call).byRef[ref];
            || (ref in t.byRef && q == t.byRef[ref])
            || CameFrom(q, call)
            || exists base :: base in t.byRef && SameSource(t.byRef[base], q)
  {
    match call
    case Capture(id, m, artifacts) =>
    case Expand(base, before, after, artifacts) =>
      if ref !in t.byRef {
        hide Widen, Normalize, Starts, Inverse;
        WidenSource(t.byRef[base], Normalize(artifacts[t.byRef[base].artifactID].content),
                    Starts(artifacts[t.byRef[base].artifactID].content), before, after);
        assert SameSource(t.byRef[base], Do(t, call).byRef[ref]);
      }
  }

  ghost predicate SameSource(p: Quote, q: Quote) {
    q.artifactID == p.artifactID && q.digest == p.digest && q.title == p.title && q.url == p.url
  }

  lemma WidenSource(q: Quote, text: string, starts: seq<LineStart>, before: int, after: int)
    requires Widen(q, text, starts, before, after).Captured?
    ensures SameSource(q, Widen(q, text, starts, before, after).quote)
  {
    hide Reach, Cut, Trim;
  }

  /** Over every run: each stored quote, however often expanded, goes back to a captured match in
      its own artifact and text, and has the title and URL the artifact had then. */
  lemma {:induction false} QuotesComeFromMatches(calls: seq<Call>, ref: Ref)
    requires AllGenuine(calls) && ref in After(calls).byRef
    ensures exists k :: 0 <= k < |calls| && CameFrom(After(calls).byRef[ref], calls[k])
  {
    hide Inverse, AllGrounded, Genuine, Do;
    var n := |calls| - 1;
    var earlier := calls[..n];
    DoAddsOne(After(earlier), calls[n], ref);
    var q := After(calls).byRef[ref];
    if CameFrom(q, calls[n]) {
    } else {
      var base := if ref in After(earlier).byRef && q == After(earlier).byRef[ref] then ref
                  else var base :| base in After(earlier).byRef && SameSource(After(earlier).byRef[base], q); base;
      QuotesComeFromMatches(earlier, base);
      var k :| 0 <= k < |earlier| && CameFrom(After(earlier).byRef[base], earlier[k]);
      assert CameFrom(q, calls[k]);
    }
  }

  /** What a capture answers with is grounded... */
  lemma CaptureAnswersGrounded(t: Table, artifacts: map<string, Artifact>, id: string, m: Match)
    requires Inverse(t)
    ensures AllGrounded(t) && Genuine(Capture(id, m, artifacts)) ==>
              var (t', outcome) := CaptureIn(t, artifacts, id, m);
              AllGrounded(t') && (outcome.Captured? ==> QuoteGrounded(outcome.quote))
  {
    CaptureAnswers(t, artifacts, id, m);
    hide AllGrounded, Genuine, QuoteGrounded, CaptureIn, Inverse;
    if AllGrounded(t) && Genuine(Capture(id, m, artifacts)) {
      CaptureKeeps(t, artifacts, id, m);
      var (t', outcome) := CaptureIn(t, artifacts, id, m);
      if outcome.Captured? {
        StoredIsGrounded(t', outcome.quote.ref);
      }
    }
  }

  /** ...and so is what an expansion answers with. */
  lemma ExpandAnswersGrounded(t: Table, artifacts: map<string, Artifact>, ref: Ref, before: int, after: int)
    requires Inverse(t)
    ensures AllGrounded(t) ==>
              var (t', outcome) := ExpandIn(t, artifacts, ref, before, after);
              AllGrounded(t') && (outcome.Captured? ==> QuoteGrounded(outcome.quote))
  {
    hide AllGrounded, QuoteGrounded, ExpandIn, Inverse;
    if AllGrounded(t) {
      ExpandKeeps(t, artifacts, ref, before, after);
      var (t', outcome) := ExpandIn(t, artifacts, ref, before, after);
      if outcome.Captured? {
        ExpansionContains(t, artifacts, ref, before, after, t', outcome.quote);
      }
    }
  }

  // ------------------------------------------------------------ main results

  /** A capture succeeds exactly for a match with a digest and a real range in a known artifact,
      and answers with the quote of that range: an earlier one, or the match as found. */
  lemma CaptureAnswers(t: Table, artifacts: map<string, Artifact>, id: string, m: Match)
    requires Inverse(t)
    ensures var (t', outcome) := CaptureIn(t, artifacts, id, m);
            && (outcome.Captured? <==> m.digest.Some? && 0 <= m.start < m.end && id in artifacts)
            && (outcome.Failed? ==> t' == t)
            && (outcome.Captured? ==>
                  var q := outcome.quote;
                  && Stored(t', q) && KeyOf(q) == Key(id, m.digest.value, m.start, m.end)
                  && (Stored(t, q) || (q.exact == m.text && (q.startLine, q.endLine) == (m.line, m.endLine))))
  {
    hide Locate;
  }

  /** After any run, expanding a captured quote over unchanged content fails exactly for length,
      that is when the lines reached hold more than 12000 runes... */
  lemma ExpansionFailsForLength(calls: seq<Call>, artifacts: map<string, Artifact>, ref: Ref, before: int, after: int)
    requires AllGenuine(calls) && ref in After(calls).byRef
    requires 0 <= before <= MAX_CONTEXT_LINES && 0 <= after <= MAX_CONTEXT_LINES
    requires var base := After(calls).byRef[ref];
             base.artifactID in artifacts && Sha(artifacts[base.artifactID].content) == base.digest
    ensures var base, outcome := After(calls).byRef[ref], ExpandIn(After(calls), artifacts, ref, before, after).1;
            && (outcome.Failed? ==> outcome.why == TooLong)
            && Starts(base.digest.content) != []
            && (outcome.Failed? <==> |ReachedText(base, before, after)| > MAX_QUOTE_RUNES)
  {
    var base := After(calls).byRef[ref];
    StoredIsGrounded(After(calls), ref);
    WidenGrounds(base, before, after);
    hide Normalize, Starts, Trim, Cut, Grounded, Reach, ByteLen;
  }

  /** The trimmed text of the lines that an expansion reaches. */
  function ReachedText(base: Quote, before: int, after: int): string
    requires Starts(base.digest.content) != []
  {
    var text, key := Normalize(base.digest.content), ReachedKey(base, before, after);
    Trim(Cut(text, key.start, key.end))
  }

  /** ...and otherwise gives a range that holds the original's, with its lines in order. */
  lemma ExpansionContains(t: Table, artifacts: map<string, Artifact>, ref: Ref, before: int, after: int, t': Table,
                          q: Quote)
    requires AllGrounded(t) && Expands(t, artifacts, ref, before, after, t', q)
    ensures ref in t.byRef && QuoteGrounded(q)
    ensures q.start <= t.byRef[ref].start < t.byRef[ref].end <= q.end
  {
    var base := t.byRef[ref];
    WidenGrounds(base, before, after);
    var wide := Widen(base, Normalize(base.digest.content), Starts(base.digest.content), before, after).quote;
    StoreKeeps(t, wide);
    StoreGrounds(t, wide);
    assert QuoteGrounded(base) && KeyOf(q) == KeyOf(wide);
    SpanIsReal(base);
  }

  lemma SpanIsReal(q: Quote)
    requires QuoteGrounded(q)
    ensures 0 <= q.start < q.end <= ByteLen(Normalize(q.digest.content)) && 1 <= q.startLine <= q.endLine
  {
    StartsMap(q.digest.content);
    GroundedIsOrdered(SpanOf(q), Normalize(q.digest.content), Starts(q.digest.content));
  }

  lemma GroundedIsOrdered(s: Span, text: string, starts: seq<LineStart>)
    requires Increasing(starts) && Grounded(s, text, starts)
    ensures 1 <= s.startLine <= s.endLine && 0 <= s.start < s.end
  {
    LineAtGrows(starts, s.start, s.end - 1);
  }

  /** No text starts on the lines from one bound up to the other. */
  ghost predicate NoTextBetween(starts: seq<LineStart>, x: int, y: int) {
    forall i :: 0 <= i < |starts| ==> !(Min(x, y) <= starts[i].line < Max(x, y))
  }

  lemma SameFirstByte(text: string, starts: seq<LineStart>, x: int, y: int)
    requires Mapping(text, starts) && x <= y
    ensures FirstByte(starts, x, ByteLen(text)) == FirstByte(starts, y, ByteLen(text)) <==> NoTextBetween(starts, x, y)
  {
    var i, j := First(Lines(starts), x), First(Lines(starts), y);
    FirstSplits(Lines(starts), x);
    FirstSplits(Lines(starts), y);
    if i < |starts| && starts[i].line < y {
      assert Lines(starts)[i] < y;
      assert i < j && FirstByte(starts, x, ByteLen(text)) < FirstByte(starts, y, ByteLen(text)) by {
        assert j < |starts| ==> Lines(starts)[j] >= y;
      }
    } else {
      forall k | 0 <= k < |starts| ensures !(x <= starts[k].line < y) {
        if k < i {
          assert Lines(starts)[k] < x;
        }
      }
      SearchUnique(Lines(starts), y, i);
    }
  }

  lemma SearchUnique(values: seq<int>, bound: int, i: nat)
    requires i <= |values| && (forall k :: 0 <= k < i ==> values[k] < bound) && (i < |values| ==> values[i] >= bound)
    ensures First(values, bound) == i
  {
    FirstSplits(values, bound);
  }

  lemma SameReach(text: string, starts: seq<LineStart>, x: int, y: int)
    requires Mapping(text, starts)
    ensures FirstByte(starts, x, ByteLen(text)) == FirstByte(starts, y, ByteLen(text)) <==> NoTextBetween(starts, x, y)
  {
    if x <= y {
      SameFirstByte(text, starts, x, y);
    } else {
      SameFirstByte(text, starts, y, x);
    }
  }

  /** What the caller can compare before the second expansion: the lines it would ask for from
      the middle quote against those asked for in one go. */
  ghost predicate SameText(starts: seq<LineStart>, twice: (int, int), once: (int, int)) {
    NoTextBetween(starts, twice.0, once.0) && NoTextBetween(starts, twice.1 + 1, once.1 + 1)
  }

  /** The lines that an expansion asks for. */
  function Asked(s: Span, last: int, before: int, after: int): (int, int) {
    (Max(1, s.startLine - before), Min(s.endLine + after, last))
  }

  /** No text lies between what the middle quote would reach and what was asked of the base. */
  ghost predicate Composes(base: Quote, middle: Quote, b2: int, a2: int, before: int, after: int) {
    var starts := Starts(base.digest.content);
    && starts != []
    && SameText(starts, Asked(SpanOf(middle), starts[|starts| - 1].line, b2, a2),
                Asked(SpanOf(base), starts[|starts| - 1].line, before, after))
  }

  lemma SameSpan(text: string, starts: seq<LineStart>, middle: Span, b2: int, a2: int, base: Span, before: int,
                 after: int,
                 asked: (int, int), direct: (int, int))
    requires Mapping(text, starts) && starts != []
    requires asked == Asked(middle, starts[|starts| - 1].line, b2, a2)
    requires direct == Asked(base, starts[|starts| - 1].line, before, after)
    ensures var twice := Reach(middle.startLine, middle.endLine, starts, ByteLen(text), b2, a2);
            var once := Reach(base.startLine, base.endLine, starts, ByteLen(text), before, after);
            twice.start == once.start && twice.end == once.end <==> SameText(starts, asked, direct)
  {
    ReachIs(middle, starts, ByteLen(text), b2, a2, asked.0, asked.1);
    ReachIs(base, starts, ByteLen(text), before, after, direct.0, direct.1);
    SpansAgree(text, starts, asked.0, asked.1, direct.0, direct.1);
  }

  lemma SpansAgree(text: string, starts: seq<LineStart>, x: int, u: int, y: int, v: int)
    requires Mapping(text, starts)
    ensures FirstByte(starts, x, ByteLen(text)) == FirstByte(starts, y, ByteLen(text))
            && FirstByte(starts, u + 1, ByteLen(text)) == FirstByte(starts, v + 1, ByteLen(text))
            <==> NoTextBetween(starts, x, y) && NoTextBetween(starts, u + 1, v + 1)
  {
    SameReach(text, starts, x, y);
    SameReach(text, starts, u + 1, v + 1);
  }

  /** Two ways from one registry: `t` to `t1` to `t2` in two expansions, `t` to `t3` in one. */
  ghost predicate BothWays(t: Table, t1: Table, t2: Table, t3: Table, artifacts: map<string, Artifact>, ref: Ref,
                           b1: int, a1: int, b2: int, a2: int, before: int, after: int,
                           first: Quote, twice: Quote, once: Quote)
  {
    && Expands(t, artifacts, ref, b1, a1, t1, first) && Expands(t1, artifacts, first.ref, b2, a2, t2, twice)
    && Expands(t, artifacts, ref, before, after, t3, once)
  }

  /** Expanding twice gives the byte range of one expansion by the sums exactly when no text
      lies between the lines the second expansion reaches and those asked for in one go.  They
      differ when the first expansion's bytes had been stored before under other lines. */
  lemma RangesCompose(t: Table, t1: Table, t2: Table, t3: Table, artifacts: map<string, Artifact>, ref: Ref,
                      b1: int, a1: int, b2: int, a2: int, before: int, after: int,
                      first: Quote, twice: Quote, once: Quote)
    requires BothWays(t, t1, t2, t3, artifacts, ref, b1, a1, b2, a2, before, after, first, twice, once)
    ensures ref in t.byRef && (KeyOf(twice) == KeyOf(once) <==> Composes(t.byRef[ref], first, b2, a2, before, after))
  {
    ExpandReaches(t, artifacts, ref, b1, a1, t1, first);
    ExpandReaches(t1, artifacts, first.ref, b2, a2, t2, twice);
    ExpandReaches(t, artifacts, ref, before, after, t3, once);
    SameRange(t.byRef[ref], first, b1, a1, b2, a2, before, after, twice, once);
  }

  /** The range asked for in one go is stored already, or both ways come to store it under the
      same lines and from the same source record. */
  ghost predicate SameLines(t: Table, base: Quote, first: Quote, b2: int, a2: int, before: int, after: int) {
    var starts := Starts(base.digest.content);
    && starts != []
    && var key, last := ReachedKey(base, before, after), starts[|starts| - 1].line;
       || key in t.byRange
       || (if key == KeyOf(first) then (first.startLine, first.endLine) == Asked(SpanOf(base), last, before, after)
           else && Asked(SpanOf(first), last, b2, a2) == Asked(SpanOf(base), last, before, after)
                && first.title == base.title && first.url == base.url)
  }

  /** The quotes are the same in everything, lines included, exactly when the ranges are and
      nothing makes their lines differ. */
  lemma ExpansionsCompose(t: Table, t1: Table, t2: Table, t3: Table, artifacts: map<string, Artifact>, ref: Ref,
                          b1: int, a1: int, b2: int, a2: int, before: int, after: int,
                          first: Quote, twice: Quote, once: Quote)
    requires BothWays(t, t1, t2, t3, artifacts, ref, b1, a1, b2, a2, before, after, first, twice, once)
    ensures ref in t.byRef
    ensures twice == once <==> && Composes(t.byRef[ref], first, b2, a2, before, after)
                               && SameLines(t, t.byRef[ref], first, b2, a2, before, after)
  {
    hide Store, Wording, SameLines, Composes;
    RangesCompose(t, t1, t2, t3, artifacts, ref, b1, a1, b2, a2, before, after, first, twice, once);
    ExpandReaches(t, artifacts, ref, b1, a1, t1, first);
    if KeyOf(twice) == KeyOf(once) {
      var base := t.byRef[ref];
      ExpandWords(t, artifacts, ref, b1, a1, t1, first);
      ExpandWords(t1, artifacts, first.ref, b2, a2, t2, twice);
      ExpandWords(t, artifacts, ref, before, after, t3, once);
      SameQuote(t, base, b1, a1, t1, first, b2, a2, t2, twice, before, after, t3, once);
    }
  }

  lemma SameQuote(t: Table, base: Quote, b1: int, a1: int, t1: Table, first: Quote, b2: int, a2: int, t2: Table,
                  twice: Quote, before: int, after: int, t3: Table, once: Quote)
    requires Inverse(t) && Inverse(t1) && first.digest == base.digest && Starts(base.digest.content) != []
    requires (t1, first) == Store(t, Wording(base, b1, a1)) && (t2, twice) == Store(t1, Wording(first, b2, a2))
    requires (t3, once) == Store(t, Wording(base, before, after)) && KeyOf(twice) == KeyOf(once)
    ensures twice == once <==> SameLines(t, base, first, b2, a2, before, after)
  {
    hide Store, Wording, ReachedKey, Asked;
    var w1, w2, w := Wording(base, b1, a1), Wording(first, b2, a2), Wording(base, before, after);
    StoreKeeps(t1, w2);
    StoreKeeps(t, w);
    WordedLines(base, b1, a1);
    WordedLines(first, b2, a2);
    WordedLines(base, before, after);
    StoredTwice(t, w1, w2, w, t1, first, twice, once);
    SameWording(first, base, b2, a2, before, after);
    if KeyOf(w) == KeyOf(first) {
      SameWording(base, base, b1, a1, before, after);
    }
  }

  lemma WordedLines(q: Quote, before: int, after: int)
    requires Starts(q.digest.content) != []
    ensures var w, starts := Wording(q, before, after), Starts(q.digest.content);
            && (w.startLine, w.endLine) == Asked(SpanOf(q), starts[|starts| - 1].line, before, after)
            && KeyOf(w) == ReachedKey(q, before, after) && w.ref == RefOf(KeyOf(w))
  {
  }

  /** The quote that an expansion of `q` would add. */
  function Wording(q: Quote, before: int, after: int): Quote
    requires Starts(q.digest.content) != []
  {
    var text, starts := Normalize(q.digest.content), Starts(q.digest.content);
    var s := Reach(q.startLine, q.endLine, starts, ByteLen(text), before, after);
    Quote(RefOf(Key(q.artifactID, q.digest, s.start, s.end)), true, q.artifactID, q.digest, q.title, q.url,
          Locate(s.startLine, s.endLine), Trim(Cut(text, s.start, s.end)), s.startLine, s.endLine, s.start, s.end)
  }

  lemma ExpandWords(t: Table, artifacts: map<string, Artifact>, ref: Ref, before: int, after: int, t': Table, q: Quote)
    requires Expands(t, artifacts, ref, before, after, t', q)
    ensures ref in t.byRef && Starts(t.byRef[ref].digest.content) != []
    ensures (t', q) == Store(t, Wording(t.byRef[ref], before, after))
    ensures q.ref in t'.byRef && t'.byRef[q.ref] == q
  {
    StoreKeeps(t, Wording(t.byRef[ref], before, after));
  }

  /** What three stores answer with: `w1` and then `w2` into the same table, `w` into the
      table before both. */
  lemma StoredTwice(t: Table, w1: Quote, w2: Quote, w: Quote, t1: Table, first: Quote, twice: Quote, once: Quote)
    requires Inverse(t) && Inverse(t1) && (t1, first) == Store(t, w1) && twice == Store(t1, w2).1
             && once == Store(t, w).1
    requires w1.ref == RefOf(KeyOf(w1)) && w2.ref == RefOf(KeyOf(w2)) && w.ref == RefOf(KeyOf(w))
    requires KeyOf(w2) == KeyOf(w)
    ensures KeyOf(w) in t.byRange ==> twice == once
    ensures KeyOf(w) !in t.byRange ==>
              (twice == once <==> if KeyOf(w) == KeyOf(first) then first == w else w2 == w)
    ensures KeyOf(first) == KeyOf(w1) && (KeyOf(w1) !in t.byRange ==> first == w1)
  {
    StoreKeeps(t, w1);
  }

  /** Two expansions that would store the same range would store the same quote exactly when
      the lines and the source records agree. */
  lemma SameWording(q: Quote, base: Quote, b: int, a: int, before: int, after: int)
    requires q.digest == base.digest && Starts(base.digest.content) != []
    requires KeyOf(Wording(q, b, a)) == KeyOf(Wording(base, before, after))
    ensures var starts := Starts(base.digest.content);
            var last := starts[|starts| - 1].line;
            Wording(q, b, a) == Wording(base, before, after) <==>
            && Asked(SpanOf(q), last, b, a) == Asked(SpanOf(base), last, before, after)
            && q.title == base.title && q.url == base.url
  {
  }

  /** In particular the ranges agree whenever the first expansion answers with the lines it was
      asked for, and then so do the lines, unless the second expansion only comes upon blank
      lines and answers with the quote of the first. */
  lemma FreshExpansionsCompose(t: Table, t1: Table, t2: Table, t3: Table, artifacts: map<string, Artifact>, ref: Ref,
                               b1: int, a1: int, b2: int, a2: int, before: int, after: int,
                               first: Quote, twice: Quote, once: Quote)
    requires BothWays(t, t1, t2, t3, artifacts, ref, b1, a1, b2, a2, before, after, first, twice, once)
    requires b1 >= 0 && a1 >= 0 && b2 >= 0 && a2 >= 0 && before == b1 + b2 && after == a1 + a2
    requires ref in t.byRef && Starts(t.byRef[ref].digest.content) != []
    requires var base, starts := t.byRef[ref], Starts(t.byRef[ref].digest.content);
             && (first.startLine, first.endLine) == Asked(SpanOf(base), starts[|starts| - 1].line, b1, a1)
             && first.title == base.title && first.url == base.url
    ensures KeyOf(twice) == KeyOf(once)
    ensures var base, starts := t.byRef[ref], Starts(t.byRef[ref].digest.content);
            twice == once <==>
            || KeyOf(once) in t.byRange || KeyOf(once) != KeyOf(first)
            || (first.startLine, first.endLine) == Asked(SpanOf(base), starts[|starts| - 1].line, before, after)
  {
    hide Expands, ReachedKey, Asked, Store, Inverse;
    var starts := Starts(t.byRef[ref].digest.content);
    ExpansionsCompose(t, t1, t2, t3, artifacts, ref, b1, a1, b2, a2, before, after, first, twice, once);
    RangesCompose(t, t1, t2, t3, artifacts, ref, b1, a1, b2, a2, before, after, first, twice, once);
    ExpandReaches(t, artifacts, ref, before, after, t3, once);
    AskedTwice(SpanOf(t.byRef[ref]), SpanOf(first), starts[|starts| - 1].line, b1, a1, b2, a2);
  }

  lemma AskedTwice(base: Span, middle: Span, last: int, b1: int, a1: int, b2: int, a2: int)
    requires b2 >= 0 && a2 >= 0 && (middle.startLine, middle.endLine) == Asked(base, last, b1, a1)
    ensures Asked(middle, last, b2, a2) == Asked(base, last, b1 + b2, a1 + a2)
  {
  }

  lemma SameRange(base: Quote, first: Quote, b1: int, a1: int, b2: int, a2: int, before: int, after: int,
                  twice: Quote, once: Quote)
    requires Reached(base, b1, a1, first) && Reached(first, b2, a2, twice) && Reached(base, before, after, once)
    ensures KeyOf(twice) == KeyOf(once) <==> Composes(base, first, b2, a2, before, after)
  {
    var content := base.digest.content;
    assert KeyOf(first).digest == base.digest;
    StartsMap(content);
    var starts := Starts(content);
    var last := starts[|starts| - 1].line;
    SameSpan(Normalize(content), starts, SpanOf(first), b2, a2, SpanOf(base), before, after,
             Asked(SpanOf(first), last, b2, a2), Asked(SpanOf(base), last, before, after));
  }

  // ------------------------------------------------- when they do not compose

  /** Text on the lines 1, 5 and 9. */
  const SAMPLE := "a\n\n\n\nb\n\n\n\nc"
  const SAMPLE_STARTS := [LineStart(0, 1), LineStart(2, 5), LineStart(4, 9)]

  lemma {:induction false} LineBreaks(s: string, i: nat, j: nat)
    requires i <= j <= |s| && forall k :: i <= k < j ==> s[k] == '\n'
    ensures FieldsTo(s, j) == FieldsTo(s, i) && StartsTo(s, j) == StartsTo(s, i)
            && Newlines(s, j) == Newlines(s, i) + j - i
  {
    if i < j {
      LineBreaks(s, i, j - 1);
    }
  }

  lemma SampleTo5()
    ensures NormalizeTo(SAMPLE, 5) == "a" && StartsTo(SAMPLE, 5) == [LineStart(0, 1)] && Newlines(SAMPLE, 5) == 4
  {
    assert SAMPLE[0] == 'a';
    assert FieldsTo(SAMPLE, 1) == ["a"] && StartsTo(SAMPLE, 1) == [LineStart(0, 1)] && Newlines(SAMPLE, 1) == 0;
    LineBreaks(SAMPLE, 1, 5);
  }

  lemma SampleTo6()
    ensures NormalizeTo(SAMPLE, 6) == "a b" && StartsTo(SAMPLE, 6) == [LineStart(0, 1), LineStart(2, 5)]
    ensures Newlines(SAMPLE, 6) == 4
  {
    SampleTo5();
    assert SAMPLE[4] == '\n' && SAMPLE[5] == 'b';
    assert Gapped(SAMPLE, 5) == "a ";
    NormalizeStep(SAMPLE, 6);
    assert Offset("a ", 1) == 1 && Offset("a ", 2) == 2;
  }

  lemma SampleText()
    ensures Normalize(SAMPLE) == "a b c" && Starts(SAMPLE) == SAMPLE_STARTS
  {
    SampleTo6();
    assert SAMPLE[9] == '\n' && SAMPLE[10] == 'c';
    LineBreaks(SAMPLE, 6, 10);
    assert Gapped(SAMPLE, 10) == "a b ";
    NormalizeStep(SAMPLE, 11);
    assert Offset("a b ", 1) == 1 && Offset("a b ", 2) == 2 && Offset("a b ", 3) == 3 && Offset("a b ", 4) == 4;
  }

  lemma SampleBytes(line: int)
    ensures ByteLen("a b c") == 5
    ensures FirstByte(SAMPLE_STARTS, line, 5)
            == if line <= 1 then 0 else if line <= 5 then 2 else if line <= 9 then 4 else 5
  {
    assert Offset("a b c", 1) == 1 && Offset("a b c", 2) == 2 && Offset("a b c", 3) == 3 && Offset("a b c", 4) == 4;
    SearchUnique(Lines(SAMPLE_STARTS), line,
                 if line <= 1 then 0 else if line <= 5 then 1 else if line <= 9 then 2 else 3);
  }

  lemma TrimShortens(s: string)
    ensures |Trim(s)| <= |s|
  {
    TrimLeftShortens(TrimRight(s));
  }

  lemma {:induction false} TrimLeftShortens(s: string)
    ensures |TrimLeft(s)| <= |s|
  {
    if s != [] {
      TrimLeftShortens(s[1..]);
    }
  }

  /** Lines before the last one, up to the text in the middle. */
  lemma SampleWiden(q: Quote, before: int)
    requires q.startLine == q.endLine == 9 && q.digest == Sha(SAMPLE) && 0 <= before < 8
    ensures var wide := Widen(q, Normalize(SAMPLE), Starts(SAMPLE), before, 0);
            && wide.Captured? && KeyOf(wide.quote) == Key(q.artifactID, q.digest, if before >= 4 then 2 else 4, 5)
            && wide.quote.startLine == 9 - before && wide.quote.endLine == 9
  {
    SampleText();
    var s := Span(9, 9, q.start, q.end);
    SampleBytes(9 - before);
    SampleBytes(10);
    ReachIs(s, SAMPLE_STARTS, 5, before, 0, 9 - before, 9);
    TrimShortens(Cut("a b c", if before >= 4 then 2 else 4, 5));
  }

  /** The match "c" on its line, alone in the registry. */
  function SampleQuote(id: string, url: string): Quote {
    Quote(RefOf(Key(id, Sha(SAMPLE), 4, 5)), true, id, Sha(SAMPLE), "", url, OneLine(9), "c", 9, 9, 4, 5)
  }

  function SampleTable(id: string, url: string): Table {
    var q := SampleQuote(id, url);
    Table(map[q.ref := q], map[KeyOf(q) := q.ref])
  }

  /** From there few lines before are the same range again, more reach the middle. */
  lemma SampleExpands(id: string, url: string, before: int) returns (t': Table, q': Quote)
    requires 0 <= before < 8
    ensures var artifacts, t, q := map[id := Artifact("", url, SAMPLE)], SampleTable(id, url), SampleQuote(id, url);
            && Expands(t, artifacts, q.ref, before, 0, t', q')
            && if before < 4 then t' == t && q' == q
               else KeyOf(q') == Key(id, Sha(SAMPLE), 2, 5) && q'.startLine == 9 - before && q'.endLine == 9
  {
    var t, q := SampleTable(id, url), SampleQuote(id, url);
    SampleWiden(q, before);
    var wide := Widen(q, Normalize(SAMPLE), Starts(SAMPLE), before, 0).quote;
    StoreKeeps(t, wide);
    t', q' := Store(t, wide).0, Store(t, wide).1;
  }

  /** One line before is the same range again, so the registry answers with the match itself,
      and asking for one and then three lines never reaches the middle as four at once do. */
  lemma TwiceIsNotOnce(id: string, url: string) returns (t3: Table, once: Quote)
    ensures var artifacts, t, q := map[id := Artifact("", url, SAMPLE)], SampleTable(id, url), SampleQuote(id, url);
            BothWays(t, t, t, t3, artifacts, q.ref, 1, 0, 3, 0, 4, 0, q, q, once) && once.start < q.start
  {
    var t1, first := SampleExpands(id, url, 1);
    var t2, twice := SampleExpands(id, url, 3);
    t3, once := SampleExpands(id, url, 4);
  }

  /** And asking for one and then four gives the bytes that five at once give, under other
      lines: 5 to 9 against 4 to 9. */
  lemma LinesDifferOnSameRange(id: string, url: string) returns (t2: Table, t3: Table, twice: Quote, once: Quote)
    ensures var artifacts, t, q := map[id := Artifact("", url, SAMPLE)], SampleTable(id, url), SampleQuote(id, url);
            && BothWays(t, t, t2, t3, artifacts, q.ref, 1, 0, 4, 0, 5, 0, q, twice, once)
            && KeyOf(twice) == KeyOf(once) && (twice.startLine, once.startLine) == (5, 4)
  {
    var t1, first := SampleExpands(id, url, 1);
    t2, twice := SampleExpands(id, url, 4);
    t3, once := SampleExpands(id, url, 5);
  }

  // --------------------------------------------------------------- snapshots

  /** What `Restore` accepts of one record; a digest is never blank. */
  predicate Intact(q: Quote) {
    && q.submitReady && !Blank(q.artifactID) && !Blank(q.exact) && q.startLine > 0 && q.endLine >= q.startLine
    && q.start >= 0 && q.end > q.start && q.ref == RefOf(KeyOf(q))
  }

  predicate AllIntact(records: seq<Quote>, n: nat)
    requires n <= |records|
  {
    forall i :: 0 <= i < n ==> Intact(records[i])
  }

  /** The references among the first `n` records. */
  function RefsOf(records: seq<Quote>, n: nat): set<Ref>
    requires n <= |records|
  {
    set i | 0 <= i < n :: records[i].ref
  }

  /** No reference occurs twice among the first `n` records. */
  predicate FreshRefs(records: seq<Quote>, n: nat)
    requires n <= |records|
  {
    forall i, j :: 0 <= i < j < n ==> records[i].ref != records[j].ref
  }

  predicate Restorable(records: seq<Quote>) {
    FreshRefs(records, |records|) && AllIntact(records, |records|)
  }

  function TableOf(records: seq<Quote>, n: nat): Table
    requires n <= |records|
  {
    if n == 0 then EMPTY else
      var before, q := TableOf(records, n - 1), records[n - 1];
      Table(before.byRef[q.ref := q], before.byRange[KeyOf(q) := q.ref])
  }

  /** The records are the table's quotes, each once. */
  ghost predicate Lists(records: seq<Quote>, byRef: map<Ref, Quote>) {
    && FreshRefs(records, |records|) && RefsOf(records, |records|) == byRef.Keys
    && forall i :: 0 <= i < |records| ==> records[i].ref in byRef && byRef[records[i].ref] == records[i]
  }

  predicate AllKeyed(records: seq<Quote>, n: nat)
    requires n <= |records|
  {
    forall i :: 0 <= i < n ==> records[i].ref == RefOf(KeyOf(records[i]))
  }

  lemma TablePut(t: Table, q: Quote)
    requires Inverse(t) && q.ref == RefOf(KeyOf(q))
    ensures Inverse(Table(t.byRef[q.ref := q], t.byRange[KeyOf(q) := q.ref]))
  {
  }

  /** A restored table is well formed and has the references of its records... */
  lemma {:induction false} TableOfRecords(records: seq<Quote>, n: nat)
    requires n <= |records| && AllKeyed(records, n)
    ensures Inverse(TableOf(records, n)) && TableOf(records, n).byRef.Keys == RefsOf(records, n)
  {
    if n > 0 {
      TableOfRecords(records, n - 1);
      TablePut(TableOf(records, n - 1), records[n - 1]);
      assert RefsOf(records, n) == RefsOf(records, n - 1) + {records[n - 1].ref};
    }
  }

  /** ...and holds each of them. */
  lemma {:induction false} TableHolds(records: seq<Quote>, n: nat, i: nat)
    requires i < n <= |records| && FreshRefs(records, n)
    ensures records[i].ref in TableOf(records, n).byRef && TableOf(records, n).byRef[records[i].ref] == records[i]
  {
    if i < n - 1 {
      TableHolds(records, n - 1, i);
    }
  }

  /** Restoring the snapshot of a table is accepted exactly when every quote is intact, and
      then gives the table back. */
  lemma SnapshotRestores(t: Table, records: seq<Quote>)
    requires Inverse(t) && Lists(records, t.byRef)
    ensures Restorable(records) <==> forall ref :: ref in t.byRef ==> Intact(t.byRef[ref])
    ensures Restorable(records) ==> TableOf(records, |records|) == t
  {
    forall ref | ref in t.byRef ensures exists i :: 0 <= i < |records| && records[i] == t.byRef[ref] {
      assert ref in RefsOf(records, |records|);
      var i :| 0 <= i < |records| && records[i].ref == ref;
      assert records[i] == t.byRef[ref];
    }
    assert AllKeyed(records, |records|);
    ListedTable(t, records);
  }

  lemma ListedTable(t: Table, records: seq<Quote>)
    requires Inverse(t) && Lists(records, t.byRef) && AllKeyed(records, |records|)
    ensures TableOf(records, |records|) == t
  {
    TableOfRecords(records, |records|);
    var back := TableOf(records, |records|);
    forall ref | ref in t.byRef ensures back.byRef[ref] == t.byRef[ref] {
      assert ref in RefsOf(records, |records|);
      var i :| 0 <= i < |records| && records[i].ref == ref;
      TableHolds(records, |records|, i);
    }
    assert back.byRef == t.byRef;
    SameRanges(t, back);
  }

  lemma SameRanges(t: Table, u: Table)
    requires Inverse(t) && Inverse(u) && t.byRef == u.byRef
    ensures t == u
  {
    forall key ensures key in t.byRange <==> key in u.byRange {
      if key in t.byRange {
        assert KeyOf(t.byRef[RefOf(key)]) == key;
      }
      if key in u.byRange {
        assert KeyOf(u.byRef[RefOf(key)]) == key;
      }
    }
    assert t.byRange == u.byRange;
  }

  lemma SeparatorText()
    ensures Normalize("a b") == "a b" && Starts("a b") == [LineStart(0, 1)]
  {
    var s := "a b";
    assert FieldsTo(s, 1) == FieldsTo(s, 2) == ["a"] && StartsTo(s, 1) == StartsTo(s, 2) == [LineStart(0, 1)];
    assert Gapped(s, 2) == "a ";
    NormalizeStep(s, 3);
    assert Line(s, 2) == 1;
  }

  /** A match of a lone separator is captured, and no snapshot of that registry restores. */
  lemma SeparatorQuoteIsLost(id: string, artifacts: map<string, Artifact>) returns (calls: seq<Call>, ref: Ref)
    requires id in artifacts
    ensures calls == [Capture(id, Match(1, 1, " ", Some(Sha("a b")), 1, 2), artifacts)] && AllGenuine(calls)
    ensures ref in After(calls).byRef && After(calls).byRef[ref].exact == " "
    ensures forall records :: Lists(records, After(calls).byRef) ==> !Restorable(records)
  {
    var found := Match(1, 1, " ", Some(Sha("a b")), 1, 2);
    calls := [Capture(id, found, artifacts)];
    hide Grounded, Restorable, Inverse, AllGrounded, Lists;
    SeparatorIsGrounded();
    assert Genuine(calls[0]);
    ref := RefOf(Key(id, Sha("a b"), 1, 2));
    FirstCapture(calls, id, found, artifacts);
    forall records | Lists(records, After(calls).byRef) ensures !Restorable(records) {
      BlankIsNotRestorable(After(calls), records, ref);
    }
  }

  lemma FirstCapture(calls: seq<Call>, id: string, found: Match, artifacts: map<string, Artifact>)
    requires calls == [Capture(id, found, artifacts)] && AllGenuine(calls)
    requires id in artifacts && found.digest.Some? && 0 <= found.start < found.end
    ensures var ref := RefOf(Key(id, found.digest.value, found.start, found.end));
            ref in After(calls).byRef && After(calls).byRef[ref].exact == found.text
  {
    hide Grounded, AllGrounded;
    assert calls[..0] == [] && After(calls) == CaptureIn(EMPTY, artifacts, id, found).0;
  }

  lemma SeparatorIsGrounded()
    ensures Grounded(Span(1, 1, 1, 2), Normalize("a b"), Starts("a b"))
  {
    hide Normalize, Starts;
    SeparatorText();
    assert Offset("a b", 1) == 1 && Offset("a b", 2) == 2 && Offset("a b", 3) == 3;
    IndexOfOffset("a b", 1);
    IndexOfOffset("a b", 2);
  }

  lemma BlankIsNotRestorable(t: Table, records: seq<Quote>, ref: Ref)
    requires Inverse(t) && Lists(records, t.byRef) && ref in t.byRef && t.byRef[ref].exact == " "
    ensures !Restorable(records)
  {
    hide Inverse, Lists, Restorable;
    SnapshotRestores(t, records);
    assert Blank(t.byRef[ref].exact) && !Intact(t.byRef[ref]);
  }

  /** The snapshot of a registry that only captured and expanded is accepted exactly when no
      quote's text and no artifact ID is blank. */
  lemma GroundedSnapshotRestores(t: Table, records: seq<Quote>)
    requires Inverse(t) && AllGrounded(t) && Lists(records, t.byRef)
    ensures Restorable(records) <==>
              forall ref :: ref in t.byRef ==> !Blank(t.byRef[ref].exact) && !Blank(t.byRef[ref].artifactID)
    ensures Restorable(records) ==> TableOf(records, |records|) == t
  {
    SnapshotRestores(t, records);
    forall ref | ref in t.byRef
      ensures Intact(t.byRef[ref]) <==> !Blank(t.byRef[ref].exact) && !Blank(t.byRef[ref].artifactID)
    {
      IntactWhenGrounded(t.byRef[ref]);
    }
  }

  lemma IntactWhenGrounded(q: Quote)
    requires QuoteGrounded(q) && q.ref == RefOf(KeyOf(q))
    ensures Intact(q) <==> !Blank(q.exact) && !Blank(q.artifactID)
  {
    SpanIsReal(q);
  }

  // -------------------------------------------------------------- the object

  class QuoteRegistry {
    var byRef: map<Ref, Quote>
    var byRange: map<Key, Ref>

    function Value(): Table
      reads this
    {
      Table(byRef, byRange)
    }

    constructor ()
      ensures Value() == EMPTY
    {
      byRef, byRange := map[], map[];
    }

    method StoreQuote(record: Quote) returns (stored: Quote)
      requires Inverse(Value())
      modifies this
      ensures (Value(), stored) == Store(old(Value()), record) && Inverse(Value())
    {
      StoreKeeps(Value(), record);
      var key := KeyOf(record);
      if key in byRange {
        return byRef[byRange[key]];
      }
      stored := record.(ref := RefOf(key));
      byRef := byRef[stored.ref := stored];
      byRange := byRange[key := stored.ref];
    }

    method CaptureMatch(artifacts: map<string, Artifact>, artifactID: string, found: Match) returns (outcome: Outcome)
      requires Inverse(Value())
      modifies this
      ensures (Value(), outcome) == CaptureIn(old(Value()), artifacts, artifactID, found) && Inverse(Value())
      ensures AllGrounded(old(Value())) && Genuine(Capture(artifactID, found, artifacts)) ==>
                AllGrounded(Value()) && (outcome.Captured? ==> QuoteGrounded(outcome.quote))
    {
      CaptureAnswersGrounded(Value(), artifacts, artifactID, found);
      hide Genuine, AllGrounded, QuoteGrounded;
      if found.digest.None? || found.start < 0 || found.end <= found.start {
        return Failed(NotFromSearch);
      }
      if artifactID !in artifacts {
        return Failed(UnknownArtifact);
      }
      var record := artifacts[artifactID];
      var key := Key(artifactID, found.digest.value, found.start, found.end);
      var stored := StoreQuote(Quote(RefOf(key), true, artifactID, found.digest.value, record.title, record.url,
                                     Locate(found.line, found.endLine), found.text, found.line, found.endLine,
                                     found.start, found.end));
      return Captured(stored);
    }

    method ExpandQuote(artifacts: map<string, Artifact>, ref: Ref, beforeLines: int,
                       afterLines: int) returns (outcome: Outcome)
      requires Inverse(Value())
      modifies this
      ensures (Value(), outcome) == ExpandIn(old(Value()), artifacts, ref, beforeLines, afterLines) && Inverse(Value())
      ensures AllGrounded(old(Value())) ==>
                AllGrounded(Value()) && (outcome.Captured? ==> QuoteGrounded(outcome.quote))
    {
      ExpandAnswersGrounded(Value(), artifacts, ref, beforeLines, afterLines);
      hide AllGrounded, QuoteGrounded;
      if beforeLines < 0 || afterLines < 0 || beforeLines > MAX_CONTEXT_LINES || afterLines > MAX_CONTEXT_LINES {
        return Failed(BadContext);
      }
      if ref !in byRef {
        return Failed(UnknownQuote);
      }
      var base := byRef[ref];
      if base.artifactID !in artifacts {
        return Failed(UnknownArtifact);
      }
      var content := artifacts[base.artifactID].content;
      if Sha(content) != base.digest {
        return Failed(ArtifactChanged);
      }
      var normalized, lineStarts := NormalizeWithLines(content);
      outcome := Widen(base, normalized, lineStarts, beforeLines, afterLines);
      if outcome.Captured? {
        var stored := StoreQuote(outcome.quote);
        outcome := Captured(stored);
      }
    }

    /** All quotes, in some order. */
    method Snapshot() returns (records: seq<Quote>)
      requires Inverse(Value())
      ensures Lists(records, byRef)
    {
      records := [];
      var rest := byRef.Keys;
      while rest != {}
        invariant rest <= byRef.Keys && FreshRefs(records, |records|)
        invariant RefsOf(records, |records|) == byRef.Keys - rest
        invariant forall i :: 0 <= i < |records| ==> records[i].ref in byRef && byRef[records[i].ref] == records[i]
      {
        var ref :| ref in rest;
        ListOneMore(records, byRef[ref]);
        records := records + [byRef[ref]];
        rest := rest - {ref};
      }
    }

    /** Replaces the registry by the records, or changes nothing. */
    method Restore(records: seq<Quote>) returns (accepted: bool)
      modifies this
      ensures accepted <==> Restorable(records)
      ensures Value() == if accepted then TableOf(records, |records|) else old(Value())
    {
      var staged;
      accepted, staged := Stage(records);
      if accepted {
        byRef, byRange := staged.byRef, staged.byRange;
      }
    }

    static method Stage(records: seq<Quote>) returns (accepted: bool, staged: Table)
      ensures accepted <==> Restorable(records)
      ensures accepted ==> staged == TableOf(records, |records|)
    {
      staged := EMPTY;
      for i := 0 to |records|
        invariant staged == TableOf(records, i) && FreshRefs(records, i) && AllIntact(records, i)
                  && AllKeyed(records, i)
      {
        var q := records[i];
        TableOfRecords(records, i);
        if !Intact(q) {
          return false, staged;
        }
        if q.ref in staged.byRef {
          return false, staged;
        }
        if KeyOf(q) in staged.byRange {
          return false, staged;
        }
        staged := Table(staged.byRef[q.ref := q], staged.byRange[KeyOf(q) := q.ref]);
      }
      accepted := true;
    }
  }

  lemma ListOneMore(records: seq<Quote>, q: Quote)
    requires FreshRefs(records, |records|) && q.ref !in RefsOf(records, |records|)
    ensures FreshRefs(records + [q], |records| + 1)
    ensures RefsOf(records + [q], |records| + 1) == RefsOf(records, |records|) + {q.ref}
  {
    var more := records + [q];
    forall i | 0 <= i < |records| ensures more[i].ref != q.ref {
      assert records[i].ref in RefsOf(records, |records|);
    }
    forall ref ensures ref in RefsOf(more, |records| + 1) <==> ref in RefsOf(records, |records|) || ref == q.ref {
      if ref in RefsOf(records, |records|) {
        var i :| 0 <= i < |records| && records[i].ref == ref;
        assert more[i].ref == ref;
      }
      assert more[|records|].ref == q.ref;
    }
  }
}
