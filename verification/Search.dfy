/** What one regular-expression match becomes in a search of a normalised artifact
    (internal/evidence/artifact.go): its lines and its excerpt.  The engine's matches are
    pairs of byte offsets on code-point boundaries. */
module Search {
  import opened Options
  import opened Text
  import opened Unicode

  const MAX_MATCH_RUNES := 2000
  const MAX_EXCERPT_RUNES := 4000

  datatype Match = Match(line: nat, endLine: nat, matchedText: string, excerpt: string, start: nat, end: nat)

  /** What the search accepts from the engine. */
  ghost predicate Matched(text: string, start: int, end: int) {
    && 0 <= start < end <= ByteLen(text) && Boundary(text, start) && Boundary(text, end)
    && RuneIndex(text, end) - RuneIndex(text, start) <= MAX_MATCH_RUNES
  }

  function MatchLine(starts: seq<LineStart>, start: nat): nat
    requires First(Bytes(starts), start + 1) > 0
  {
    starts[First(Bytes(starts), start + 1) - 1].line
  }

  function MatchEndLine(starts: seq<LineStart>, end: nat): nat
    requires starts != []
  {
    var i := First(Bytes(starts), end);
    starts[if i > 0 then i - 1 else 0].line
  }

  /** `boundedArtifactExcerpt`; none when a slice bound lies outside the text. */
  function Excerpt(text: string, start: int, end: int): Option<string> {
    if |text| <= MAX_EXCERPT_RUNES then Some(text)
    else if !(0 <= start <= end <= ByteLen(text)) then None
    else
      var matchStart, matchEnd := RuneIndex(text, start), RuneIndex(text, end);
      var available := MAX_EXCERPT_RUNES - (matchEnd - matchStart);
      var half := if available >= 0 then available / 2 else -(-available / 2);
      var from := if matchStart - half > 0 then matchStart - half else 0;
      var begin := if from + MAX_EXCERPT_RUNES > |text| then |text| - MAX_EXCERPT_RUNES else from;
      Some(text[begin..begin + MAX_EXCERPT_RUNES])
  }

  function Before(line: nat, contextLines: nat): nat {
    if line > contextLines then line - contextLines else 1
  }

  /** `SearchArtifact` for one match of a normalised text; none when building the excerpt
      slices out of range. */
  function Located(text: string, starts: seq<LineStart>, start: nat, end: nat, contextLines: nat): Option<Match>
    requires Mapping(text, starts) && Matched(text, start, end)
  {
    LinesOfMatch(text, starts, start, end);
    var line := MatchLine(starts, start);
    var (a, b) := LineRange(starts, Before(line, contextLines), line + contextLines, ByteLen(text));
    Reported(text, line, MatchEndLine(starts, end), start, end, a, b)
  }

  function Reported(text: string, line: nat, endLine: nat, start: nat, end: nat, a: nat, b: nat): Option<Match> {
    var excerpt := Excerpt(Cut(text, a, b), start - a, end - a);
    if excerpt.None? then None else Some(Match(line, endLine, Cut(text, start, end), excerpt.value, start, end))
  }

  // ------------------------------------------------------------------ lines

  /** The searched lines are those of the first and the last byte of the match. */
  lemma LinesOfMatch(text: string, starts: seq<LineStart>, start: nat, end: nat)
    requires Mapping(text, starts) && start < end <= ByteLen(text)
    ensures starts != [] && First(Bytes(starts), start + 1) > 0
    ensures MatchLine(starts, start) == LineAt(starts, start)
    ensures MatchEndLine(starts, end) == LineAt(starts, end - 1)
    ensures 1 <= MatchLine(starts, start) <= MatchEndLine(starts, end) <= starts[|starts| - 1].line
  {
    assert text != [];
    LineIsSearched(starts, start + 1);
    LineIsSearched(starts, end);
    LineAtGrows(starts, start, end - 1);
    FirstLine(starts, start);
  }

  lemma FirstLine(starts: seq<LineStart>, o: nat)
    requires Increasing(starts) && starts != [] && starts[0].byte == 0
    ensures LineAt(starts, o) >= starts[0].line
  {
    LineUpToSplits(starts, 0, 1, |starts|);
    LineAtGrows(starts, 0, o);
  }

  /** Rune `k` of the normalised text, unless a separator, is the rune `origin` of the source,
      and that one is on `line`. */
  ghost predicate OnLine(content: string, text: string, origin: int, k: nat, line: nat)
    requires k < |text|
  {
    origin >= 0 ==> origin < |content| && text[k] == content[origin] && line == Line(content, origin)
  }

  lemma ByteOnLine(content: string, k: nat, o: int)
    requires Covers(Normalize(content), k, o)
    ensures |Origin(content)| == |Normalize(content)|
    ensures OnLine(content, Normalize(content), Origin(content)[k], k, LineAt(Starts(content), o))
  {
    LineMapIsTrue(content, |content|, k, o);
  }

  // ----------------------------------------------------------- the excerpt

  /** `part` occurs in `whole`. */
  ghost predicate Contains(whole: string, part: string) {
    exists p, q :: 0 <= p <= q <= |whole| && whole[p..q] == part
  }

  /** All of a short text, and of a longer one 4000 runes around those from `i` to `j`, as many
      before as after unless the text ends. */
  ghost predicate Around(text: string, i: nat, j: nat, excerpt: string) {
    if |text| <= MAX_EXCERPT_RUNES then excerpt == text
    else exists p :: AroundAt(text, i, j, excerpt, p)
  }

  ghost predicate AroundAt(text: string, i: nat, j: nat, excerpt: string, p: int) {
    var q := p + MAX_EXCERPT_RUNES;
    && 0 <= p <= i && j <= q <= |text| && excerpt == text[p..q]
    && (p == 0 || q == |text| || 0 <= (q - j) - (i - p) <= 1)
  }

  /** Cutting a long excerpt down keeps the match, and the bound. */
  lemma ExcerptKeepsMatch(text: string, start: int, end: int)
    requires 0 <= start <= end <= ByteLen(text) && RuneIndex(text, end) - RuneIndex(text, start) <= MAX_MATCH_RUNES
    ensures var excerpt := Excerpt(text, start, end);
            excerpt.Some? && |excerpt.value| <= MAX_EXCERPT_RUNES && Contains(excerpt.value, Cut(text, start, end))
  {
    IndexGrows(text, start, end);
    var i, j := RuneIndex(text, start), RuneIndex(text, end);
    var excerpt := Excerpt(text, start, end).value;
    if |text| <= MAX_EXCERPT_RUNES {
      assert excerpt[i..j] == Cut(text, start, end);
    } else {
      var half := (MAX_EXCERPT_RUNES - (j - i)) / 2;
      var from := if i - half > 0 then i - half else 0;
      var begin := if from + MAX_EXCERPT_RUNES > |text| then |text| - MAX_EXCERPT_RUNES else from;
      SliceOfSlice(text, begin, begin + MAX_EXCERPT_RUNES, i, j);
      assert excerpt[i - begin..j - begin] == Cut(text, start, end);
    }
  }

  /** ...and it is the text around the match. */
  lemma ExcerptIsAround(text: string, start: int, end: int)
    requires 0 <= start <= end <= ByteLen(text) && RuneIndex(text, end) - RuneIndex(text, start) <= MAX_MATCH_RUNES
    ensures Excerpt(text, start, end).Some?
    ensures Around(text, RuneIndex(text, start), RuneIndex(text, end), Excerpt(text, start, end).value)
  {
    IndexGrows(text, start, end);
    hide RuneIndex;
    if |text| > MAX_EXCERPT_RUNES {
      var i, j := RuneIndex(text, start), RuneIndex(text, end);
      var half := (MAX_EXCERPT_RUNES - (j - i)) / 2;
      var from := if i - half > 0 then i - half else 0;
      var begin := if from + MAX_EXCERPT_RUNES > |text| then |text| - MAX_EXCERPT_RUNES else from;
      assert AroundAt(text, i, j, Excerpt(text, start, end).value, begin);
    }
  }

  /** The context's bytes: from `a` up to `b`. */
  ghost predicate Context(text: string, starts: seq<LineStart>, start: nat, contextLines: nat, a: nat, b: nat) {
    var line := LineAt(starts, start);
    && a == FirstByte(starts, Before(line, contextLines), ByteLen(text))
    && b == FirstByte(starts, line + contextLines + 1, ByteLen(text))
  }

  /** The context is the bytes of the lines at most `contextLines` away from where the match
      starts; it holds all of the match exactly when the match ends within them. */
  lemma ContextOfMatch(text: string, starts: seq<LineStart>, start: nat, end: nat, contextLines: nat, a: nat, b: nat)
    requires Mapping(text, starts) && start < end <= ByteLen(text) && Context(text, starts, start, contextLines, a, b)
    ensures a <= start < b
    ensures end <= b <==> LineAt(starts, end - 1) <= LineAt(starts, start) + contextLines
    ensures forall o :: 0 <= o < ByteLen(text) ==>
              (a <= o < b <==>
                 LineAt(starts, o) <= LineAt(starts, start) + contextLines
                 && LineAt(starts, start) <= LineAt(starts, o) + contextLines)
  {
    var line := LineAt(starts, start);
    assert 1 <= line by {
      LinesOfMatch(text, starts, start, end);
    }
    forall o | 0 <= o < ByteLen(text)
      ensures a <= o < b <==> LineAt(starts, o) <= line + contextLines && line <= LineAt(starts, o) + contextLines
    {
      LinesOfMatch(text, starts, o, o + 1);
      FirstByteSplits(text, starts, Before(line, contextLines), o);
      FirstByteSplits(text, starts, line + contextLines + 1, o);
    }
    FirstByteSplits(text, starts, Before(line, contextLines), start);
    FirstByteSplits(text, starts, line + contextLines + 1, start);
    FirstByteSplits(text, starts, line + contextLines + 1, end - 1);
  }

  /** What the search reports: the lines of the first and the last byte, and the context. */
  lemma LocatedIsReported(text: string, starts: seq<LineStart>, start: nat, end: nat, contextLines: nat, a: nat, b: nat)
    requires Mapping(text, starts) && Matched(text, start, end) && Context(text, starts, start, contextLines, a, b)
    ensures Located(text, starts, start, end, contextLines)
            == Reported(text, LineAt(starts, start), LineAt(starts, end - 1), start, end, a, b)
    ensures LineAt(starts, start) <= LineAt(starts, end - 1)
  {
    hide Reported, Excerpt, Cut, Boundary, LineAt, FirstByte;
    LinesOfMatch(text, starts, start, end);
    var line, endLine := MatchLine(starts, start), MatchEndLine(starts, end);
    assert LineRange(starts, Before(line, contextLines), line + contextLines, ByteLen(text)) == (a, b);
    assert Located(text, starts, start, end, contextLines) == Reported(text, line, endLine, start, end, a, b);
  }

  /** A match from rune `i` to rune `j` of the normalised text reports the true source lines
      of both, separators apart. */
  lemma MatchLinesAreTrue(content: string, m: Match, i: nat, j: nat, a: nat, b: nat)
    requires Covers(Normalize(content), i, m.start) && Covers(Normalize(content), j, m.end - 1)
    requires Some(m)
             == Reported(Normalize(content), LineAt(Starts(content), m.start), LineAt(Starts(content), m.end - 1),
                                 m.start, m.end, a, b)
    ensures |Origin(content)| == |Normalize(content)|
    ensures OnLine(content, Normalize(content), Origin(content)[i], i, m.line)
    ensures OnLine(content, Normalize(content), Origin(content)[j], j, m.endLine)
  {
    ByteOnLine(content, i, m.start);
    ByteOnLine(content, j, m.end - 1);
  }

  lemma ContextOnBoundaries(text: string, starts: seq<LineStart>, start: nat, contextLines: nat, a: nat, b: nat)
    requires Mapping(text, starts) && Aligned(text, starts) && Context(text, starts, start, contextLines, a, b)
    ensures Boundary(text, a) && Boundary(text, b)
  {
    var line := LineAt(starts, start);
    FirstByteOnBoundary(text, starts, Before(line, contextLines));
    FirstByteOnBoundary(text, starts, line + contextLines + 1);
  }

  lemma ReportedIff(text: string, line: nat, endLine: nat, start: nat, end: nat, a: nat, b: nat)
    requires Boundary(text, a) && Boundary(text, start) && Boundary(text, b) && a <= start <= end && start <= b
    ensures Reported(text, line, endLine, start, end, a, b).Some? <==>
              |Cut(text, a, b)| <= MAX_EXCERPT_RUNES || end <= b
  {
    CutOffsets(text, a, start, b);
  }

  lemma ReportedFields(text: string, line: nat, endLine: nat, start: nat, end: nat, a: nat, b: nat, cut: string)
    requires cut == Cut(text, a, b) && Excerpt(cut, start - a, end - a).Some?
    ensures var m := Reported(text, line, endLine, start, end, a, b);
            m.Some? && m.value.excerpt == Excerpt(cut, start - a, end - a).value
            && m.value.matchedText == Cut(text, start, end)
  {
  }

  /** The excerpt is the part of the context around the match. */
  ghost predicate AroundMatch(cut: string, start: int, end: int, excerpt: string) {
    && 0 <= start <= end <= ByteLen(cut)
    && Around(cut, RuneIndex(cut, start), RuneIndex(cut, end), excerpt)
  }

  lemma ReportedWhole(text: string, line: nat, endLine: nat, start: nat, end: nat, a: nat, b: nat)
    requires Boundary(text, a) && Boundary(text, b) && Matched(text, start, end) && a <= start < end <= b
    ensures var m := Reported(text, line, endLine, start, end, a, b);
            && m.Some? && |m.value.excerpt| <= MAX_EXCERPT_RUNES
            && m.value.matchedText == Cut(text, start, end) && Contains(m.value.excerpt, m.value.matchedText)
            && AroundMatch(Cut(text, a, b), start - a, end - a, m.value.excerpt)
  {
    hide Contains, Boundary, Excerpt, AroundMatch;
    CutInside(text, a, start, end, b);
    ExcerptOfCut(Cut(text, a, b), start - a, end - a, Cut(text, start, end));
    ReportedFields(text, line, endLine, start, end, a, b, Cut(text, a, b));
  }

  lemma ExcerptOfCut(cut: string, start: int, end: int, part: string)
    requires 0 <= start <= end <= ByteLen(cut) && RuneIndex(cut, end) - RuneIndex(cut, start) <= MAX_MATCH_RUNES
    requires part == Cut(cut, start, end)
    ensures var excerpt := Excerpt(cut, start, end);
            excerpt.Some? && |excerpt.value| <= MAX_EXCERPT_RUNES && Contains(excerpt.value, part)
            && AroundMatch(cut, start, end, excerpt.value)
  {
    hide Excerpt, Around, Contains;
    ExcerptKeepsMatch(cut, start, end);
    ExcerptIsAround(cut, start, end);
  }

  /** A match is reported exactly when its context is short or holds all of it; otherwise
      cutting the context down slices out of range. */
  lemma ReportedExactlyWhen(text: string, starts: seq<LineStart>, start: nat, end: nat, contextLines: nat, a: nat,
                            b: nat)
    requires Mapping(text, starts) && Aligned(text, starts) && Matched(text, start, end)
    requires Context(text, starts, start, contextLines, a, b)
    ensures Located(text, starts, start, end, contextLines).Some? <==>
              |Cut(text, a, b)| <= MAX_EXCERPT_RUNES || LineAt(starts, end - 1) <= LineAt(starts, start) + contextLines
  {
    ContextOfMatch(text, starts, start, end, contextLines, a, b);
    ContextOnBoundaries(text, starts, start, contextLines, a, b);
    ReportedIff(text, LineAt(starts, start), LineAt(starts, end - 1), start, end, a, b);
    LocatedIsReported(text, starts, start, end, contextLines, a, b);
  }

  /** A source line of `xs` alone, and one of a single rune below it. */
  lemma TwoLines(xs: string, content: string)
    requires xs != [] && (forall k :: 0 <= k < |xs| ==> xs[k] == 'x') && content == xs + "\ny"
    ensures Normalize(content) == xs + " y" && Starts(content) == [LineStart(0, 1), LineStart(|xs| + 1, 2)]
  {
    FirstLineOnly(xs, content, |xs|);
    AsciiOffset(xs + [' '], |xs| + 1);
    SecondLine(xs, content, |xs|);
  }

  lemma FirstLineOnly(xs: string, content: string, n: nat)
    requires 0 < n == |xs| && (forall k :: 0 <= k < n ==> xs[k] == 'x') && content == xs + "\ny"
    ensures Gapped(content, n + 1) == xs + [' '] && StartsTo(content, n + 1) == [LineStart(0, 1)]
    ensures Newlines(content, n + 1) == 1
  {
    hide Mapped, Join, Offset;
    FirstWord(xs, content, n);
    assert content[n] == '\n' && content[..n] == xs;
    assert NormalizeTo(content, n + 1) == NormalizeTo(content, n) by {
      assert FieldsTo(content, n + 1) == FieldsTo(content, n);
    }
  }

  lemma SecondLine(xs: string, content: string, n: nat)
    requires n == |xs| && content == xs + "\ny" && Gapped(content, n + 1) == xs + [' ']
    requires StartsTo(content, n + 1) == [LineStart(0, 1)] && Newlines(content, n + 1) == 1
    requires ByteLen(xs + [' ']) == n + 1
    ensures Normalize(content) == xs + " y" && Starts(content) == [LineStart(0, 1), LineStart(n + 1, 2)]
  {
    hide Gapped, Offset, Join, FieldsTo, Newlines;
    assert content[n + 1] == 'y' && |content| == n + 2;
    NormalizeStep(content, n + 2);
    assert xs + [' '] + ['y'] == xs + " y";
  }

  lemma {:induction false} FirstWord(xs: string, content: string, n: nat)
    requires 0 < n <= |xs| && (forall k :: 0 <= k < |xs| ==> xs[k] == 'x') && xs <= content
    ensures NormalizeTo(content, n) == content[..n] && StartsTo(content, n) == [LineStart(0, 1)]
            && Newlines(content, n) == 0
  {
    assert content[n - 1] == xs[n - 1];
    if n == 1 {
      FirstRune(content);
    } else {
      assert content[n - 2] == xs[n - 2];
      FirstWord(xs, content, n - 1);
      WordGrows(content, n);
    }
  }

  lemma WordGrows(content: string, n: nat)
    requires 1 < n <= |content| && content[n - 2] == content[n - 1] == 'x'
    requires NormalizeTo(content, n - 1) == content[..n - 1] && StartsTo(content, n - 1) == [LineStart(0, 1)]
    requires Newlines(content, n - 1) == 0
    ensures NormalizeTo(content, n) == content[..n] && StartsTo(content, n) == [LineStart(0, 1)]
    ensures Newlines(content, n) == 0
  {
    hide NormalizeTo, FieldsTo, ByteLen;
    NormalizeStep(content, n);
    TakeOneMore(content, n);
  }

  lemma TakeOneMore(s: string, n: nat)
    requires 0 < n <= |s|
    ensures s[..n] == s[..n - 1] + [s[n - 1]]
  {
  }

  lemma FirstRune(content: string)
    requires content != [] && content[0] == 'x'
    ensures NormalizeTo(content, 1) == content[..1] && StartsTo(content, 1) == [LineStart(0, 1)]
    ensures Newlines(content, 1) == 0
  {
    assert FieldsTo(content, 1) == [[content[0]]];
  }

  lemma {:induction false} AsciiOffset(s: string, k: nat)
    requires k <= |s| && forall i :: 0 <= i < k ==> s[i] < 0x80 as char
    ensures Offset(s, k) == k
  {
    if k > 0 {
      AsciiOffset(s, k - 1);
    }
  }

  lemma StartsLieOnRunes(content: string)
    ensures Aligned(Normalize(content), Starts(content))
  {
    StartsAlign(content, |content|);
  }

  /** On one line of more than 4000 runes, a match of its last rune, the separator and the
      first rune of the next line cannot be reported without context. */
  lemma CrossingMatchFails(xs: string)
    requires |xs| >= MAX_EXCERPT_RUNES && forall k :: 0 <= k < |xs| ==> xs[k] == 'x'
    ensures var text, starts := Normalize(xs + "\ny"), Starts(xs + "\ny");
            && Mapping(text, starts) && Matched(text, |xs| - 1, |xs| + 2)
            && Located(text, starts, |xs| - 1, |xs| + 2, 0) == None
  {
    hide Normalize, Starts, Mapping, Aligned, Matched, Located;
    var content := xs + "\ny";
    TwoLines(xs, content);
    StartsMap(content);
    StartsLieOnRunes(content);
    CrossingFails(xs, Normalize(content), Starts(content), |xs|);
  }

  lemma CrossingFails(xs: string, text: string, starts: seq<LineStart>, n: nat)
    requires Mapping(text, starts) && Aligned(text, starts) && |xs| == n >= MAX_EXCERPT_RUNES
    requires (forall k :: 0 <= k < n ==> xs[k] == 'x') && text == xs + " y"
    requires starts == [LineStart(0, 1), LineStart(n + 1, 2)]
    ensures Matched(text, n - 1, n + 2) && Located(text, starts, n - 1, n + 2, 0) == None
  {
    hide Matched, Mapping, Aligned, Located, Cut, LineAt, FirstByte;
    CrossingBytes(xs, text, n);
    CrossingContext(starts, n);
    ReportedExactlyWhen(text, starts, n - 1, n + 2, 0, 0, n + 1);
  }

  lemma CrossingBytes(xs: string, text: string, n: nat)
    requires |xs| == n >= 2 && (forall k :: 0 <= k < n ==> xs[k] == 'x') && text == xs + " y"
    ensures ByteLen(text) == n + 2 && Matched(text, n - 1, n + 2) && |Cut(text, 0, n + 1)| == n + 1
  {
    AsciiOffset(text, n - 1);
    AsciiOffset(text, n + 1);
    AsciiOffset(text, n + 2);
    IndexOfOffset(text, 0);
    IndexOfOffset(text, n - 1);
    IndexOfOffset(text, n + 1);
    IndexOfOffset(text, n + 2);
  }

  lemma CrossingContext(starts: seq<LineStart>, n: nat)
    requires n > 0 && starts == [LineStart(0, 1), LineStart(n + 1, 2)]
    ensures FirstByte(starts, 1, n + 2) == 0 && FirstByte(starts, 2, n + 2) == n + 1
    ensures LineAt(starts, n - 1) == 1 && LineAt(starts, n + 1) == 2
  {
    assert |starts| == 2 && starts[0] == LineStart(0, 1) && starts[1] == LineStart(n + 1, 2);
    LineUpToSplits(starts, n - 1, 1, 2);
    LineUpToSplits(starts, n + 1, 2, 2);
    assert |Lines(starts)| == 2 && Lines(starts)[0] == 1 && Lines(starts)[1] == 2 && starts[1].byte == n + 1;
    FirstSplits(Lines(starts), 1);
    FirstSplits(Lines(starts), 2);
  }

  /** A match that ends within the context is shown whole by its excerpt, which is the context
      itself or the part of it around the match. */
  lemma ExcerptShowsMatch(text: string, starts: seq<LineStart>, start: nat, end: nat, contextLines: nat, a: nat, b: nat)
    requires Mapping(text, starts) && Aligned(text, starts) && Matched(text, start, end)
    requires Context(text, starts, start, contextLines, a, b)
    requires LineAt(starts, end - 1) <= LineAt(starts, start) + contextLines
    ensures var m := Located(text, starts, start, end, contextLines);
            && m.Some? && |m.value.excerpt| <= MAX_EXCERPT_RUNES
            && m.value.matchedText == Cut(text, start, end) && Contains(m.value.excerpt, m.value.matchedText)
            && AroundMatch(Cut(text, a, b), start - a, end - a, m.value.excerpt)
  {
    hide AroundMatch, Contains, Cut;
    ContextOfMatch(text, starts, start, end, contextLines, a, b);
    ContextOnBoundaries(text, starts, start, contextLines, a, b);
    ReportedWhole(text, LineAt(starts, start), LineAt(starts, end - 1), start, end, a, b);
    LocatedIsReported(text, starts, start, end, contextLines, a, b);
  }
}
