/** Whitespace normalisation with a line map, and the line arithmetic of an artifact search
    (internal/evidence/io.go and internal/evidence/artifact.go).  Offsets count UTF-8 bytes;
    a function of `(s, n)` looks at the first `n` runes of `s`. */
module Text {
  import opened Options
  import opened Unicode

  // --------------------------------------------------------- the simple form

  /** A non-empty run of non-space runes. */
  predicate Word(f: string) {
    f != [] && forall i :: 0 <= i < |f| ==> !IsSpace(f[i])
  }

  /** The last field with one more rune. */
  function Grow(fields: seq<string>, c: char): seq<string> {
    if fields == [] then [[c]] else fields[|fields| - 1 := fields[|fields| - 1] + [c]]
  }

  function FieldsTo(s: string, n: nat): seq<string>
    requires n <= |s|
  {
    if n == 0 then []
    else if IsSpace(s[n - 1]) then FieldsTo(s, n - 1)
    else if n == 1 || IsSpace(s[n - 2]) then FieldsTo(s, n - 1) + [[s[n - 1]]]
    else Grow(FieldsTo(s, n - 1), s[n - 1])
  }

  /** `strings.Fields`: the maximal runs of non-space runes. */
  function Fields(s: string): seq<string> {
    FieldsTo(s, |s|)
  }

  function JoinTo(fields: seq<string>, n: nat): string
    requires n <= |fields|
  {
    if n == 0 then [] else if n == 1 then fields[0] else JoinTo(fields, n - 1) + [' '] + fields[n - 1]
  }

  /** `strings.Join(fields, " ")`. */
  function Join(fields: seq<string>): string {
    JoinTo(fields, |fields|)
  }

  function Normalize(s: string): string {
    Join(Fields(s))
  }

  function NonSpacesTo(s: string, n: nat): string
    requires n <= |s|
  {
    if n == 0 then []
    else if IsSpace(s[n - 1]) then NonSpacesTo(s, n - 1) else NonSpacesTo(s, n - 1) + [s[n - 1]]
  }

  // ------------------------------------------------------------ the line map

  datatype LineStart = LineStart(byte: nat, line: nat)

  function Newlines(s: string, n: nat): nat
    requires n <= |s|
  {
    if n == 0 then 0 else Newlines(s, n - 1) + if s[n - 1] == '\n' then 1 else 0
  }

  /** The source line of rune `i`, counted from 1. */
  function Line(s: string, i: nat): nat
    requires i <= |s|
  {
    1 + Newlines(s, i)
  }

  function NormalizeTo(s: string, n: nat): string
    requires n <= |s|
  {
    Join(FieldsTo(s, n))
  }

  /** The normalised text with the separator that the next rune needs. */
  function Gapped(s: string, n: nat): string
    requires n <= |s|
  {
    if n > 0 && IsSpace(s[n - 1]) && NormalizeTo(s, n) != [] then NormalizeTo(s, n) + [' '] else NormalizeTo(s, n)
  }

  /** Records a line when its first text rune is reached. */
  function Mapped(starts: seq<LineStart>, byte: nat, line: nat): seq<LineStart> {
    if starts != [] && starts[|starts| - 1].line == line then starts else starts + [LineStart(byte, line)]
  }

  function StartsTo(s: string, n: nat): seq<LineStart>
    requires n <= |s|
  {
    if n == 0 then []
    else if IsSpace(s[n - 1]) then StartsTo(s, n - 1)
    else Mapped(StartsTo(s, n - 1), ByteLen(Gapped(s, n - 1)), Line(s, n - 1))
  }

  /** Where the normalised text first reaches each source line that carries text. */
  function Starts(s: string): seq<LineStart> {
    StartsTo(s, |s|)
  }

  function OriginTo(s: string, n: nat): seq<int>
    requires n <= |s|
  {
    if n == 0 then []
    else if IsSpace(s[n - 1]) then OriginTo(s, n - 1)
    else if |Gapped(s, n - 1)| > |NormalizeTo(s, n - 1)| then OriginTo(s, n - 1) + [-1, n - 1]
    else OriginTo(s, n - 1) + [n - 1]
  }

  /** For each rune of the normalised text its source rune, or -1 for a separator. */
  function Origin(s: string): seq<int> {
    OriginTo(s, |s|)
  }

  /** The line of the last of the first `n` starts at or below byte `o`. */
  function LineUpTo(starts: seq<LineStart>, o: int, n: nat): nat
    requires n <= |starts|
  {
    if n == 0 then 0
    else if starts[n - 1].byte <= o then starts[n - 1].line
    else LineUpTo(starts, o, n - 1)
  }

  /** The line of the last start at or below byte `o`. */
  function LineAt(starts: seq<LineStart>, o: int): nat {
    LineUpTo(starts, o, |starts|)
  }

  ghost predicate Increasing(starts: seq<LineStart>) {
    forall i, j :: 0 <= i < j < |starts| ==> starts[i].byte < starts[j].byte && starts[i].line < starts[j].line
  }

  // ------------------------------------------------------------------ lemmas

  /** Each field is a word, and text has a field. */
  lemma {:induction false} FieldsAreWords(s: string, n: nat)
    requires n <= |s|
    ensures forall i :: 0 <= i < |FieldsTo(s, n)| ==> Word(FieldsTo(s, n)[i])
    ensures n > 0 && !IsSpace(s[n - 1]) ==> FieldsTo(s, n) != []
  {
    if n > 0 {
      FieldsAreWords(s, n - 1);
    }
  }

  lemma {:induction false} JoinAgrees(a: seq<string>, b: seq<string>, n: nat)
    requires n <= |a| && n <= |b| && forall i :: 0 <= i < n ==> a[i] == b[i]
    ensures JoinTo(a, n) == JoinTo(b, n)
  {
    if n > 0 {
      JoinAgrees(a, b, n - 1);
    }
  }

  lemma ConcatAssociates(a: string, b: string, c: string)
    ensures a + (b + c) == (a + b) + c
  {
  }

  lemma JoinGrows(fields: seq<string>, c: char)
    requires fields != []
    ensures Join(Grow(fields, c)) == Join(fields) + [c]
  {
    var last := |fields| - 1;
    JoinAgrees(fields, Grow(fields, c), last);
    if last > 0 {
      ConcatAssociates(JoinTo(fields, last) + [' '], fields[last], [c]);
    }
  }

  lemma JoinAppends(fields: seq<string>, f: string)
    ensures Join(fields + [f]) == if fields == [] then f else Join(fields) + [' '] + f
  {
    JoinAgrees(fields, fields + [f], |fields|);
  }

  lemma JoinEmpty(fields: seq<string>)
    requires forall i :: 0 <= i < |fields| ==> Word(fields[i])
    ensures Join(fields) == [] <==> fields == []
  {
  }

  /** One more rune: dropped when it is a space, else appended, after a separator if needed. */
  lemma NormalizeStep(s: string, n: nat)
    requires 0 < n <= |s|
    ensures NormalizeTo(s, n) == if IsSpace(s[n - 1]) then NormalizeTo(s, n - 1) else Gapped(s, n - 1) + [s[n - 1]]
  {
    var rest := FieldsTo(s, n - 1);
    FieldsAreWords(s, n - 1);
    JoinEmpty(rest);
    if !IsSpace(s[n - 1]) {
      if n == 1 || IsSpace(s[n - 2]) {
        JoinAppends(rest, [s[n - 1]]);
      } else {
        JoinGrows(rest, s[n - 1]);
      }
    }
  }

  lemma {:induction false} NonSpacesAgree(a: string, b: string, n: nat)
    requires n <= |a| && n <= |b| && forall i :: 0 <= i < n ==> a[i] == b[i]
    ensures NonSpacesTo(a, n) == NonSpacesTo(b, n)
  {
    if n > 0 {
      NonSpacesAgree(a, b, n - 1);
    }
  }

  lemma NonSpacesAppend(text: string, c: char)
    requires !IsSpace(c)
    ensures NonSpacesTo(text + [c], |text| + 1) == NonSpacesTo(text, |text|) + [c]
  {
    NonSpacesAgree(text, text + [c], |text|);
  }

  lemma NonSpacesGap(text: string)
    ensures NonSpacesTo(text + [' '], |text| + 1) == NonSpacesTo(text, |text|)
  {
    NonSpacesAgree(text, text + [' '], |text|);
  }

  /** Normalising neither loses, adds nor reorders text. */
  lemma {:induction false} NormalizeKeepsText(s: string, n: nat)
    requires n <= |s|
    ensures NonSpacesTo(NormalizeTo(s, n), |NormalizeTo(s, n)|) == NonSpacesTo(s, n)
  {
    if n == 0 {
      assert NormalizeTo(s, 0) == [];
    } else {
      hide NormalizeTo, FieldsTo, Join, IsSpace;
      NormalizeKeepsText(s, n - 1);
      NormalizeStep(s, n);
      if !IsSpace(s[n - 1]) {
        NonSpacesStep(NormalizeTo(s, n - 1), Gapped(s, n - 1), NormalizeTo(s, n), s[n - 1]);
      }
    }
  }

  lemma NonSpacesStep(before: string, gapped: string, after: string, c: char)
    requires !IsSpace(c) && (gapped == before || gapped == before + [' ']) && after == gapped + [c]
    ensures NonSpacesTo(after, |after|) == NonSpacesTo(before, |before|) + [c]
  {
    hide NonSpacesTo;
    NonSpacesAppend(gapped, c);
    NonSpacesGap(before);
  }

  /** The shape of a line map of `text`: strictly increasing in both fields, from offset 0,
      inside the text. */
  ghost predicate Mapping(text: string, starts: seq<LineStart>) {
    && Increasing(starts) && (starts == [] <==> text == [])
    && (starts != [] ==> starts[0].byte == 0 && starts[0].line >= 1 && starts[|starts| - 1].byte < ByteLen(text))
  }

  /** ...and not beyond `line`. */
  ghost predicate Shape(text: string, starts: seq<LineStart>, line: nat) {
    Mapping(text, starts) && (starts != [] ==> starts[|starts| - 1].line <= line)
  }

  ghost predicate Aligned(text: string, starts: seq<LineStart>) {
    forall i :: 0 <= i < |starts| ==> Boundary(text, starts[i].byte)
  }

  lemma ShapeStep(text: string, gapped: string, starts: seq<LineStart>, c: char, before: nat, line: nat)
    requires Shape(text, starts, before) && 1 <= before <= line
    requires gapped == text || (text != [] && gapped == text + [' '])
    ensures Shape(gapped + [c], Mapped(starts, ByteLen(gapped), line), line)
  {
    ByteLenConcat(gapped, [c]);
    ByteLenConcat(text, [' ']);
    assert ByteLen(text) <= ByteLen(gapped) < ByteLen(gapped + [c]);
    MappedIncreases(starts, ByteLen(gapped), line);
  }

  lemma MappedIncreases(starts: seq<LineStart>, byte: nat, line: nat)
    requires Increasing(starts)
    requires starts != [] ==> starts[|starts| - 1].byte < byte && starts[|starts| - 1].line <= line
    ensures Increasing(Mapped(starts, byte, line))
  {
  }

  /** One more rune: a space changes nothing but the line. */
  lemma ShapeNext(text: string, gapped: string, starts: seq<LineStart>, c: char, before: nat,
                  next: string, mapped: seq<LineStart>, line: nat)
    requires Shape(text, starts, before) && 1 <= before <= line
    requires gapped == text || (text != [] && gapped == text + [' '])
    requires if IsSpace(c) then next == text && mapped == starts
             else next == gapped + [c] && mapped == Mapped(starts, ByteLen(gapped), before)
    ensures Shape(next, mapped, line)
  {
    if !IsSpace(c) {
      ShapeStep(text, gapped, starts, c, before, before);
    }
  }

  /** Line starts strictly increase in both fields, from offset 0. */
  lemma {:induction false} StartsShape(s: string, n: nat)
    requires n <= |s|
    ensures Shape(NormalizeTo(s, n), StartsTo(s, n), Line(s, n))
  {
    if n > 0 {
      StartsShape(s, n - 1);
      NormalizeStep(s, n);
      ShapeNext(NormalizeTo(s, n - 1), Gapped(s, n - 1), StartsTo(s, n - 1), s[n - 1], Line(s, n - 1),
                NormalizeTo(s, n), StartsTo(s, n), Line(s, n));
    }
  }

  lemma AlignStep(text: string, gapped: string, starts: seq<LineStart>, c: char, line: nat)
    requires Aligned(text, starts) && (gapped == text || gapped == text + [' '])
    ensures Aligned(gapped + [c], Mapped(starts, ByteLen(gapped), line))
  {
    var next := Mapped(starts, ByteLen(gapped), line);
    forall i | 0 <= i < |next| ensures Boundary(gapped + [c], next[i].byte) {
      if i < |starts| {
        BoundaryExtends(text, [' '], starts[i].byte);
        BoundaryExtends(gapped, [c], starts[i].byte);
      } else {
        OffsetAgrees(gapped + [c], gapped, |gapped|);
        IndexOfOffset(gapped + [c], |gapped|);
      }
    }
  }

  /** Every start lies on a code point of the normalised text. */
  lemma {:induction false} StartsAlign(s: string, n: nat)
    requires n <= |s|
    ensures Aligned(NormalizeTo(s, n), StartsTo(s, n))
  {
    if n > 0 {
      StartsAlign(s, n - 1);
      NormalizeStep(s, n);
      if !IsSpace(s[n - 1]) {
        AlignStep(NormalizeTo(s, n - 1), Gapped(s, n - 1), StartsTo(s, n - 1), s[n - 1], Line(s, n - 1));
      }
    }
  }

  lemma {:induction false} OriginLength(s: string, n: nat)
    requires n <= |s|
    ensures |OriginTo(s, n)| == |NormalizeTo(s, n)|
  {
    if n > 0 {
      OriginLength(s, n - 1);
      NormalizeStep(s, n);
    }
  }

  /** What the map says about byte `o`, in rune `k` of the normalised text: a text rune is on
      its true source line, a separator on the line of the byte before it. */
  ghost predicate TrueLine(s: string, text: string, starts: seq<LineStart>, origin: int, k: nat, o: int) {
    && k < |text|
    && if origin < 0 then text[k] == ' ' && LineAt(starts, o) == LineAt(starts, o - 1)
       else origin < |s| && text[k] == s[origin] && LineAt(starts, o) == Line(s, origin)
  }

  lemma CoversPrefix(a: string, gapped: string, c: char, k: nat, o: int)
    requires (gapped == a || gapped == a + [' ']) && k < |a| && Covers(gapped + [c], k, o)
    ensures Covers(a, k, o)
  {
    OffsetAgrees(a, gapped + [c], k);
    OffsetAgrees(a, gapped + [c], k + 1);
  }

  lemma {:induction false} LineUpToAgrees(a: seq<LineStart>, b: seq<LineStart>, o: int, n: nat)
    requires n <= |a| && n <= |b| && forall i :: 0 <= i < n ==> a[i] == b[i]
    ensures LineUpTo(a, o, n) == LineUpTo(b, o, n)
  {
    if n > 0 {
      LineUpToAgrees(a, b, o, n - 1);
    }
  }

  /** A new start says nothing about the bytes before it. */
  lemma MappedAbove(starts: seq<LineStart>, byte: nat, line: nat, o: int)
    requires o < byte
    ensures LineAt(Mapped(starts, byte, line), o) == LineAt(starts, o)
  {
    LineUpToAgrees(starts, Mapped(starts, byte, line), o, |starts|);
  }

  /** At or past `byte` the line is the one just recorded; between the text's end and `byte`
      it is the last one before. */
  lemma MappedAt(text: string, starts: seq<LineStart>, byte: nat, line: nat, o: int)
    requires Shape(text, starts, line) && ByteLen(text) <= byte && ByteLen(text) <= o
    ensures o >= byte ==> LineAt(Mapped(starts, byte, line), o) == line
    ensures o < byte && text != [] ==>
              LineAt(Mapped(starts, byte, line), o) == LineAt(Mapped(starts, byte, line), o - 1)
  {
    if o < byte {
      MappedAbove(starts, byte, line, o);
      MappedAbove(starts, byte, line, o - 1);
    }
  }

  /** An older rune keeps its line when `c` is appended... */
  lemma OldRune(s: string, before: string, gapped: string, c: char, rest: seq<LineStart>, line: nat, origin: int,
                k: nat, o: int)
    requires (gapped == before || gapped == before + [' ']) && Covers(before, k, o)
             && TrueLine(s, before, rest, origin, k, o)
    ensures TrueLine(s, gapped + [c], Mapped(rest, ByteLen(gapped), line), origin, k, o)
  {
    OffsetAgrees(before, gapped, |before|);
    OffsetGrows(before, k + 1, |before|);
    OffsetGrows(gapped, |before|, |gapped|);
    MappedAbove(rest, ByteLen(gapped), line, o);
    MappedAbove(rest, ByteLen(gapped), line, o - 1);
  }

  /** ...and the rune just appended, or the separator before it, gets the right one. */
  lemma NewRune(s: string, n: nat, before: string, gapped: string, rest: seq<LineStart>, origin: int, k: nat, o: int)
    requires 0 < n <= |s| && Shape(before, rest, Line(s, n - 1)) && |before| <= k
    requires gapped == before || (before != [] && gapped == before + [' '])
    requires Covers(gapped + [s[n - 1]], k, o) && origin == if k < |gapped| then -1 else n - 1
    ensures TrueLine(s, gapped + [s[n - 1]], Mapped(rest, ByteLen(gapped), Line(s, n - 1)), origin, k, o)
  {
    var text := gapped + [s[n - 1]];
    ByteLenConcat(before, [' ']);
    OffsetAgrees(text, before, |before|);
    OffsetAgrees(text, gapped, |gapped|);
    OffsetGrows(text, |before|, k);
    MappedAt(before, rest, ByteLen(gapped), Line(s, n - 1), o);
  }

  lemma KeptRune(s: string, n: nat, k: nat, o: int)
    requires 0 < n <= |s| && !IsSpace(s[n - 1]) && Covers(NormalizeTo(s, n - 1), k, o)
    requires k < |OriginTo(s, n - 1)|
             && TrueLine(s, NormalizeTo(s, n - 1), StartsTo(s, n - 1), OriginTo(s, n - 1)[k], k, o)
    ensures k < |OriginTo(s, n)| && TrueLine(s, NormalizeTo(s, n), StartsTo(s, n), OriginTo(s, n)[k], k, o)
  {
    NormalizeStep(s, n);
    OldRune(s, NormalizeTo(s, n - 1), Gapped(s, n - 1), s[n - 1], StartsTo(s, n - 1), Line(s, n - 1),
            OriginTo(s, n - 1)[k], k, o);
  }

  lemma OriginOfAppended(s: string, n: nat, k: nat)
    requires 0 < n <= |s| && !IsSpace(s[n - 1]) && |NormalizeTo(s, n - 1)| <= k <= |Gapped(s, n - 1)|
    ensures k < |OriginTo(s, n)| && OriginTo(s, n)[k] == if k < |Gapped(s, n - 1)| then -1 else n - 1
  {
    OriginLength(s, n - 1);
  }

  lemma AppendedRune(s: string, n: nat, k: nat, o: int)
    requires 0 < n <= |s| && !IsSpace(s[n - 1]) && |NormalizeTo(s, n - 1)| <= k && Covers(NormalizeTo(s, n), k, o)
    ensures k < |OriginTo(s, n)| && TrueLine(s, NormalizeTo(s, n), StartsTo(s, n), OriginTo(s, n)[k], k, o)
  {
    NormalizeStep(s, n);
    StartsShape(s, n - 1);
    OriginOfAppended(s, n, k);
    NewRune(s, n, NormalizeTo(s, n - 1), Gapped(s, n - 1), StartsTo(s, n - 1), OriginTo(s, n)[k], k, o);
  }

  /** The line map is right about every byte of the normalised text. */
  lemma {:induction false} LineMapIsTrue(s: string, n: nat, k: nat, o: int)
    requires n <= |s| && Covers(NormalizeTo(s, n), k, o)
    ensures |OriginTo(s, n)| == |NormalizeTo(s, n)|
    ensures TrueLine(s, NormalizeTo(s, n), StartsTo(s, n), OriginTo(s, n)[k], k, o)
  {
    OriginLength(s, n);
    NormalizeStep(s, n);
    if IsSpace(s[n - 1]) {
      LineMapIsTrue(s, n - 1, k, o);
    } else if k < |NormalizeTo(s, n - 1)| {
      CoversPrefix(NormalizeTo(s, n - 1), Gapped(s, n - 1), s[n - 1], k, o);
      LineMapIsTrue(s, n - 1, k, o);
      KeptRune(s, n, k, o);
    } else {
      AppendedRune(s, n, k, o);
    }
  }

  // --------------------------------------------------------------- the loop

  /** The loop's variables after `i` runes. */
  ghost predicate Scanned(s: string, i: nat, normalized: string, starts: seq<LineStart>, line: nat, pending: bool,
                          mapped: nat)
    requires i <= |s|
  {
    && normalized == NormalizeTo(s, i) && starts == StartsTo(s, i) && line == Line(s, i)
    && Gapped(s, i) == (if pending then normalized + [' '] else normalized)
    && mapped == if starts == [] then 0 else starts[|starts| - 1].line
  }

  lemma ScannedSpace(s: string, i: nat, normalized: string, starts: seq<LineStart>, line: nat, pending: bool,
                     mapped: nat)
    requires i < |s| && Scanned(s, i, normalized, starts, line, pending, mapped) && IsSpace(s[i])
    ensures Scanned(s, i + 1, normalized, starts, line + (if s[i] == '\n' then 1 else 0), |normalized| > 0, mapped)
  {
    NormalizeStep(s, i + 1);
  }

  lemma ScannedText(s: string, i: nat, normalized: string, starts: seq<LineStart>, line: nat, pending: bool,
                    mapped: nat)
    requires i < |s| && Scanned(s, i, normalized, starts, line, pending, mapped) && !IsSpace(s[i])
    ensures var gapped := if pending then normalized + [' '] else normalized;
            var mappedStarts := if line != mapped then starts + [LineStart(ByteLen(gapped), line)] else starts;
            Scanned(s, i + 1, gapped + [s[i]], mappedStarts, line, false, line)
  {
    NormalizeStep(s, i + 1);
  }

  lemma NothingScanned(s: string)
    ensures Scanned(s, 0, [], [], 1, false, 0)
  {
  }

  lemma AllScanned(s: string, normalized: string, starts: seq<LineStart>, line: nat, pending: bool, mapped: nat)
    requires Scanned(s, |s|, normalized, starts, line, pending, mapped)
    ensures normalized == Normalize(s) && starts == Starts(s)
  {
  }

  /** The one-pass form yields exactly the simple one, and the line map with it. */
  method NormalizeWithLines(value: string) returns (normalized: string, lineStarts: seq<LineStart>)
    ensures normalized == Normalize(value) && lineStarts == Starts(value)
  {
    normalized, lineStarts := [], [];
    var line, hasPendingSpace, lastMappedLine := 1, false, 0;
    NothingScanned(value);
    hide Scanned, Normalize, Starts;
    for i := 0 to |value|
      invariant Scanned(value, i, normalized, lineStarts, line, hasPendingSpace, lastMappedLine)
    {
      var character := value[i];
      if character == '\n' {
        line := line + 1;
      }
      if IsSpace(character) {
        ScannedSpace(value, i, normalized, lineStarts, if character == '\n' then line - 1 else line,
                     hasPendingSpace, lastMappedLine);
        hasPendingSpace := |normalized| > 0;
        continue;
      }
      ScannedText(value, i, normalized, lineStarts, line, hasPendingSpace, lastMappedLine);
      if hasPendingSpace {
        normalized := normalized + [' '];
        hasPendingSpace := false;
      }
      if line != lastMappedLine {
        lineStarts := lineStarts + [LineStart(ByteLen(normalized), line)];
        lastMappedLine := line;
      }
      normalized := normalized + [character];
    }
    AllScanned(value, normalized, lineStarts, line, hasPendingSpace, lastMappedLine);
  }

  // ------------------------------------------------------------ line ranges

  function FirstFrom(values: seq<int>, bound: int, from: nat): (i: nat)
    requires from <= |values|
    ensures from <= i <= |values|
    decreases |values| - from
  {
    if from == |values| || values[from] >= bound then from else FirstFrom(values, bound, from + 1)
  }

  /** `sort.Search` for "at least `bound`": the first index that satisfies it. */
  function First(values: seq<int>, bound: int): nat {
    FirstFrom(values, bound, 0)
  }

  lemma {:induction false} FirstFromSplits(values: seq<int>, bound: int, from: nat)
    requires from <= |values|
    ensures var i := FirstFrom(values, bound, from);
            (forall k :: from <= k < i ==> values[k] < bound) && (i < |values| ==> values[i] >= bound)
    decreases |values| - from
  {
    if from < |values| && values[from] < bound {
      FirstFromSplits(values, bound, from + 1);
    }
  }

  /** Below the index all values are below the bound, and the value there is not. */
  lemma FirstSplits(values: seq<int>, bound: int)
    ensures var i := First(values, bound);
            i <= |values| && (forall k :: 0 <= k < i ==> values[k] < bound) && (i < |values| ==> values[i] >= bound)
  {
    FirstFromSplits(values, bound, 0);
  }

  predicate Nondecreasing(values: seq<int>) {
    forall i, j :: 0 <= i < j < |values| ==> values[i] <= values[j]
  }

  /** The binary search finds that index. */
  method SortSearch(values: seq<int>, bound: int) returns (index: nat)
    requires Nondecreasing(values)
    ensures index == First(values, bound)
  {
    FirstSplits(values, bound);
    var i, j := 0, |values|;
    while i < j
      invariant i <= First(values, bound) <= j <= |values|
    {
      var h := (i + j) / 2;
      if values[h] < bound {
        i := h + 1;
      } else {
        j := h;
      }
    }
    index := i;
  }

  function Bytes(starts: seq<LineStart>): (bytes: seq<int>)
    ensures |bytes| == |starts| && forall i :: 0 <= i < |starts| ==> bytes[i] == starts[i].byte
  {
    seq(|starts|, i requires 0 <= i < |starts| => starts[i].byte)
  }

  function Lines(starts: seq<LineStart>): (lines: seq<int>)
    ensures |lines| == |starts| && forall i :: 0 <= i < |starts| ==> lines[i] == starts[i].line
  {
    seq(|starts|, i requires 0 <= i < |starts| => starts[i].line)
  }

  /** The byte where the lines from `line` on begin. */
  function FirstByte(starts: seq<LineStart>, line: int, total: nat): nat {
    var i := First(Lines(starts), line);
    if i < |starts| then starts[i].byte else total
  }

  /** `normalizedLineRange`. */
  function LineRange(starts: seq<LineStart>, startLine: int, endLine: int, total: nat): (nat, nat) {
    (FirstByte(starts, startLine, total), FirstByte(starts, endLine + 1, total))
  }

  lemma {:induction false} LineUpToSplits(starts: seq<LineStart>, o: int, i: nat, n: nat)
    requires 1 <= i <= n <= |starts| && starts[i - 1].byte <= o && forall k :: i <= k < n ==> o < starts[k].byte
    ensures LineUpTo(starts, o, n) == starts[i - 1].line
  {
    if i < n {
      LineUpToSplits(starts, o, i, n - 1);
    }
  }

  /** The line of the byte before `bound` is that of the start before the index searched. */
  lemma LineIsSearched(starts: seq<LineStart>, bound: nat)
    requires Increasing(starts) && starts != [] && starts[0].byte < bound
    ensures var i := First(Bytes(starts), bound);
            1 <= i && LineAt(starts, bound - 1) == starts[i - 1].line
  {
    var bytes := Bytes(starts);
    var i := First(bytes, bound);
    FirstSplits(bytes, bound);
    assert bytes[0] < bound;
    assert bytes[i - 1] < bound;
    forall k | i <= k < |starts| ensures bound <= starts[k].byte {
      assert bytes[i] >= bound;
    }
    LineUpToSplits(starts, bound - 1, i, |starts|);
  }

  lemma {:induction false} LineUpToGrows(starts: seq<LineStart>, o: int, p: int, n: nat)
    requires Increasing(starts) && o <= p && n <= |starts|
    ensures LineUpTo(starts, o, n) <= LineUpTo(starts, p, n)
    ensures n > 0 ==> LineUpTo(starts, p, n) <= starts[n - 1].line
  {
    if n > 0 {
      LineUpToGrows(starts, o, p, n - 1);
    }
  }

  /** Later bytes are on later lines. */
  lemma LineAtGrows(starts: seq<LineStart>, o: int, p: int)
    requires Increasing(starts) && o <= p
    ensures LineAt(starts, o) <= LineAt(starts, p)
    ensures starts != [] ==> LineAt(starts, p) <= starts[|starts| - 1].line
  {
    LineUpToGrows(starts, o, p, |starts|);
  }

  /** A byte is at or past the first byte of `line` exactly when its own line is: a range
      holds exactly the bytes whose line lies in it. */
  lemma FirstByteSplits(text: string, starts: seq<LineStart>, line: int, o: nat)
    requires Mapping(text, starts) && o < ByteLen(text)
    ensures FirstByte(starts, line, ByteLen(text)) <= o <==> line <= LineAt(starts, o)
  {
    LineIsSearched(starts, o + 1);
    StartSplits(starts, line, o, First(Bytes(starts), o + 1) - 1, ByteLen(text));
  }

  lemma StartSplits(starts: seq<LineStart>, line: int, o: nat, k: nat, total: nat)
    requires Increasing(starts) && k < |starts| && o < total && k + 1 == First(Bytes(starts), o + 1)
    ensures FirstByte(starts, line, total) <= o <==> line <= starts[k].line
  {
    var i := First(Lines(starts), line);
    FirstSplits(Lines(starts), line);
    FirstSplits(Bytes(starts), o + 1);
    assert Bytes(starts)[k] < o + 1;
    if k < i {
      assert Lines(starts)[k] < line;
      assert k + 1 < |starts| ==> Bytes(starts)[k + 1] > o;
    } else {
      assert Lines(starts)[i] >= line;
    }
  }

  lemma FirstByteOnBoundary(text: string, starts: seq<LineStart>, line: int)
    requires Mapping(text, starts) && Aligned(text, starts)
    ensures var byte := FirstByte(starts, line, ByteLen(text));
            Boundary(text, byte) && byte <= ByteLen(text)
  {
    IndexOfOffset(text, |text|);
  }

  /** The map that the loop builds is one of its text. */
  lemma StartsMap(s: string)
    ensures Mapping(Normalize(s), Starts(s))
  {
    StartsShape(s, |s|);
  }
}
