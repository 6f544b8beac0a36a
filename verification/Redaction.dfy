/**
 The whole-buffer redactor (pkg/bouncer/redactor.go): finding spans, redacting a chunk and
 a string.
 */
module Redaction {
  import opened Utf8
  import opened Folding
  import opened Regex
  import opened Prefilter
  import opened Spans
  import opened Wrappers
  import Sorting

  /** A compiled pattern: its syntax tree, the byte strings it matches, and regexp.FindAllIndex. */
  datatype Pattern = Pattern(tree: Regex, word: Bytes -> bool, find: Bytes -> seq<Span>)

  /** `fold` is unicode.SimpleFold; `sensitiveKey` is the package's sensitiveKeyPattern. */
  datatype Redactor = Redactor(
    fold: Rune -> Rune,
    patterns: seq<Pattern>,
    prefilter: Option<seq<seq<LitSet>>>,
    sensitiveKey: Pattern,
    bufferSize: nat,
    maxOverlap: int)

  /** Matches, possibly empty, in order and not overlapping. */
  predicate Sequential(ms: seq<Span>, lo: nat, hi: nat) {
    && (forall i :: 0 <= i < |ms| ==> lo <= ms[i].start <= ms[i].end <= hi)
    && (forall i, j :: 0 <= i < j < |ms| ==> ms[i].end <= ms[j].start)
  }

  ghost predicate IsMatchOf(sf: Rune -> Rune, p: Pattern, data: Bytes, m: Span) {
    m.start <= m.end <= |data| && Aligned(data, m.start, m.end) && Matches(sf, p.tree, Runes(data[m.start..m.end]))
  }

  /** What is used of the regexp library: FindAllIndex returns matches of the tree, in order. */
  ghost predicate FindsMatches(sf: Rune -> Rune, p: Pattern) {
    && (forall data: Bytes {:trigger Sequential(p.find(data), 0, |data|)} :: Sequential(p.find(data), 0, |data|))
    && (forall data: Bytes, m {:trigger IsMatchOf(sf, p, data, m)} :: m in p.find(data) ==> IsMatchOf(sf, p, data, m))
  }

  ghost predicate ValidPattern(sf: Rune -> Rune, p: Pattern) {
    WellFormed(p.tree) && FindsMatches(sf, p)
  }

  ghost predicate Valid(r: Redactor) {
    && IsSimpleFold(r.fold)
    && (forall i {:trigger ValidPattern(r.fold, r.patterns[i])} ::
          0 <= i < |r.patterns| ==> ValidPattern(r.fold, r.patterns[i]))
    && ValidPattern(r.fold, r.sensitiveKey)
    && (r.prefilter.Some? ==>
          && |r.prefilter.value| == |r.patterns|
          && forall i :: 0 <= i < |r.patterns| ==>
                           && WellFormed(r.patterns[i].tree)
                           && r.prefilter.value[i] == Triggers(r.fold, r.patterns[i].tree))
  }

  /** NewRedactor, with buildPrefilter. */
  method NewRedactor(sf: Rune -> Rune, patterns: seq<Pattern>, sensitiveKey: Pattern) returns (r: Redactor)
    requires IsSimpleFold(sf) && ValidPattern(sf, sensitiveKey)
    requires forall i :: 0 <= i < |patterns| ==> ValidPattern(sf, patterns[i])
    ensures Valid(r) && r.prefilter.Some? && r.patterns == patterns && r.fold == sf && r.sensitiveKey == sensitiveKey
    ensures r.bufferSize == 4096 && r.maxOverlap == 1024
  {
    var pats: seq<seq<LitSet>> := [];
    for i := 0 to |patterns|
      invariant |pats| == i
      invariant forall k :: 0 <= k < i ==> pats[k] == Triggers(sf, patterns[k].tree)
    {
      assert ValidPattern(sf, patterns[i]);
      var sets := ComputeTriggers(sf, patterns[i].tree);
      pats := pats + [sets];
    }
    r := Redactor(sf, patterns, Some(pats), sensitiveKey, 4096, 1024);
  }

  // ---- finding spans ----

  /** (*prefilter).possible: a missing prefilter, or a missing entry, lets the scan go ahead. */
  predicate Passes(r: Redactor, i: nat, lowered: Bytes) {
    r.prefilter.None? || i >= |r.prefilter.value| || Possible(lowered, r.prefilter.value[i])
  }

  predicate NonEmpty(s: Span) { s.start < s.end }

  function NonEmptyMatches(p: Pattern, data: Bytes): seq<Span> {
    Sorting.Filter(NonEmpty, p.find(data))
  }

  ghost function CollectFrom(r: Redactor, data: Bytes, i: nat): seq<Span>
    decreases |r.patterns| - i
  {
    if i >= |r.patterns| then []
    else
      (if Passes(r, i, FoldNorm(r.fold, data)) then NonEmptyMatches(r.patterns[i], data) else [])
      + CollectFrom(r, data, i + 1)
  }

  function ScanAll(patterns: seq<Pattern>, data: Bytes): seq<Span> {
    if patterns == [] then [] else NonEmptyMatches(patterns[0], data) + ScanAll(patterns[1..], data)
  }

  function SortAndMerge(spans: seq<Span>): seq<Span> {
    Merge(Sorting.Sort(SortsBefore, spans))
  }

  lemma SkipLosesNothing(r: Redactor, p: Pattern, data: Bytes, m: Span)
    requires IsSimpleFold(r.fold) && ValidPattern(r.fold, p) && m in p.find(data)
    ensures Possible(FoldNorm(r.fold, data), Triggers(r.fold, p.tree))
  {
    assert IsMatchOf(r.fold, p, data, m);
    SkippedScansMatchNothing(r.fold, p.tree, data, m.start, m.end);
  }

  /** A pattern with a match is never skipped. */
  lemma MatchPasses(r: Redactor, i: nat, data: Bytes)
    requires Valid(r) && i < |r.patterns|
    ensures r.patterns[i].find(data) == [] || Passes(r, i, FoldNorm(r.fold, data))
  {
    var p := r.patterns[i];
    assert ValidPattern(r.fold, p);
    if p.find(data) != [] {
      SkipLosesNothing(r, p, data, p.find(data)[0]);
    }
  }

  lemma {:induction false} CollectIsScan(r: Redactor, data: Bytes, i: nat)
    requires Valid(r) && i <= |r.patterns|
    ensures CollectFrom(r, data, i) == ScanAll(r.patterns[i..], data)
    decreases |r.patterns| - i
  {
    if i < |r.patterns| {
      MatchPasses(r, i, data);
      CollectIsScan(r, data, i + 1);
      assert r.patterns[i..][1..] == r.patterns[i + 1..];
    }
  }

  /** The prefilter never changes what findSpans returns. */
  lemma PrefilterIsInvisible(r: Redactor, data: Bytes)
    requires Valid(r)
    ensures SortAndMerge(CollectFrom(r, data, 0)) == SortAndMerge(ScanAll(r.patterns, data))
  {
    CollectIsScan(r, data, 0);
    assert r.patterns[0..] == r.patterns;
  }

  /** Some pattern returns the non-empty range m on data. */
  ghost predicate Found(patterns: seq<Pattern>, data: Bytes, m: Span) {
    NonEmpty(m) && exists i :: 0 <= i < |patterns| && m in patterns[i].find(data)
  }

  lemma {:induction false} ScanMembers(patterns: seq<Pattern>, data: Bytes, m: Span)
    ensures m in ScanAll(patterns, data) <==> Found(patterns, data, m)
  {
    if patterns != [] {
      ScanMembers(patterns[1..], data, m);
      Sorting.FilterMembers(NonEmpty, patterns[0].find(data));
      if m in ScanAll(patterns[1..], data) {
        var i :| 0 <= i < |patterns[1..]| && m in patterns[1..][i].find(data);
        assert m in patterns[i + 1].find(data);
      }
      if Found(patterns, data, m) && m !in NonEmptyMatches(patterns[0], data) {
        var i :| 0 <= i < |patterns| && m in patterns[i].find(data);
        assert m in patterns[1..][i - 1].find(data);
      }
    }
  }

  /** findSpans returns, in order, the connected pieces of the ranges the patterns match. */
  lemma SpansInOrder(sf: Rune -> Rune, patterns: seq<Pattern>, data: Bytes)
    requires forall i :: 0 <= i < |patterns| ==> ValidPattern(sf, patterns[i])
    ensures InOrder(SortAndMerge(ScanAll(patterns, data)), 0, |data|)
    ensures Pieces(SortAndMerge(ScanAll(patterns, data)), Sorting.Sort(SortsBefore, ScanAll(patterns, data)))
    ensures forall m :: m in Sorting.Sort(SortsBefore, ScanAll(patterns, data)) <==> Found(patterns, data, m)
  {
    var raw := ScanAll(patterns, data);
    var sorted := Sorting.Sort(SortsBefore, raw);
    Sorting.SortMembers(SortsBefore, raw);
    Sorting.SortSorts(SortsBefore, raw);
    forall m ensures m in sorted <==> Found(patterns, data, m) {
      ScanMembers(patterns, data, m);
    }
    forall i | 0 <= i < |sorted| ensures Within(sorted[i], 0, |data|) {
      assert Found(patterns, data, sorted[i]);
      var k :| 0 <= k < |patterns| && sorted[i] in patterns[k].find(data);
      assert IsMatchOf(sf, patterns[k], data, sorted[i]);
    }
    MergeGivesPieces(sorted, |data|);
  }

  /** findSpans. */
  ghost function FindSpans(r: Redactor, data: Bytes): (spans: seq<Span>)
    requires Valid(r)
    ensures InOrder(spans, 0, |data|)
  {
    PrefilterIsInvisible(r, data);
    SpansInOrder(r.fold, r.patterns, data);
    SortAndMerge(CollectFrom(r, data, 0))
  }

  /** The three facts about FindSpans that everything downstream rests on. */
  lemma SpansOf(r: Redactor, data: Bytes) returns (ranges: seq<Span>)
    requires Valid(r)
    ensures Pieces(FindSpans(r, data), ranges)
    ensures forall m :: m in ranges <==> Found(r.patterns, data, m)
  {
    PrefilterIsInvisible(r, data);
    SpansInOrder(r.fold, r.patterns, data);
    ranges := Sorting.Sort(SortsBefore, ScanAll(r.patterns, data));
  }

  method ComputePasses(r: Redactor, i: nat, lowered: Bytes) returns (possible: bool)
    ensures possible == Passes(r, i, lowered)
  {
    if r.prefilter.None? || i >= |r.prefilter.value| {
      return true;
    }
    possible := ComputePossible(lowered, r.prefilter.value[i]);
  }

  method AppendNonEmpty(spans: seq<Span>, locs: seq<Span>) returns (r: seq<Span>)
    ensures r == spans + Sorting.Filter(NonEmpty, locs)
  {
    r := spans;
    for k := 0 to |locs|
      invariant r + Sorting.Filter(NonEmpty, locs[k..]) == spans + Sorting.Filter(NonEmpty, locs)
    {
      assert locs[k..][1..] == locs[k + 1..];
      if locs[k].end > locs[k].start {
        r := r + [locs[k]];
      }
    }
  }

  lemma CollectStep(r: Redactor, data: Bytes, i: nat)
    requires i < |r.patterns|
    ensures CollectFrom(r, data, i) ==
            (if Passes(r, i, FoldNorm(r.fold, data)) then NonEmptyMatches(r.patterns[i], data) else [])
            + CollectFrom(r, data, i + 1)
  {
  }

  lemma CollectEnd(r: Redactor, data: Bytes)
    ensures CollectFrom(r, data, |r.patterns|) == []
  {
  }

  method Collect(r: Redactor, data: Bytes) returns (spans: seq<Span>)
    requires IsSimpleFold(r.fold)
    ensures spans == CollectFrom(r, data, 0)
  {
    hide CollectFrom, IsSimpleFold, Passes;
    var lowered := ComputeFoldNorm(r.fold, data);
    spans := [];
    for i := 0 to |r.patterns|
      invariant spans + CollectFrom(r, data, i) == CollectFrom(r, data, 0)
    {
      CollectStep(r, data, i);
      var possible := ComputePasses(r, i, lowered);
      ghost var added: seq<Span> := [];
      ghost var before := spans;
      if possible {
        spans := AppendNonEmpty(spans, r.patterns[i].find(data));
        added := NonEmptyMatches(r.patterns[i], data);
      }
      Sorting.Reassociate(before, added, CollectFrom(r, data, i + 1));
    }
    CollectEnd(r, data);
  }

  method SortAndMergeInPlace(spans: seq<Span>) returns (merged: seq<Span>)
    requires spans != []
    ensures merged == SortAndMerge(spans)
  {
    var sorted := Sorting.Sort(SortsBefore, spans);
    Sorting.SortMembers(SortsBefore, spans);
    var a := new Span[|sorted|](i requires 0 <= i < |sorted| => sorted[i]);
    assert a[..] == sorted;
    var m := MergeInPlace(a);
    merged := a[..m];
  }

  /** findSpans as written: collect, sort, and merge inside the slice's own array. */
  method ComputeSpans(r: Redactor, data: Bytes) returns (merged: seq<Span>)
    requires Valid(r)
    ensures merged == FindSpans(r, data)
  {
    var spans := Collect(r, data);
    if |spans| == 0 {
      return [];
    }
    merged := SortAndMergeInPlace(spans);
  }

  ghost function Redacted(r: Redactor, chunk: Bytes): Bytes
    requires Valid(r)
  {
    Apply(chunk, FindSpans(r, chunk), 0, |chunk|)
  }

  /** redactChunkWithCount. */
  method RedactChunk(r: Redactor, chunk: Bytes) returns (out: Bytes, count: nat)
    requires Valid(r)
    ensures out == Redacted(r, chunk) && count == |FindSpans(r, chunk)|
  {
    var spans := ComputeSpans(r, chunk);
    if |spans| == 0 {
      return chunk, 0;
    }
    out := ApplySpans([], chunk, spans, |chunk|);
    count := |spans|;
  }

  // ---- strings ----

  predicate IsInvisible(r: Rune) {
    || 0x200B <= r <= 0x200D
    || r == 0x2060
    || r == 0xFEFF
    || 0x202A <= r <= 0x202E
    || 0x2066 <= r <= 0x2069
  }

  predicate IsVisible(r: Rune) { !IsInvisible(r) }

  predicate HasInvisible(s: Bytes) {
    exists i :: 0 <= i < |Runes(s)| && IsInvisible(Runes(s)[i])
  }

  /** stripInvisible; strings.Map writes an ill-formed byte back as U+FFFD. */
  function StripInvisible(s: Bytes): Bytes {
    if HasInvisible(s) then Encode(Sorting.Filter(IsVisible, Runes(s))) else s
  }

  lemma {:induction false} AsciiRunes(s: Bytes)
    requires forall i :: 0 <= i < |s| ==> s[i] < RUNE_SELF
    ensures Runes(s) == s
  {
    if s != [] {
      AsciiRunes(s[1..]);
    }
  }

  /** hasInvisible: the byte scan may only answer for text that is ASCII throughout. */
  method ComputeHasInvisible(s: Bytes) returns (b: bool)
    ensures b == HasInvisible(s)
  {
    var ascii := true;
    for i := 0 to |s|
      invariant ascii && forall k :: 0 <= k < i ==> s[k] < RUNE_SELF
    {
      if s[i] >= 0x80 {
        ascii := false;
        break;
      }
    }
    if ascii {
      AsciiRunes(s);
      return false;
    }
    return exists i :: 0 <= i < |Runes(s)| && IsInvisible(Runes(s)[i]);
  }

  /** regexp.ReplaceAllString with the marker, which holds no `$`. */
  function Replace(text: Bytes, ms: seq<Span>, pos: nat): Bytes
    requires pos <= |text| && Sequential(ms, pos, |text|)
    decreases ms
  {
    if ms == [] then text[pos..]
    else text[pos..ms[0].start] + SECRET_REDACTED + Replace(text, ms[1..], ms[0].end)
  }

  lemma MatchesFit(r: Redactor, i: nat, text: Bytes)
    requires Valid(r) && i < |r.patterns|
    ensures Sequential(r.patterns[i].find(text), 0, |text|)
  {
    assert ValidPattern(r.fold, r.patterns[i]);
  }

  datatype Counted<T> = Counted(value: T, count: nat)

  /** The pattern loop of redactString. `lowered` stays that of the original text while `text` is rewritten. */
  ghost function RewriteFrom(r: Redactor, text: Bytes, lowered: Bytes, i: nat): Counted<Bytes>
    requires Valid(r)
    decreases |r.patterns| - i
  {
    if i >= |r.patterns| then Counted(text, 0)
    else
      var matches := r.patterns[i].find(text);
      if Passes(r, i, lowered) && |matches| > 0 then
        MatchesFit(r, i, text);
        var rest := RewriteFrom(r, Replace(text, matches, 0), lowered, i + 1);
        Counted(rest.value, |matches| + rest.count)
      else RewriteFrom(r, text, lowered, i + 1)
  }

  /** redactString. */
  ghost function RedactString(r: Redactor, data: Bytes): Counted<Bytes>
    requires Valid(r)
  {
    var visible := StripInvisible(data);
    var res := RewriteFrom(r, visible, FoldNorm(r.fold, visible), 0);
    if res.count == 0 then Counted(data, 0) else res
  }

  /** One pass of redactString's loop: pattern i is applied, and its matches counted. */
  method ApplyPattern(r: Redactor, text: Bytes, lowered: Bytes, i: nat) returns (next: Bytes, n: nat)
    requires Valid(r) && i < |r.patterns|
    ensures RewriteFrom(r, text, lowered, i).value == RewriteFrom(r, next, lowered, i + 1).value
    ensures RewriteFrom(r, text, lowered, i).count == n + RewriteFrom(r, next, lowered, i + 1).count
  {
    next, n := text, 0;
    var possible := ComputePasses(r, i, lowered);
    if possible {
      var matches := r.patterns[i].find(text);
      if |matches| > 0 {
        MatchesFit(r, i, text);
        next, n := Replace(text, matches, 0), |matches|;
      }
    }
  }

  method ComputeRedactString(r: Redactor, data: Bytes) returns (result: Bytes, count: nat)
    requires Valid(r)
    ensures Counted(result, count) == RedactString(r, data)
  {
    result := StripInvisible(data);
    var lowered := ComputeFoldNorm(r.fold, result);
    ghost var whole := RewriteFrom(r, result, lowered, 0);
    count := 0;
    for i := 0 to |r.patterns|
      invariant whole.value == RewriteFrom(r, result, lowered, i).value
      invariant whole.count == count + RewriteFrom(r, result, lowered, i).count
    {
      var n;
      result, n := ApplyPattern(r, result, lowered, i);
      count := count + n;
    }
    if count == 0 {
      result := data;
    }
  }

  lemma {:induction false} RewriteCountsMatches(r: Redactor, text: Bytes, i: nat)
    requires Valid(r)
    ensures RewriteFrom(r, text, FoldNorm(r.fold, text), i).count == 0 <==>
            forall k :: i <= k < |r.patterns| ==> r.patterns[k].find(text) == []
    decreases |r.patterns| - i
  {
    if i < |r.patterns| {
      MatchPasses(r, i, text);
      RewriteCountsMatches(r, text, i + 1);
    }
  }

  /** No pattern matches what is visible of the text. */
  predicate SafeText(r: Redactor, data: Bytes) {
    forall k :: 0 <= k < |r.patterns| ==> r.patterns[k].find(StripInvisible(data)) == []
  }

  /** A string comes back untouched, with count 0, exactly when it is safe. */
  lemma RedactStringUntouched(r: Redactor, data: Bytes)
    requires Valid(r)
    ensures RedactString(r, data).count == 0 <==> SafeText(r, data)
    ensures RedactString(r, data).count == 0 ==> RedactString(r, data).value == data
  {
    RewriteCountsMatches(r, StripInvisible(data), 0);
  }

  lemma {:induction false} NothingScanned(patterns: seq<Pattern>, data: Bytes)
    requires forall k :: 0 <= k < |patterns| ==> patterns[k].find(data) == []
    ensures ScanAll(patterns, data) == []
  {
    if patterns != [] {
      NothingScanned(patterns[1..], data);
    }
  }

  // ---- the string path against the byte path ----

  lemma {:induction false} ReplaceIsApply(text: Bytes, ms: seq<Span>, pos: nat)
    requires pos <= |text| && InOrder(ms, pos, |text|)
    ensures Sequential(ms, pos, |text|) && Replace(text, ms, pos) == Apply(text, ms, pos, |text|)
    decreases ms
  {
    if ms != [] {
      InOrderTail(ms, pos, |text|);
      ReplaceIsApply(text, ms[1..], ms[0].end);
    }
  }

  lemma {:induction false} InOrderIsSorted(spans: seq<Span>, lo: nat, hi: nat)
    requires InOrder(spans, lo, hi)
    ensures Sorting.Sort(SortsBefore, spans) == spans && Merge(spans) == spans
    decreases spans
  {
    if spans != [] {
      InOrderTail(spans, lo, hi);
      InOrderIsSorted(spans[1..], spans[0].end, hi);
      assert spans == [spans[0]] + spans[1..];
    }
  }

  lemma {:induction false} FilterAll<T>(keep: T -> bool, s: seq<T>)
    requires forall i :: 0 <= i < |s| ==> keep(s[i])
    ensures Sorting.Filter(keep, s) == s
  {
    if s != [] {
      FilterAll(keep, s[1..]);
      assert s == [s[0]] + s[1..];
    }
  }

  lemma {:induction false} NonEmptyInOrder(ms: seq<Span>, lo: nat, hi: nat)
    requires Sequential(ms, lo, hi)
    ensures InOrder(Sorting.Filter(NonEmpty, ms), lo, hi)
    decreases ms
  {
    if ms != [] {
      NonEmptyInOrder(ms[1..], ms[0].end, hi);
    }
  }

  /** The matches of a single pattern need no merging. */
  lemma OnePatternSpans(r: Redactor, data: Bytes)
    requires Valid(r) && |r.patterns| == 1
    ensures FindSpans(r, data) == NonEmptyMatches(r.patterns[0], data)
  {
    var ms := NonEmptyMatches(r.patterns[0], data);
    MatchesFit(r, 0, data);
    NonEmptyInOrder(r.patterns[0].find(data), 0, |data|);
    InOrderIsSorted(ms, 0, |data|);
    PrefilterIsInvisible(r, data);
    assert r.patterns[1..] == [] && ms + ScanAll([], data) == ms;
  }

  /** With one pattern, none of whose matches is empty, text without invisible runes is redacted alike as a
      string and as bytes. */
  lemma StringAgreesWithChunk(r: Redactor, data: Bytes)
    requires Valid(r) && |r.patterns| == 1 && !HasInvisible(data)
    requires forall m :: m in r.patterns[0].find(data) ==> NonEmpty(m)
    ensures RedactString(r, data) == Counted(Redacted(r, data), |FindSpans(r, data)|)
  {
    OnePatternSpans(r, data);
    FilterAll(NonEmpty, r.patterns[0].find(data));
    hide Valid, FindSpans, InOrder, Passes;
    var ms, lowered := r.patterns[0].find(data), FoldNorm(r.fold, data);
    MatchPasses(r, 0, data);
    ReplaceIsApply(data, ms, 0);
    assert data[0..|data|] == data;
    assert RewriteFrom(r, Replace(data, ms, 0), lowered, 1) == Counted(Replace(data, ms, 0), 0);
    assert RewriteFrom(r, data, lowered, 1) == Counted(data, 0);
    assert RewriteFrom(r, data, lowered, 0) == Counted(Replace(data, ms, 0), |ms|);
  }
}
