/**
 The streaming redactor refines the whole-buffer one: where secrets can be told from one another in time,
 cutting the input into reads does not change a byte of the output.
 */
module StreamRefinement {
  import opened Utf8
  import opened Spans
  import opened Redaction
  import opened Stream

  /** An occurrence that starts inside another can be read as the end of a reading of that other one: of
      overlapping secrets the outer one is recognised no later than the inner. */
  ghost predicate Absorbs(r: Redactor, d: Bytes) {
    forall s1: nat, e1: nat, s2: nat, e2: nat ::
      Occurs(r, d, s1, e1) && Occurs(r, d, s2, e2) && s1 <= s2 < e1 ==> Occurs(r, d, s1, e2)
  }

  /** m is the longest reading of a secret of d, and no other secret reaches into its start. */
  ghost predicate IsMax(r: Redactor, d: Bytes, m: Span) {
    && Occurs(r, d, m.start, m.end)
    && (forall e: nat :: Occurs(r, d, m.start, e) ==> e <= m.end)
    && forall s: nat, e: nat :: s < m.start < e ==> !Occurs(r, d, s, e)
  }

  /** An open-ended secret may be cut short anywhere between two of its readings. */
  ghost predicate Grows(r: Redactor, d: Bytes) {
    forall m, e1: nat, e: nat ::
      IsMax(r, d, m) && Occurs(r, d, m.start, e1) && e1 <= e <= m.end ==> Occurs(r, d, m.start, e)
  }

  /** Its shortest reading is at most a byte longer than the hold-back window. */
  ghost predicate Recognisable(r: Redactor, d: Bytes) {
    forall m :: IsMax(r, d, m) ==> exists e: nat :: Occurs(r, d, m.start, e) && e - m.start <= Overlap(r) + 1
  }

  /** If it has several readings, the longest is at most a byte longer than a held-back match may grow. */
  ghost predicate Plausible(r: Redactor, d: Bytes) {
    forall m, e: nat ::
      IsMax(r, d, m) && Occurs(r, d, m.start, e) && e < m.end ==> m.end - m.start <= MAX_PENDING_MATCH + 1
  }

  /** Each pattern takes the longest of its own words where it matches. */
  ghost predicate GreedyOn(r: Redactor, d: Bytes) {
    forall i, m, e: nat ::
      0 <= i < |r.patterns| && m in r.patterns[i].find(d) && NonEmpty(m) && m.start < e <= |d| ==>
        r.patterns[i].word(d[m.start..e]) ==> e <= m.end
  }

  ghost predicate Separable(r: Redactor, d: Bytes) {
    && Absorbs(r, d) && Grows(r, d) && Recognisable(r, d) && Plausible(r, d)
    && forall lo: nat, hi: nat :: lo <= hi <= |d| ==> GreedyOn(r, d[lo..hi])
  }

  // ---- one buffer ----

  lemma {:induction false} LongestReading(r: Redactor, d: Bytes, s: nat, e: nat) returns (end: nat)
    requires Occurs(r, d, s, e)
    ensures e <= end && Occurs(r, d, s, end) && forall e2: nat :: Occurs(r, d, s, e2) ==> e2 <= end
    decreases |d| - e
  {
    if e2: nat :| Occurs(r, d, s, e2) && e2 > e {
      end := LongestReading(r, d, s, e2);
    } else {
      end := e;
    }
  }

  /** Every occurrence lies in one of these. */
  lemma {:induction false} Outermost(r: Redactor, d: Bytes, s: nat, e: nat) returns (m: Span)
    requires Absorbs(r, d) && Occurs(r, d, s, e)
    ensures IsMax(r, d, m) && m.start <= s && e <= m.end
    decreases s
  {
    if s2: nat, e2: nat :| s2 < s < e2 && Occurs(r, d, s2, e2) {
      m := Outermost(r, d, s2, e);
    } else {
      var end := LongestReading(r, d, s, e);
      m := Span(s, end);
    }
  }

  /** No two of them overlap. */
  lemma SameMax(r: Redactor, d: Bytes, a: Span, b: Span)
    requires IsMax(r, d, a) && IsMax(r, d, b) && a.start < b.end && b.start < a.end
    ensures a == b
  {
  }

  lemma WordIsHeld(r: Redactor, d: Bytes, i: nat, s: nat, e: nat) returns (x: Span)
    requires Searches(r) && i < |r.patterns| && s < e <= |d| && r.patterns[i].word(d[s..e])
    ensures x in r.patterns[i].find(d) && Holds(x, s)
  {
    assert SearchOk(r.patterns[i], d);
    x :| x in r.patterns[i].find(d) && Holds(x, s);
  }

  lemma MaxIsFound(r: Redactor, d: Bytes, m: Span)
    requires Searches(r) && GreedyOn(r, d) && IsMax(r, d, m)
    ensures Found(r.patterns, d, m)
  {
    hide Searches;
    var i :| 0 <= i < |r.patterns| && r.patterns[i].word(d[m.start..m.end]);
    var x := WordIsHeld(r, d, i, m.start, m.end);
    assert Found(r.patterns, d, x);
    FoundOccurs(r, d, x);
    assert x.start == m.start;
    assert x == m;
  }

  lemma SamePiece(spans: seq<Span>, lo: nat, hi: nat, a: Span, b: Span, p: nat)
    requires InOrder(spans, lo, hi) && a in spans && b in spans && Holds(a, p) && Holds(b, p)
    ensures a == b
  {
    var i :| 0 <= i < |spans| && spans[i] == a;
    var j :| 0 <= j < |spans| && spans[j] == b;
  }

  /** Neither end of a longest reading is inside a piece. */
  lemma NotStraddled(r: Redactor, d: Bytes, ranges: seq<Span>, m: Span, x: Span, p: nat)
    requires Valid(r) && Searches(r) && Absorbs(r, d) && IsMax(r, d, x) && (p == x.start || p == x.end)
    requires Pieces(FindSpans(r, d), ranges) && m in FindSpans(r, d)
    requires forall q :: q in ranges <==> Found(r.patterns, d, q)
    ensures !Straddles(m, p)
  {
    hide Valid, InOrder;
    if Straddles(m, p) {
      var q :| q in ranges && Straddles(q, p);
      FoundOccurs(r, d, q);
    }
  }

  /** The piece of FindSpans that holds the start of a longest reading is that reading. */
  lemma PieceIsMax(r: Redactor, d: Bytes, m: Span, x: Span)
    requires Valid(r) && Searches(r) && Absorbs(r, d) && GreedyOn(r, d)
    requires m in FindSpans(r, d) && IsMax(r, d, x) && Holds(m, x.start)
    ensures m == x
  {
    var ranges := SpansOf(r, d);
    MaxIsFound(r, d, x);
    hide Valid, Searches, Absorbs, IsMax, FindSpans, GreedyOn;
    var home :| home in FindSpans(r, d) && home.start <= x.start && x.end <= home.end;
    SamePiece(FindSpans(r, d), 0, |d|, m, home, x.start);
    NotStraddled(r, d, ranges, m, x, x.start);
    NotStraddled(r, d, ranges, m, x, x.end);
  }

  lemma PieceIsNonEmpty(r: Redactor, d: Bytes, m: Span)
    requires Valid(r) && m in FindSpans(r, d)
    ensures Holds(m, m.start)
  {
    hide Valid;
    var i :| 0 <= i < |FindSpans(r, d)| && FindSpans(r, d)[i] == m;
    assert Within(m, 0, |d|);
  }

  lemma PieceStartsInRange(r: Redactor, d: Bytes, m: Span) returns (q: Span)
    requires Valid(r) && Searches(r) && m in FindSpans(r, d)
    ensures Occurs(r, d, q.start, q.end) && Holds(q, m.start)
  {
    hide FindSpans;
    var ranges := SpansOf(r, d);
    hide Valid, Searches, Occurs, Found, InOrder;
    PieceIsNonEmpty(r, d, m);
    var i :| 0 <= i < |ranges| && Holds(ranges[i], m.start);
    q := ranges[i];
    FoundOccurs(r, d, q);
  }

  lemma FoundLiesInPiece(r: Redactor, d: Bytes, x: Span, m: Span, p: nat)
    requires Valid(r) && Found(r.patterns, d, x) && m in FindSpans(r, d) && Holds(x, p) && Holds(m, p)
    ensures m.start <= x.start && x.end <= m.end
  {
    hide FindSpans;
    var ranges := SpansOf(r, d);
    hide Valid, Found;
    var home :| home in FindSpans(r, d) && home.start <= x.start && x.end <= home.end;
    SamePiece(FindSpans(r, d), 0, |d|, m, home, p);
  }

  /** A piece starts with a longest reading. */
  lemma PieceHoldsMax(r: Redactor, d: Bytes, m: Span) returns (x: Span)
    requires Valid(r) && Searches(r) && Absorbs(r, d) && GreedyOn(r, d) && m in FindSpans(r, d)
    ensures IsMax(r, d, x) && Holds(m, x.start)
  {
    hide Valid, Searches, Absorbs, FindSpans, GreedyOn, IsMax, Found, Occurs;
    var q := PieceStartsInRange(r, d, m);
    x := Outermost(r, d, q.start, q.end);
    MaxIsFound(r, d, x);
    FoundLiesInPiece(r, d, x, m, m.start);
  }

  /** findSpans returns exactly the longest readings. */
  lemma SpansAreMaximal(r: Redactor, d: Bytes, m: Span)
    requires Valid(r) && Searches(r) && Absorbs(r, d) && GreedyOn(r, d)
    ensures m in FindSpans(r, d) <==> IsMax(r, d, m)
  {
    hide Valid, Searches, Absorbs, GreedyOn, FindSpans;
    if IsMax(r, d, m) {
      var k := OccursIsHeld(r, d, m.start, m.end);
      PieceIsMax(r, d, FindSpans(r, d)[k], m);
    }
    if m in FindSpans(r, d) {
      var x := PieceHoldsMax(r, d, m);
      PieceIsMax(r, d, m, x);
    }
  }

  // ---- one scan ----

  lemma AbsorbsInPart(r: Redactor, d: Bytes, lo: nat, hi: nat)
    requires lo <= hi <= |d| && Absorbs(r, d)
    ensures Absorbs(r, d[lo..hi])
  {
    forall s1: nat, e1: nat, s2: nat, e2: nat
      | Occurs(r, d[lo..hi], s1, e1) && Occurs(r, d[lo..hi], s2, e2) && s1 <= s2 < e1
      ensures Occurs(r, d[lo..hi], s1, e2)
    {
      OccursInPart(r, d, lo, hi, s1, e1);
      OccursInPart(r, d, lo, hi, s2, e2);
      OccursInPart(r, d, lo, hi, s1, e2);
    }
  }

  /** No occurrence reaches across p. */
  ghost predicate Clean(r: Redactor, d: Bytes, p: nat) {
    forall s: nat, e: nat :: s < p < e ==> !Occurs(r, d, s, e)
  }

  function Up(m: Span, off: nat): Span { Span(m.start + off, m.end + off) }

  lemma InShifted(spans: seq<Span>, off: nat, m: Span)
    ensures m in Shift(spans, off) <==> off <= m.start && off <= m.end && Span(m.start - off, m.end - off) in spans
  {
    if m in Shift(spans, off) {
      var i :| 0 <= i < |spans| && Shift(spans, off)[i] == m;
      assert spans[i] == Span(m.start - off, m.end - off);
    }
    if off <= m.start && off <= m.end && Span(m.start - off, m.end - off) in spans {
      var i :| 0 <= i < |spans| && spans[i] == Span(m.start - off, m.end - off);
      assert Shift(spans, off)[i] == m;
    }
  }

  /** What is a longest reading in a part is one in the whole, if no occurrence reaches in from outside and it
      does not go on outside. */
  lemma NothingReachesIn(r: Redactor, d: Bytes, start: nat, pos: nat, x: Span, s: nat, e: nat)
    requires Absorbs(r, d) && Clean(r, d, start) && start <= pos <= |d| && IsMax(r, d[start..pos], x)
    requires s < start + x.start < e
    ensures !Occurs(r, d, s, e)
  {
    if Occurs(r, d, s, e) {
      OccursInPart(r, d, start, pos, x.start, x.end);
      assert Occurs(r, d, s, start + x.end);
      OccursWithin(r, d, start, pos, s, start + x.end);
    }
  }

  lemma LastSpanKept(r: Redactor, c: Bytes, x: Span)
    requires Valid(r) && x in Scan(r, c, false).spans && x.end == |c|
    ensures |c| - x.start > MAX_PENDING_MATCH
  {
    var spans := FindSpans(r, c);
    var e := Scan(r, c, false);
    var i :| 0 <= i < |e.spans| && e.spans[i] == x;
    assert spans[i] == x;
    assert i == |spans| - 1;
  }

  lemma NoLongerReading(r: Redactor, d: Bytes, start: nat, pos: nat, x: Span, m: Span)
    requires Valid(r) && Grows(r, d) && Plausible(r, d) && start <= pos <= |d|
    requires x in Scan(r, d[start..pos], false).spans && IsMax(r, d[start..pos], x)
    requires IsMax(r, d, m) && m.start == start + x.start && Occurs(r, d, m.start, start + x.end)
    ensures m.end <= start + x.end
  {
    hide Valid, InOrder, Scan;
    if m.end <= pos {
      OccursWithin(r, d, start, pos, m.start, m.end);
    } else {
      assert Occurs(r, d, m.start, pos);
      OccursWithin(r, d, start, pos, m.start, pos);
      LastSpanKept(r, d[start..pos], x);
    }
  }

  /** A span that a scan replaces before the end of the stream is a longest reading in the whole of it:
      what would grow with more input has been held back. */
  lemma ReplacedIsMax(r: Redactor, d: Bytes, start: nat, pos: nat, x: Span)
    requires Valid(r) && Searches(r) && Separable(r, d) && Clean(r, d, start) && start <= pos <= |d|
    requires x in Scan(r, d[start..pos], false).spans
    ensures IsMax(r, d, Up(x, start))
  {
    hide Valid, Searches, InOrder, Absorbs, GreedyOn, Clean, Grows, Recognisable, Plausible;
    var y := Up(x, start);
    AbsorbsInPart(r, d, start, pos);
    assert GreedyOn(r, d[start..pos]);
    SpansAreMaximal(r, d[start..pos], x);
    OccursInPart(r, d, start, pos, x.start, x.end);
    forall s: nat, e: nat | s < y.start < e ensures !Occurs(r, d, s, e) {
      NothingReachesIn(r, d, start, pos, x, s, e);
    }
    var end := LongestReading(r, d, y.start, y.end);
    var m := Span(y.start, end);
    assert IsMax(r, d, m);
    NoLongerReading(r, d, start, pos, x, m);
  }

  lemma MovedSpan(e: Emit, off: nat, y: Span) returns (x: Span)
    requires InOrder(e.spans, 0, e.end) && y in Moved(e, off).spans
    ensures x in e.spans && Up(x, off) == y
    ensures off <= y.start && y.end <= Moved(e, off).end
  {
    var i :| 0 <= i < |e.spans| && Shift(e.spans, off)[i] == y;
    x := e.spans[i];
  }

  lemma TouchedSpan(spans: seq<Span>, s: nat, e: nat) returns (y: Span)
    requires Touches(spans, s, e)
    ensures y in spans && y.start < e && s < y.end
  {
    var k :| 0 <= k < |spans| && spans[k].start < e && s < spans[k].end;
    y := spans[k];
  }

  lemma ReplacedAtIsMax(r: Redactor, d: Bytes, start: nat, pos: nat, y: Span)
    requires Valid(r) && Searches(r) && Separable(r, d) && Clean(r, d, start) && start <= pos <= |d|
    requires y in ScanAt(r, d, start, pos, false).spans
    ensures IsMax(r, d, y) && start <= y.start && y.end <= ScanAt(r, d, start, pos, false).end
  {
    hide Valid, Searches, Separable, Clean, IsMax;
    var x := MovedSpan(Scan(r, d[start..pos], false), start, y);
    ReplacedIsMax(r, d, start, pos, x);
  }

  lemma MaximumIsReplaced(r: Redactor, d: Bytes, start: nat, pos: nat, m: Span)
    requires Valid(r) && Searches(r) && Separable(r, d) && Clean(r, d, start) && start <= pos <= |d|
    requires IsMax(r, d, m) && start <= m.start < ScanAt(r, d, start, pos, false).end
    ensures m in ScanAt(r, d, start, pos, false).spans
  {
    hide Valid, Searches, Absorbs, Grows, Plausible, GreedyOn, Clean, ScanAt;
    var e: nat :| Occurs(r, d, m.start, e) && e - m.start <= Overlap(r) + 1;
    ScanCatches(r, d, start, pos, false, m.start, e);
    var y := TouchedSpan(ScanAt(r, d, start, pos, false).spans, m.start, e);
    ReplacedAtIsMax(r, d, start, pos, y);
    SameMax(r, d, m, y);
  }

  lemma MaxStartsAfter(r: Redactor, d: Bytes, start: nat, s: nat, e: nat) returns (m: Span)
    requires Absorbs(r, d) && Clean(r, d, start) && Occurs(r, d, s, e) && start <= s
    ensures IsMax(r, d, m) && start <= m.start <= s && e <= m.end
  {
    m := Outermost(r, d, s, e);
  }

  /** A secret that starts in what a scan emits is replaced by it, and ends there too. */
  lemma NoOccurrenceIsSplit(r: Redactor, d: Bytes, start: nat, pos: nat, s: nat, e: nat) returns (y: Span)
    requires Valid(r) && Searches(r) && Separable(r, d) && Clean(r, d, start) && start <= pos <= |d|
    requires Occurs(r, d, s, e) && start <= s < ScanAt(r, d, start, pos, false).end
    ensures y in ScanAt(r, d, start, pos, false).spans && IsMax(r, d, y)
    ensures start <= y.start <= s && e <= y.end <= ScanAt(r, d, start, pos, false).end
  {
    hide Valid, Searches, Absorbs, Grows, Recognisable, Plausible, GreedyOn, Clean, IsMax, ScanAt, Occurs;
    y := MaxStartsAfter(r, d, start, s, e);
    MaximumIsReplaced(r, d, start, pos, y);
    ReplacedAtIsMax(r, d, start, pos, y);
  }

  /** The next carry never starts strictly inside an occurrence. */
  lemma NextStartIsClean(r: Redactor, d: Bytes, start: nat, pos: nat)
    requires Valid(r) && Searches(r) && Separable(r, d) && Clean(r, d, start) && start <= pos <= |d|
    ensures Clean(r, d, ScanAt(r, d, start, pos, false).end)
  {
    hide Valid, Searches, Separable, ScanAt, Occurs;
    var end := ScanAt(r, d, start, pos, false).end;
    forall s: nat, e: nat | s < end < e ensures !Occurs(r, d, s, e) {
      if Occurs(r, d, s, e) && start <= s {
        var y := NoOccurrenceIsSplit(r, d, start, pos, s, e);
      }
    }
  }

  lemma ScanReplacesMaxima(r: Redactor, d: Bytes, start: nat, pos: nat, m: Span)
    requires Valid(r) && Searches(r) && Separable(r, d) && Clean(r, d, start) && start <= pos <= |d|
    ensures m in ScanAt(r, d, start, pos, false).spans <==>
            IsMax(r, d, m) && start <= m.start < ScanAt(r, d, start, pos, false).end
  {
    hide Valid, Searches, Separable, Clean, ScanAt;
    if m in ScanAt(r, d, start, pos, false).spans {
      ReplacedAtIsMax(r, d, start, pos, m);
      assert m.start < m.end;
    } else if IsMax(r, d, m) && start <= m.start < ScanAt(r, d, start, pos, false).end {
      MaximumIsReplaced(r, d, start, pos, m);
    }
  }

  lemma MaxInTail(r: Redactor, d: Bytes, start: nat, m: Span)
    requires start <= m.start <= m.end && start <= |d| && Clean(r, d, start)
    ensures IsMax(r, d, m) <==> IsMax(r, d[start..|d|], Span(m.start - start, m.end - start))
  {
    var c := d[start..|d|];
    forall s: nat, e: nat ensures Occurs(r, c, s, e) <==> Occurs(r, d, start + s, start + e) {
      OccursInPart(r, d, start, |d|, s, e);
    }
    assert forall s: nat, e: nat :: Occurs(r, d, s, e) && start <= s ==> Occurs(r, c, s - start, e - start);
  }

  lemma LastScanReplacesMaxima(r: Redactor, d: Bytes, start: nat, m: Span)
    requires Valid(r) && Searches(r) && Separable(r, d) && Clean(r, d, start) && start <= |d|
    ensures m in ScanAt(r, d, start, |d|, true).spans <==> IsMax(r, d, m) && start <= m.start
  {
    hide Valid, Searches, Absorbs, Grows, Recognisable, Plausible, GreedyOn, Clean, FindSpans;
    var c := d[start..|d|];
    InShifted(FindSpans(r, c), start, m);
    if start <= m.start <= m.end {
      AbsorbsInPart(r, d, start, |d|);
      assert GreedyOn(r, c);
      SpansAreMaximal(r, c, Span(m.start - start, m.end - start));
      MaxInTail(r, d, start, m);
    }
  }

  // ---- the whole run ----

  lemma {:induction false} RunReplacesMaxima(r: Redactor, d: Bytes, start: nat, cuts: seq<nat>, m: Span)
    requires Valid(r) && Searches(r) && Separable(r, d) && Clean(r, d, start) && Cuts(start, cuts, |d|)
    ensures m in Run(r, d, start, cuts, true).spans <==> IsMax(r, d, m) && start <= m.start
    decreases cuts
  {
    hide Valid, Searches, Separable, Clean, IsMax, ScanAt;
    CutsBound(start, cuts, |d|);
    if cuts == [] {
      LastScanReplacesMaxima(r, d, start, m);
      return;
    }
    CutsTail(start, cuts, |d|);
    if cuts[0] - start < ScanThreshold(r) {
      RunReplacesMaxima(r, d, start, cuts[1..], m);
    } else {
      ScanReplacesMaxima(r, d, start, cuts[0], m);
      NextStartIsClean(r, d, start, cuts[0]);
      RunReplacesMaxima(r, d, ScanAt(r, d, start, cuts[0], false).end, cuts[1..], m);
    }
  }

  /** With these reads the stream replaces the spans of the whole buffer. */
  ghost predicate ReadsDoNotMatter(r: Redactor, d: Bytes, cuts: seq<nat>) {
    Valid(r) && (Cuts(0, cuts, |d|) ==> Run(r, d, 0, cuts, true).spans == FindSpans(r, d))
  }

  /** Then it writes what redactChunkWithCount returns for the whole buffer. */
  lemma SameSpansSameBytes(r: Redactor, d: Bytes, cuts: seq<nat>)
    requires ReadsDoNotMatter(r, d, cuts) && Cuts(0, cuts, |d|)
    ensures StreamFrom(r, d, 0, cuts, true) == Redacted(r, d)
  {
    hide Valid, FindSpans, Run;
    StreamIsApply(r, d, 0, cuts, true);
  }

  /** For every split of the input into reads, the stream replaces the spans that findSpans finds in the
      whole input, and writes what redactChunkWithCount returns for it. */
  lemma StreamRefinesWholeBuffer(r: Redactor, d: Bytes, cuts: seq<nat>)
    requires Valid(r) && Searches(r) && Separable(r, d) && Cuts(0, cuts, |d|)
    ensures Run(r, d, 0, cuts, true).spans == FindSpans(r, d)
    ensures StreamFrom(r, d, 0, cuts, true) == Redacted(r, d)
  {
    hide Valid, Searches, Absorbs, IsMax, FindSpans, Run, GreedyOn;
    var spans := Run(r, d, 0, cuts, true).spans;
    assert d[0..|d|] == d;
    assert GreedyOn(r, d);
    forall m ensures m in spans <==> m in FindSpans(r, d) {
      RunReplacesMaxima(r, d, 0, cuts, m);
      SpansAreMaximal(r, d, m);
    }
    OrderedUnique(spans, FindSpans(r, d), 0, |d|);
    StreamIsApply(r, d, 0, cuts, true);
  }

  /** A read error leaves what was written until then: the start of what would have been written. */
  lemma FailedStreamIsPrefix(r: Redactor, d: Bytes, cuts: seq<nat>)
    requires Valid(r) && Searches(r) && Separable(r, d) && Cuts(0, cuts, |d|)
    ensures StreamFrom(r, d, 0, cuts, false) <= Redacted(r, d)
  {
    StreamRefinesWholeBuffer(r, d, cuts);
    ErrorCutsOutputShort(r, d, 0, cuts);
  }

  /** The plain case: occurrences pairwise disjoint, each of at most n bytes. */
  ghost predicate DisjointWithin(r: Redactor, d: Bytes, n: nat) {
    && (forall s1: nat, e1: nat, s2: nat, e2: nat ::
          Occurs(r, d, s1, e1) && Occurs(r, d, s2, e2) && s1 < e2 && s2 < e1 ==> s1 == s2 && e1 == e2)
    && (forall s: nat, e: nat :: Occurs(r, d, s, e) ==> e - s <= n)
  }

  lemma DisjointIsGreedy(r: Redactor, d: Bytes, n: nat, lo: nat, hi: nat)
    requires Searches(r) && DisjointWithin(r, d, n) && lo <= hi <= |d|
    ensures GreedyOn(r, d[lo..hi])
  {
    var c := d[lo..hi];
    forall i, m, e: nat
      | 0 <= i < |r.patterns| && m in r.patterns[i].find(c) && NonEmpty(m) && m.start < e <= |c|
        && r.patterns[i].word(c[m.start..e])
      ensures e <= m.end
    {
      assert Found(r.patterns, c, m);
      FoundOccurs(r, c, m);
      assert Occurs(r, c, m.start, e);
      OccursInPart(r, d, lo, hi, m.start, m.end);
      OccursInPart(r, d, lo, hi, m.start, e);
    }
  }

  lemma OccursNonEmpty(r: Redactor, d: Bytes, s: nat, e: nat)
    requires Occurs(r, d, s, e)
    ensures s < e <= |d|
  {
  }

  lemma DisjointIsSeparable(r: Redactor, d: Bytes, n: nat)
    requires Searches(r) && DisjointWithin(r, d, n) && n <= Overlap(r) + 1
    ensures Separable(r, d)
  {
    hide Searches, GreedyOn, Occurs;
    forall lo: nat, hi: nat | lo <= hi <= |d| ensures GreedyOn(r, d[lo..hi]) {
      DisjointIsGreedy(r, d, n, lo, hi);
    }
    forall m, e1: nat, e: nat | IsMax(r, d, m) && Occurs(r, d, m.start, e1) && e1 <= e <= m.end
      ensures Occurs(r, d, m.start, e)
    {
      OccursNonEmpty(r, d, m.start, e1);
      OccursNonEmpty(r, d, m.start, m.end);
      assert e1 == m.end;
    }
    assert Absorbs(r, d) by {
      forall s1: nat, e1: nat, s2: nat, e2: nat
        | Occurs(r, d, s1, e1) && Occurs(r, d, s2, e2) && s1 <= s2 < e1
        ensures Occurs(r, d, s1, e2)
      {
        OccursNonEmpty(r, d, s2, e2);
      }
    }
    assert Plausible(r, d) by {
      forall m, e: nat | IsMax(r, d, m) && Occurs(r, d, m.start, e) && e < m.end
        ensures m.end - m.start <= MAX_PENDING_MATCH + 1
      {
        OccursNonEmpty(r, d, m.start, e);
      }
    }
  }

  lemma StreamRefinesWholeBufferWhenDisjoint(r: Redactor, d: Bytes, n: nat, cuts: seq<nat>)
    requires Valid(r) && Searches(r) && DisjointWithin(r, d, n) && n <= Overlap(r) + 1 && Cuts(0, cuts, |d|)
    ensures Run(r, d, 0, cuts, true).spans == FindSpans(r, d)
    ensures StreamFrom(r, d, 0, cuts, true) == Redacted(r, d)
  {
    DisjointIsSeparable(r, d, n);
    StreamRefinesWholeBuffer(r, d, cuts);
  }
}
