/**
 RedactStream (pkg/bouncer/redactor.go): redacting a stream with a carry buffer.

 The input is a byte string d, and the way it is split into reads a list of cuts: the number of bytes
 read so far, after each read that leaves the stream open. One more read ends it, with io.EOF or with
 an error. At a loop head with `start` bytes consumed and `pos` bytes read, the carry is d[start..pos].
 */
module Stream {
  import opened Utf8
  import opened Spans
  import opened Redaction
  import Sorting

  const DEFAULT_MAX_OVERLAP := 1024
  const MAX_PENDING_MATCH := 64 * 1024
  const READ_BUFFER := 4096

  function Window(maxOverlap: int): (m: nat)
    ensures m > 0
  {
    if maxOverlap <= 0 then DEFAULT_MAX_OVERLAP else maxOverlap
  }

  function Overlap(r: Redactor): (m: nat)
    ensures m > 0
  {
    Window(r.maxOverlap)
  }

  function ScanThreshold(r: Redactor): nat { r.bufferSize + Overlap(r) }

  function Min(a: int, b: int): int { if a < b then a else b }

  function Max(a: int, b: int): int { if a < b then b else a }

  /** What one scan of the carry decides: the spans it rewrites, and how far it emits. */
  datatype Emit = Emit(spans: seq<Span>, end: nat)

  function LastEnd(spans: seq<Span>): nat {
    if spans == [] then 0 else spans[|spans| - 1].end
  }

  /** A last match that touches the end of the carry, unless it is implausibly long. */
  predicate HoldsBack(spans: seq<Span>, len: nat) {
    spans != [] && LastEnd(spans) == len && len - spans[|spans| - 1].start as int <= MAX_PENDING_MATCH
  }

  /** Before the end of the stream, of the spans found in len bytes. */
  function EmitOf(spans: seq<Span>, len: nat, overlap: nat): (e: Emit)
    requires InOrder(spans, 0, len)
    ensures e.end <= len && InOrder(e.spans, 0, e.end)
  {
    var held := HoldsBack(spans, len);
    var kept := if held then spans[..|spans| - 1] else spans;
    var h0 := if held then len - spans[|spans| - 1].start else 0;
    var h := Min(overlap, len - LastEnd(kept));
    Emit(kept, len - if h > h0 then h else h0)
  }

  ghost function Scan(r: Redactor, carry: Bytes, atEOF: bool): (e: Emit)
    requires Valid(r)
    ensures e.end <= |carry| && InOrder(e.spans, 0, e.end)
  {
    var spans := FindSpans(r, carry);
    if atEOF then Emit(spans, |carry|) else EmitOf(spans, |carry|, Overlap(r))
  }

  /** A decision about d[off..], in positions of d. */
  function Moved(e: Emit, off: nat): (m: Emit)
    requires InOrder(e.spans, 0, e.end)
    ensures m.end == off + e.end && InOrder(m.spans, off, m.end)
  {
    ShiftInOrder(e.spans, 0, e.end, off);
    Emit(Shift(e.spans, off), off + e.end)
  }

  /** The scan of the carry d[start..pos]. */
  ghost function ScanAt(r: Redactor, d: Bytes, start: nat, pos: nat, atEOF: bool): (e: Emit)
    requires Valid(r) && start <= pos <= |d|
    ensures start <= e.end <= pos && InOrder(e.spans, start, e.end)
  {
    Moved(Scan(r, d[start..pos], atEOF), start)
  }

  /** Bytes are read in order: lo so far, then up to each cut, and hi in all. */
  predicate Cuts(lo: nat, cuts: seq<nat>, hi: nat)
    decreases cuts
  {
    if cuts == [] then lo <= hi else lo <= cuts[0] && Cuts(cuts[0], cuts[1..], hi)
  }

  lemma {:induction false} CutsBound(lo: nat, cuts: seq<nat>, hi: nat)
    requires Cuts(lo, cuts, hi)
    ensures lo <= hi
    decreases cuts
  {
    if cuts != [] {
      CutsBound(cuts[0], cuts[1..], hi);
    }
  }

  lemma CutsTail(lo: nat, cuts: seq<nat>, hi: nat)
    requires Cuts(lo, cuts, hi) && cuts != []
    ensures lo <= cuts[0] <= hi
    ensures forall x: nat :: x <= cuts[0] ==> Cuts(x, cuts[1..], hi)
  {
    CutsBound(cuts[0], cuts[1..], hi);
  }

  /** What the loop does with the rest of the reads: the spans it replaces, and how much it consumes. */
  ghost function Run(r: Redactor, d: Bytes, start: nat, cuts: seq<nat>, eof: bool): (t: Emit)
    requires Valid(r) && Cuts(start, cuts, |d|)
    ensures start <= t.end <= |d| && InOrder(t.spans, start, t.end)
    ensures eof ==> t.end == |d|
    decreases cuts
  {
    CutsBound(start, cuts, |d|);
    if cuts == [] then
      if eof then ScanAt(r, d, start, |d|, true) else Emit([], start)
    else
      CutsTail(start, cuts, |d|);
      if cuts[0] - start < ScanThreshold(r) then Run(r, d, start, cuts[1..], eof)
      else
        var e := ScanAt(r, d, start, cuts[0], false);
        var t := Run(r, d, e.end, cuts[1..], eof);
        InOrderConcat(e.spans, t.spans, start, e.end, t.end);
        Emit(e.spans + t.spans, t.end)
  }

  function WindowOutput(carry: Bytes, e: Emit): Bytes
    requires e.end <= |carry| && InOrder(e.spans, 0, e.end)
  {
    Apply(carry, e.spans, 0, e.end)
  }

  /** The output of one iteration. */
  ghost function Emitted(r: Redactor, d: Bytes, start: nat, pos: nat, atEOF: bool): Bytes
    requires Valid(r) && start <= pos <= |d|
  {
    WindowOutput(d[start..pos], Scan(r, d[start..pos], atEOF))
  }

  /** What the loop writes for the rest of the reads. */
  ghost function StreamFrom(r: Redactor, d: Bytes, start: nat, cuts: seq<nat>, eof: bool): Bytes
    requires Valid(r) && Cuts(start, cuts, |d|)
    decreases cuts
  {
    CutsBound(start, cuts, |d|);
    if cuts == [] then
      if eof then Emitted(r, d, start, |d|, true) else []
    else
      CutsTail(start, cuts, |d|);
      if cuts[0] - start < ScanThreshold(r) then StreamFrom(r, d, start, cuts[1..], eof)
      else
        var next := ScanAt(r, d, start, cuts[0], false).end;
        Emitted(r, d, start, cuts[0], false) + StreamFrom(r, d, next, cuts[1..], eof)
  }

  // ---- conservation ----

  lemma WindowApplied(d: Bytes, start: nat, pos: nat, e: Emit)
    requires start <= pos <= |d| && e.end <= pos - start && InOrder(e.spans, 0, e.end)
    ensures WindowOutput(d[start..pos], e) == Apply(d, Moved(e, start).spans, start, Moved(e, start).end)
  {
    hide Apply, InOrder;
    assert d[start..][..pos - start] == d[start..pos];
    ApplyPrefix(d[start..], pos - start, e.spans, 0, e.end);
    ApplyShifted(d, start, e.spans, 0, e.end);
  }

  /** Whatever the input, the reads and the matcher: the output is the consumed part of the input with
      ordered, disjoint spans of it replaced, and at end of file all of it has been consumed. */
  lemma {:induction false} StreamIsApply(r: Redactor, d: Bytes, start: nat, cuts: seq<nat>, eof: bool)
    requires Valid(r) && Cuts(start, cuts, |d|)
    ensures StreamFrom(r, d, start, cuts, eof)
         == Apply(d, Run(r, d, start, cuts, eof).spans, start, Run(r, d, start, cuts, eof).end)
    decreases cuts
  {
    hide InOrder, Valid;
    if cuts == [] {
      WindowApplied(d, start, |d|, Scan(r, d[start..], true));
      assert d[start..|d|] == d[start..];
      return;
    }
    CutsTail(start, cuts, |d|);
    if cuts[0] - start < ScanThreshold(r) {
      StreamIsApply(r, d, start, cuts[1..], eof);
    } else {
      var e := ScanAt(r, d, start, cuts[0], false);
      var t := Run(r, d, e.end, cuts[1..], eof);
      StreamIsApply(r, d, e.end, cuts[1..], eof);
      WindowApplied(d, start, cuts[0], Scan(r, d[start..cuts[0]], false));
      ApplySplit(d, e.spans, t.spans, start, e.end, t.end);
    }
  }

  /** A read error ends the run with the start of what it would have written. */
  lemma {:induction false} ErrorCutsOutputShort(r: Redactor, d: Bytes, start: nat, cuts: seq<nat>)
    requires Valid(r) && Cuts(start, cuts, |d|)
    ensures StreamFrom(r, d, start, cuts, false) <= StreamFrom(r, d, start, cuts, true)
    decreases cuts
  {
    hide Valid, InOrder, Emitted;
    if cuts != [] {
      CutsTail(start, cuts, |d|);
      if cuts[0] - start < ScanThreshold(r) {
        ErrorCutsOutputShort(r, d, start, cuts[1..]);
      } else {
        ErrorCutsOutputShort(r, d, ScanAt(r, d, start, cuts[0], false).end, cuts[1..]);
      }
    }
  }

  // ---- the carry ----

  function CarryBound(r: Redactor): int {
    Max(ScanThreshold(r) - 1, Max(MAX_PENDING_MATCH, Overlap(r)))
  }

  function LastCut(start: nat, cuts: seq<nat>): nat {
    if cuts == [] then start else cuts[|cuts| - 1]
  }

  lemma ScanLeavesLittle(r: Redactor, d: Bytes, start: nat, pos: nat)
    requires Valid(r) && start <= pos <= |d|
    ensures pos - ScanAt(r, d, start, pos, false).end <= CarryBound(r)
  {
    hide Valid, InOrder, FindSpans;
  }

  lemma RunWithoutCuts(r: Redactor, d: Bytes, start: nat)
    requires Valid(r) && start <= |d|
    ensures Run(r, d, start, [], false).end == start
  {
    hide Valid;
  }

  /** However the input is cut up, the carry at a loop head, the bytes read and not yet consumed, is bounded. */
  lemma {:induction false} CarryIsBounded(r: Redactor, d: Bytes, start: nat, pos: nat, cuts: seq<nat>)
    requires Valid(r) && start <= pos && Cuts(pos, cuts, |d|)
    requires pos - start <= CarryBound(r)
    ensures LastCut(pos, cuts) - Run(r, d, start, cuts, false).end <= CarryBound(r)
    decreases cuts
  {
    hide Valid, InOrder, ScanAt;
    if cuts == [] {
      RunWithoutCuts(r, d, start);
    } else {
      CutsTail(pos, cuts, |d|);
      if cuts[0] - start < ScanThreshold(r) {
        CarryIsBounded(r, d, start, cuts[0], cuts[1..]);
      } else {
        var e := ScanAt(r, d, start, cuts[0], false);
        ScanLeavesLittle(r, d, start, cuts[0]);
        CarryIsBounded(r, d, e.end, cuts[0], cuts[1..]);
      }
    }
  }

  /** So is what is scanned, for one read adds at most a pooled buffer. */
  lemma ScannedBufferIsBounded(r: Redactor, d: Bytes, cuts: seq<nat>, next: nat)
    requires Valid(r) && Cuts(0, cuts, |d|) && next <= LastCut(0, cuts) + READ_BUFFER
    ensures next - Run(r, d, 0, cuts, false).end <= CarryBound(r) + READ_BUFFER
  {
    CarryIsBounded(r, d, 0, 0, cuts);
  }

  /** Until there is a scan's worth of input, nothing is replaced or emitted. */
  lemma {:induction false} NothingBeforeThreshold(r: Redactor, d: Bytes, cuts: seq<nat>)
    requires Valid(r) && Cuts(0, cuts, |d|) && forall i :: 0 <= i < |cuts| ==> cuts[i] < ScanThreshold(r)
    ensures Run(r, d, 0, cuts, false) == Emit([], 0) && StreamFrom(r, d, 0, cuts, false) == []
    decreases cuts
  {
    hide Valid, ScanAt, Emitted, ScanThreshold;
    if cuts != [] {
      CutsTail(0, cuts, |d|);
      assert forall i :: 0 <= i < |cuts| - 1 ==> cuts[1..][i] == cuts[i + 1];
      NothingBeforeThreshold(r, d, cuts[1..]);
    }
  }

  /** And from then on every read is scanned: what is then left is at most the window, or a match that is held. */
  lemma EveryReadIsScanned(r: Redactor, d: Bytes, start: nat, cuts: seq<nat>)
    requires Valid(r) && Cuts(start, cuts, |d|) && cuts != [] && start + ScanThreshold(r) <= cuts[0] <= |d|
    ensures Run(r, d, start, cuts, false).end >= cuts[0] - Max(Overlap(r), MAX_PENDING_MATCH)
    ensures FindSpans(r, d[start..cuts[0]]) == [] ==> Run(r, d, start, cuts, false).end >= cuts[0] - Overlap(r)
  {
    CutsTail(start, cuts, |d|);
    hide Valid, FindSpans, InOrder;
  }

  // ---- what the matcher is taken to be ----

  /** An occurrence of a secret: a non-empty stretch of the data that some pattern matches. */
  ghost predicate Occurs(r: Redactor, data: Bytes, s: nat, e: nat) {
    s < e <= |data| && exists i :: 0 <= i < |r.patterns| && r.patterns[i].word(data[s..e])
  }

  ghost predicate SearchOk(p: Pattern, data: Bytes) {
    && (forall m :: m in p.find(data) && NonEmpty(m) ==> m.end <= |data| && p.word(data[m.start..m.end]))
    && (forall s: nat, e: nat :: s < e <= |data| && p.word(data[s..e]) ==> exists m :: m in p.find(data) && Holds(m, s))
  }

  /** A context-free search: what FindAllIndex returns are words of the pattern, and no word starts
      outside all of them. */
  ghost predicate Searches(r: Redactor) {
    forall i, data {:trigger SearchOk(r.patterns[i], data)} :: 0 <= i < |r.patterns| ==> SearchOk(r.patterns[i], data)
  }

  lemma FoundOccurs(r: Redactor, data: Bytes, m: Span)
    requires Searches(r) && Found(r.patterns, data, m)
    ensures Occurs(r, data, m.start, m.end)
  {
    var i :| 0 <= i < |r.patterns| && m in r.patterns[i].find(data);
    assert SearchOk(r.patterns[i], data);
  }

  lemma OccursIsFound(r: Redactor, data: Bytes, s: nat, e: nat) returns (m: Span)
    requires Searches(r) && Occurs(r, data, s, e)
    ensures Found(r.patterns, data, m) && Holds(m, s)
  {
    var i :| 0 <= i < |r.patterns| && r.patterns[i].word(data[s..e]);
    assert SearchOk(r.patterns[i], data);
    m :| m in r.patterns[i].find(data) && Holds(m, s);
  }

  lemma OccursIsHeld(r: Redactor, data: Bytes, s: nat, e: nat) returns (k: nat)
    requires Valid(r) && Searches(r) && Occurs(r, data, s, e)
    ensures k < |FindSpans(r, data)| && Holds(FindSpans(r, data)[k], s)
  {
    hide Valid, FindSpans;
    var m := OccursIsFound(r, data, s, e);
    hide Searches, Occurs, Found;
    var ranges := SpansOf(r, data);
    var piece :| piece in FindSpans(r, data) && piece.start <= m.start && m.end <= piece.end;
    k :| 0 <= k < |FindSpans(r, data)| && FindSpans(r, data)[k] == piece;
  }

  lemma OccursInPart(r: Redactor, d: Bytes, lo: nat, hi: nat, s: nat, e: nat)
    requires lo <= hi <= |d|
    ensures Occurs(r, d[lo..hi], s, e) <==> e <= hi - lo && Occurs(r, d, lo + s, lo + e)
  {
    if s < e <= hi - lo {
      SliceOfSlice(d, lo, hi, s, e);
    }
  }

  lemma OccursWithin(r: Redactor, d: Bytes, lo: nat, hi: nat, s: nat, e: nat)
    requires lo <= s && e <= hi <= |d| && Occurs(r, d, s, e)
    ensures Occurs(r, d[lo..hi], s - lo, e - lo)
  {
    OccursInPart(r, d, lo, hi, s - lo, e - lo);
  }

  // ---- no secret slips through ----

  predicate Touches(spans: seq<Span>, s: nat, e: nat) {
    exists k :: 0 <= k < |spans| && spans[k].start < e && s < spans[k].end
  }

  lemma TouchesSum(a: seq<Span>, b: seq<Span>, s: nat, e: nat)
    requires Touches(a, s, e) || Touches(b, s, e)
    ensures Touches(a + b, s, e)
  {
    if Touches(a, s, e) {
      var k :| 0 <= k < |a| && a[k].start < e && s < a[k].end;
      assert (a + b)[k] == a[k];
    } else {
      var k :| 0 <= k < |b| && b[k].start < e && s < b[k].end;
      assert (a + b)[|a| + k] == b[k];
    }
  }

  /** A span that a scan does not replace is left for the next one whole. */
  lemma ScanKeepsOrHolds(r: Redactor, c: Bytes, atEOF: bool, k: nat)
    requires Valid(r) && k < |FindSpans(r, c)|
    ensures var e := Scan(r, c, atEOF);
            || (k < |e.spans| && e.spans[k] == FindSpans(r, c)[k])
            || e.end <= FindSpans(r, c)[k].start
  {
  }

  /** What is emitted of the last maxOverlap bytes lies before the end of a replaced span. */
  lemma ScanHoldsTail(r: Redactor, c: Bytes, x: nat)
    requires Valid(r) && x < Scan(r, c, false).end && |c| - x <= Overlap(r)
    ensures x < LastEnd(Scan(r, c, false).spans)
  {
  }

  lemma TouchesShifted(spans: seq<Span>, k: nat, off: nat, s: nat, e: nat)
    requires k < |spans| && off + spans[k].start < e && s < off + spans[k].end
    ensures Touches(Shift(spans, off), s, e)
  {
    assert Shift(spans, off)[k].start < e && s < Shift(spans, off)[k].end;
  }

  lemma ScanCatchesWhole(r: Redactor, c: Bytes, atEOF: bool, off: nat, s: nat, e: nat)
    requires Valid(r) && Searches(r)
    requires off <= s <= e && Occurs(r, c, s - off, e - off) && s - off < Scan(r, c, atEOF).end
    ensures Touches(Shift(Scan(r, c, atEOF).spans, off), s, e)
  {
    var k := OccursIsHeld(r, c, s - off, e - off);
    ScanKeepsOrHolds(r, c, atEOF, k);
    TouchesShifted(Scan(r, c, atEOF).spans, k, off, s, e);
  }

  lemma ScanCatchesCut(r: Redactor, c: Bytes, off: nat, s: nat, e: nat)
    requires Valid(r)
    requires off <= s && off + |c| < e <= s + Overlap(r) + 1 && s - off < Scan(r, c, false).end
    ensures Touches(Shift(Scan(r, c, false).spans, off), s, e)
  {
    var spans := Scan(r, c, false).spans;
    ScanHoldsTail(r, c, s - off);
    TouchesShifted(spans, |spans| - 1, off, s, e);
  }

  /** An occurrence that starts in the part a scan emits meets a span that it replaces. */
  lemma ScanCatches(r: Redactor, d: Bytes, start: nat, pos: nat, atEOF: bool, s: nat, e: nat)
    requires Valid(r) && Searches(r)
    requires start <= pos <= |d| && (atEOF ==> pos == |d|)
    requires Occurs(r, d, s, e) && e - s <= Overlap(r) + 1
    requires start <= s < ScanAt(r, d, start, pos, atEOF).end
    ensures Touches(ScanAt(r, d, start, pos, atEOF).spans, s, e)
  {
    if e <= pos {
      OccursWithin(r, d, start, pos, s, e);
      ScanCatchesWhole(r, d[start..pos], atEOF, start, s, e);
    } else {
      ScanCatchesCut(r, d[start..pos], start, s, e);
    }
  }

  /** For every way the input is split into reads, an occurrence of at most maxOverlap + 1 bytes that starts in
      what was consumed meets a replaced span, overlapping others or not: it is never emitted whole. */
  lemma {:induction false} NoOccurrenceIsEmittedWhole(
    r: Redactor, d: Bytes, start: nat, cuts: seq<nat>, eof: bool, s: nat, e: nat)
    requires Valid(r) && Searches(r) && Cuts(start, cuts, |d|)
    requires Occurs(r, d, s, e) && e - s <= Overlap(r) + 1
    requires start <= s < Run(r, d, start, cuts, eof).end
    ensures Touches(Run(r, d, start, cuts, eof).spans, s, e)
    decreases cuts
  {
    if cuts == [] {
      ScanCatches(r, d, start, |d|, true, s, e);
      return;
    }
    CutsTail(start, cuts, |d|);
    if cuts[0] - start < ScanThreshold(r) {
      NoOccurrenceIsEmittedWhole(r, d, start, cuts[1..], eof, s, e);
    } else {
      var em := ScanAt(r, d, start, cuts[0], false);
      if s < em.end {
        ScanCatches(r, d, start, cuts[0], false, s, e);
      } else {
        NoOccurrenceIsEmittedWhole(r, d, em.end, cuts[1..], eof, s, e);
      }
      TouchesSum(em.spans, Run(r, d, em.end, cuts[1..], eof).spans, s, e);
    }
  }

  // ---- the loop ----

  /** From position pos on, the reads of d are chunks, which end at the cuts, and then last. */
  ghost predicate SplitsInto(d: Bytes, pos: nat, cuts: seq<nat>, chunks: seq<Bytes>, last: Bytes)
    decreases chunks
  {
    && |cuts| == |chunks|
    && if chunks == [] then pos <= |d| && d[pos..] == last
       else
         && pos <= cuts[0] <= |d| && d[pos..cuts[0]] == chunks[0]
         && SplitsInto(d, cuts[0], cuts[1..], chunks[1..], last)
  }

  lemma {:induction false} SplitsAreCuts(d: Bytes, pos: nat, cuts: seq<nat>, chunks: seq<Bytes>, last: Bytes)
    requires SplitsInto(d, pos, cuts, chunks, last)
    ensures Cuts(pos, cuts, |d|)
    decreases chunks
  {
    if chunks != [] {
      SplitsAreCuts(d, cuts[0], cuts[1..], chunks[1..], last);
    }
  }

  /** The scan of one iteration, with its hold-back rules, as the loop writes it. */
  method ComputeScan(r: Redactor, carry: Bytes, atEOF: bool) returns (spans: seq<Span>, emitEnd: nat)
    requires Valid(r)
    ensures Emit(spans, emitEnd) == Scan(r, carry, atEOF)
  {
    hide Valid, InOrder, FindSpans;
    spans := ComputeSpans(r, carry);
    var hold: int := 0;
    if !atEOF {
      var n := |spans|;
      if n > 0 && spans[n - 1].end == |carry| && |carry| - spans[n - 1].start as int <= MAX_PENDING_MATCH {
        hold := |carry| - spans[n - 1].start;
        spans := spans[..n - 1];
      }
      var lastEnd: int := 0;
      if |spans| > 0 {
        lastEnd := spans[|spans| - 1].end;
      }
      var h := Min(Overlap(r), |carry| - lastEnd);
      if h > hold {
        hold := h;
      }
    }
    emitEnd := |carry| - hold;
  }

  lemma SliceTail(d: Bytes, start: nat, pos: nat, k: nat)
    requires start <= pos <= |d| && k <= pos - start
    ensures d[start..pos][k..] == d[start + k..pos]
  {
  }

  /** Scan the carry d[start..pos], write what may go, and keep the rest. */
  method ScanAndWrite(r: Redactor, ghost d: Bytes, ghost start: nat, ghost pos: nat, carry: Bytes, atEOF: bool,
          out: Bytes)
    returns (written: Bytes, rest: Bytes)
    requires Valid(r) && start <= pos <= |d| && carry == d[start..pos]
    ensures written == out + Emitted(r, d, start, pos, atEOF)
    ensures rest == d[ScanAt(r, d, start, pos, atEOF).end..pos]
  {
    hide Apply, InOrder, Valid;
    var spans, emitEnd := ComputeScan(r, carry, atEOF);
    var step := ApplySpans([], carry, spans, emitEnd);
    SliceTail(d, start, pos, emitEnd);
    written := out + step;
    rest := carry[emitEnd..];
  }

  lemma StreamStep(r: Redactor, d: Bytes, start: nat, cuts: seq<nat>, eof: bool, out: Bytes)
    requires Valid(r) && Cuts(start, cuts, |d|) && cuts != []
    requires start + ScanThreshold(r) <= cuts[0] <= |d|
    ensures var next := ScanAt(r, d, start, cuts[0], false).end;
            && Cuts(next, cuts[1..], |d|)
            && out + StreamFrom(r, d, start, cuts, eof)
               == (out + Emitted(r, d, start, cuts[0], false)) + StreamFrom(r, d, next, cuts[1..], eof)
  {
    CutsTail(start, cuts, |d|);
    var next := ScanAt(r, d, start, cuts[0], false).end;
    Sorting.Reassociate(out, Emitted(r, d, start, cuts[0], false), StreamFrom(r, d, next, cuts[1..], eof));
  }

  lemma SliceJoin(d: Bytes, start: nat, pos: nat, end: nat)
    requires start <= pos <= end <= |d|
    ensures d[start..pos] + d[pos..end] == d[start..end]
  {
  }

  lemma StreamWaits(r: Redactor, d: Bytes, start: nat, cuts: seq<nat>, eof: bool)
    requires Valid(r) && Cuts(start, cuts, |d|) && cuts != [] && cuts[0] - start < ScanThreshold(r)
    ensures Cuts(start, cuts[1..], |d|) && StreamFrom(r, d, start, cuts, eof) == StreamFrom(r, d, start, cuts[1..], eof)
  {
    hide Valid, InOrder, Emitted, ScanAt;
    CutsTail(start, cuts, |d|);
  }

  lemma StreamEnds(r: Redactor, d: Bytes, start: nat, eof: bool)
    requires Valid(r) && start <= |d|
    ensures StreamFrom(r, d, start, [], eof) == if eof then Emitted(r, d, start, |d|, true) else []
  {
    hide Valid, InOrder, Emitted, ScanAt;
  }

  lemma NextChunk(d: Bytes, pos: nat, cuts: seq<nat>, chunks: seq<Bytes>, i: nat, last: Bytes)
    requires i < |chunks| && SplitsInto(d, pos, cuts, chunks[i..], last)
    ensures cuts != [] && pos <= cuts[0] <= |d| && d[pos..cuts[0]] == chunks[i]
    ensures SplitsInto(d, cuts[0], cuts[1..], chunks[i + 1..], last)
  {
    assert chunks[i..][0] == chunks[i] && chunks[i..][1..] == chunks[i + 1..];
  }

  lemma LastChunk(d: Bytes, pos: nat, cuts: seq<nat>, chunks: seq<Bytes>, last: Bytes)
    requires SplitsInto(d, pos, cuts, chunks[|chunks|..], last)
    ensures cuts == [] && pos <= |d| && d[pos..|d|] == last
  {
    assert d[pos..] == d[pos..|d|];
  }

  /** RedactStream: chunks are the reads of d that leave the stream open, last what comes with the final
      one, and eof whether that one ends the stream or fails. */
  method RedactStream(r: Redactor, ghost d: Bytes, ghost cuts: seq<nat>, chunks: seq<Bytes>, last: Bytes, eof: bool)
    returns (out: Bytes, ok: bool)
    requires Valid(r) && SplitsInto(d, 0, cuts, chunks, last) && Cuts(0, cuts, |d|)
    ensures ok == eof
    ensures out == StreamFrom(r, d, 0, cuts, eof)
  {
    hide Valid, InOrder, SplitsInto, StreamFrom, ScanAt, Emitted, ScanThreshold;
    ghost var start: nat, pos: nat, left := 0, 0, cuts;
    out := [];
    var carry: Bytes := [];
    assert chunks[0..] == chunks && [] + StreamFrom(r, d, 0, cuts, eof) == StreamFrom(r, d, 0, cuts, eof);
    for i := 0 to |chunks|
      invariant start <= pos <= |d| && carry == d[start..pos]
      invariant SplitsInto(d, pos, left, chunks[i..], last) && Cuts(start, left, |d|)
      invariant StreamFrom(r, d, 0, cuts, eof) == out + StreamFrom(r, d, start, left, eof)
    {
      NextChunk(d, pos, left, chunks, i, last);
      CutsTail(start, left, |d|);
      SliceJoin(d, start, pos, left[0]);
      carry := carry + chunks[i];
      pos := left[0];
      if |carry| >= ScanThreshold(r) {
        StreamStep(r, d, start, left, eof, out);
        out, carry := ScanAndWrite(r, d, start, pos, carry, false, out);
        start := ScanAt(r, d, start, pos, false).end;
      } else {
        StreamWaits(r, d, start, left, eof);
      }
      left := left[1..];
    }
    LastChunk(d, pos, left, chunks, last);
    StreamEnds(r, d, start, eof);
    if !eof {
      assert out + [] == out;
      return out, false;
    }
    SliceJoin(d, start, pos, |d|);
    out, carry := ScanAndWrite(r, d, start, |d|, carry + last, true, out);
    ok := true;
  }
}
