/**
 A stream redacted by one pattern whose words all have the same length, such as a literal or a key of a
 fixed number of characters. Its words may overlap one another; the leftmost ones are replaced, and cutting
 the input into reads does not change which they are.
 */
module OneLength {
  import opened Utf8
  import opened Spans
  import opened Redaction
  import opened Stream
  import Sorting

  ghost predicate OfLength(word: Bytes -> bool, n: nat) { forall x :: word(x) ==> |x| == n }

  lemma LengthOf(word: Bytes -> bool, n: nat, x: Bytes)
    requires OfLength(word, n) && word(x)
    ensures |x| == n
  {
  }

  /** One pattern, all of whose words have n bytes. */
  ghost predicate HasLength(r: Redactor, n: nat) { |r.patterns| == 1 && OfLength(r.patterns[0].word, n) }

  predicate WordAt(word: Bytes -> bool, n: nat, d: Bytes, s: nat) {
    s + n <= |d| && word(d[s..s + n])
  }

  /** The leftmost words of n bytes of d between lo and hi, none overlapping the next. */
  function Words(word: Bytes -> bool, n: nat, d: Bytes, lo: nat, hi: nat): seq<Span>
    requires n > 0 && hi <= |d|
    decreases hi - lo
  {
    if lo + n > hi then []
    else if WordAt(word, n, d, lo) then [Span(lo, lo + n)] + Words(word, n, d, lo + n, hi)
    else Words(word, n, d, lo + 1, hi)
  }

  lemma {:induction false} WordsInOrder(word: Bytes -> bool, n: nat, d: Bytes, lo: nat, hi: nat)
    requires n > 0 && lo <= hi <= |d|
    ensures InOrder(Words(word, n, d, lo, hi), lo, hi)
    ensures forall m :: m in Words(word, n, d, lo, hi) ==> m.end == m.start + n
    decreases hi - lo
  {
    if lo + n <= hi {
      WordsInOrder(word, n, d, if WordAt(word, n, d, lo) then lo + n else lo + 1, hi);
    }
  }

  /** ms lists words of n bytes, and one of them holds the start of every word. */
  ghost predicate Finds(word: Bytes -> bool, n: nat, d: Bytes, lo: nat, hi: nat, ms: seq<Span>)
    requires hi <= |d|
  {
    && InOrder(ms, lo, hi)
    && (forall i :: 0 <= i < |ms| ==> ms[i].end == ms[i].start + n && WordAt(word, n, d, ms[i].start))
    && forall s: nat :: lo <= s && s + n <= hi && WordAt(word, n, d, s) ==> Covers(ms, s)
  }

  lemma FindsTail(word: Bytes -> bool, n: nat, d: Bytes, lo: nat, hi: nat, ms: seq<Span>)
    requires hi <= |d| && Finds(word, n, d, lo, hi, ms) && ms != []
    ensures Finds(word, n, d, ms[0].end, hi, ms[1..])
  {
    InOrderTail(ms, lo, hi);
    forall s: nat | ms[0].end <= s && s + n <= hi && WordAt(word, n, d, s) ensures Covers(ms[1..], s) {
      var i :| 0 <= i < |ms| && Holds(ms[i], s);
      assert ms[1..][i - 1] == ms[i];
    }
  }

  lemma FindsHead(word: Bytes -> bool, n: nat, d: Bytes, lo: nat, hi: nat, ms: seq<Span>)
    requires n > 0 && lo <= hi <= |d| && Finds(word, n, d, lo, hi, ms)
    ensures lo + n > hi ==> ms == []
    ensures lo + n <= hi && WordAt(word, n, d, lo) ==> ms != [] && ms[0] == Span(lo, lo + n)
    ensures lo + n <= hi && !WordAt(word, n, d, lo) ==> Finds(word, n, d, lo + 1, hi, ms)
  {
    if ms != [] {
      assert Within(ms[0], lo, hi);
    }
    if lo + n <= hi && WordAt(word, n, d, lo) {
      var i :| 0 <= i < |ms| && Holds(ms[i], lo);
    }
  }

  /** There is only one such list. */
  lemma {:induction false} FoundWords(word: Bytes -> bool, n: nat, d: Bytes, lo: nat, hi: nat, ms: seq<Span>)
    requires n > 0 && lo <= hi <= |d| && Finds(word, n, d, lo, hi, ms)
    ensures ms == Words(word, n, d, lo, hi)
    decreases hi - lo
  {
    hide Finds, WordAt;
    FindsHead(word, n, d, lo, hi, ms);
    if lo + n <= hi {
      if WordAt(word, n, d, lo) {
        FindsTail(word, n, d, lo, hi, ms);
        FoundWords(word, n, d, lo + n, hi, ms[1..]);
        assert ms == [ms[0]] + ms[1..];
      } else {
        FoundWords(word, n, d, lo + 1, hi, ms);
      }
    }
  }

  lemma FoundIsWord(p: Pattern, c: Bytes, m: Span)
    requires SearchOk(p, c) && m in NonEmptyMatches(p, c)
    ensures m.start < m.end <= |c| && p.word(c[m.start..m.end])
  {
    hide Sorting.Filter;
    Sorting.FilterMembers(NonEmpty, p.find(c));
  }

  lemma MatchIsWord(p: Pattern, n: nat, c: Bytes, m: Span)
    requires SearchOk(p, c) && m in NonEmptyMatches(p, c) && OfLength(p.word, n)
    ensures m.end == m.start + n && WordAt(p.word, n, c, m.start)
  {
    hide SearchOk, NonEmptyMatches, OfLength;
    FoundIsWord(p, c, m);
    LengthOf(p.word, n, c[m.start..m.end]);
  }

  lemma WordIsCovered(p: Pattern, n: nat, c: Bytes, s: nat)
    requires n > 0 && SearchOk(p, c) && WordAt(p.word, n, c, s)
    ensures Covers(NonEmptyMatches(p, c), s)
  {
    hide Sorting.Filter;
    var m :| m in p.find(c) && Holds(m, s);
    Sorting.FilterMembers(NonEmpty, p.find(c));
    assert m in NonEmptyMatches(p, c);
  }

  lemma SearchFinds(p: Pattern, n: nat, c: Bytes)
    requires n > 0 && SearchOk(p, c) && OfLength(p.word, n)
    requires InOrder(NonEmptyMatches(p, c), 0, |c|)
    ensures Finds(p.word, n, c, 0, |c|, NonEmptyMatches(p, c))
  {
    hide InOrder, NonEmptyMatches, SearchOk, WordAt, Covers, OfLength;
    var ms := NonEmptyMatches(p, c);
    forall i | 0 <= i < |ms| ensures ms[i].end == ms[i].start + n && WordAt(p.word, n, c, ms[i].start) {
      MatchIsWord(p, n, c, ms[i]);
    }
    forall s: nat | s + n <= |c| && WordAt(p.word, n, c, s) ensures Covers(ms, s) {
      WordIsCovered(p, n, c, s);
    }
  }

  /** What findSpans finds in a buffer. */
  lemma SpansAreWords(r: Redactor, n: nat, c: Bytes)
    requires Valid(r) && Searches(r) && HasLength(r, n) && n > 0
    ensures FindSpans(r, c) == Words(r.patterns[0].word, n, c, 0, |c|)
  {
    var p := r.patterns[0];
    OnePatternSpans(r, c);
    assert SearchOk(p, c);
    hide Valid, Searches, SearchOk, Words, NonEmptyMatches, FindSpans;
    SearchFinds(p, n, c);
    FoundWords(p.word, n, c, 0, |c|, NonEmptyMatches(p, c));
  }

  lemma WordAtInPart(word: Bytes -> bool, n: nat, d: Bytes, start: nat, pos: nat, s: nat)
    requires start <= pos <= |d| && s + n <= pos - start
    ensures WordAt(word, n, d[start..pos], s) == WordAt(word, n, d, start + s)
  {
    SliceOfSlice(d, start, pos, s, s + n);
  }

  lemma ShiftCons(s: Span, spans: seq<Span>, off: nat)
    ensures Shift([s] + spans, off) == [Span(s.start + off, s.end + off)] + Shift(spans, off)
  {
  }

  lemma {:induction false} WordsOfSlice(word: Bytes -> bool, n: nat, d: Bytes, start: nat, pos: nat, lo: nat)
    requires n > 0 && start <= pos <= |d| && lo <= pos - start
    ensures Shift(Words(word, n, d[start..pos], lo, pos - start), start) == Words(word, n, d, start + lo, pos)
    decreases pos - start - lo
  {
    hide WordAt;
    if lo + n <= pos - start {
      WordAtInPart(word, n, d, start, pos, lo);
      if WordAt(word, n, d, start + lo) {
        WordsOfSlice(word, n, d, start, pos, lo + n);
        ShiftCons(Span(lo, lo + n), Words(word, n, d[start..pos], lo + n, pos - start), start);
      } else {
        WordsOfSlice(word, n, d, start, pos, lo + 1);
      }
    }
  }

  lemma ConsPrefix(x: Span, rest: seq<Span>, k: nat)
    requires 0 < k <= |rest| + 1
    ensures ([x] + rest)[..k] == [x] + rest[..k - 1]
    ensures ([x] + rest)[k - 1] == if k == 1 then x else rest[k - 2]
  {
  }

  /** The first k words of a part are the first k of the whole. */
  lemma {:induction false} WordsPrefix(word: Bytes -> bool, n: nat, d: Bytes, lo: nat, pos: nat, k: nat)
    requires n > 0 && lo <= pos <= |d| && k <= |Words(word, n, d, lo, pos)|
    ensures var ms := Words(word, n, d, lo, pos);
            Words(word, n, d, lo, |d|) ==
              ms[..k] + Words(word, n, d, if k == 0 then lo else ms[k - 1].end, |d|)
    decreases pos - lo
  {
    var ms := Words(word, n, d, lo, pos);
    hide WordAt, OfLength;
    if k > 0 {
      if WordAt(word, n, d, lo) {
        var rest := Words(word, n, d, lo + n, pos);
        WordsPrefix(word, n, d, lo + n, pos, k - 1);
        ConsPrefix(Span(lo, lo + n), rest, k);
        Sorting.Reassociate([Span(lo, lo + n)], rest[..k - 1],
                            Words(word, n, d, if k == 1 then lo + n else rest[k - 2].end, |d|));
      } else {
        WordsPrefix(word, n, d, lo + 1, pos, k);
      }
    }
  }

  lemma {:induction false} NoWordBefore(word: Bytes -> bool, n: nat, d: Bytes, lo: nat, mid: nat, hi: nat)
    requires n > 0 && lo <= mid <= hi <= |d|
    requires forall s: nat :: lo <= s < mid && s + n <= hi ==> !WordAt(word, n, d, s)
    ensures Words(word, n, d, lo, hi) == Words(word, n, d, mid, hi)
    decreases mid - lo
  {
    if lo < mid {
      NoWordBefore(word, n, d, lo + 1, mid, hi);
    }
  }

  // ---- the stream ----

  lemma {:induction false} WordsCover(word: Bytes -> bool, n: nat, d: Bytes, lo: nat, hi: nat, s: nat)
    requires n > 0 && lo <= s && s + n <= hi <= |d| && WordAt(word, n, d, s)
    ensures Covers(Words(word, n, d, lo, hi), s)
    decreases hi - lo
  {
    var ms := Words(word, n, d, lo, hi);
    if WordAt(word, n, d, lo) {
      if s < lo + n {
        assert Holds(ms[0], s);
      } else {
        WordsCover(word, n, d, lo + n, hi, s);
        var i :| 0 <= i < |ms[1..]| && Holds(ms[1..][i], s);
        assert Holds(ms[i + 1], s);
      }
    } else {
      WordsCover(word, n, d, lo + 1, hi, s);
    }
  }

  lemma CoveredIsReplaced(r: Redactor, c: Bytes, s: nat)
    requires Valid(r) && Covers(FindSpans(r, c), s) && s < Scan(r, c, false).end
    ensures s < LastEnd(Scan(r, c, false).spans)
  {
    hide Valid, Scan, FindSpans;
    var k :| 0 <= k < |FindSpans(r, c)| && Holds(FindSpans(r, c)[k], s);
    ScanKeepsOrHolds(r, c, false, k);
  }

  /** No word starts between the last span that a scan replaces and the end of what it emits. */
  lemma EmitSkipsNoWord(r: Redactor, n: nat, c: Bytes, s: nat)
    requires Valid(r) && Searches(r) && HasLength(r, n) && 0 < n <= Overlap(r) + 1
    requires LastEnd(Scan(r, c, false).spans) <= s < Scan(r, c, false).end
    ensures s + n <= |c| && !WordAt(r.patterns[0].word, n, c, s)
  {
    hide Valid, Searches, Scan, FindSpans;
    SpansAreWords(r, n, c);
    if s + n > |c| {
      ScanHoldsTail(r, c, s);
    } else if WordAt(r.patterns[0].word, n, c, s) {
      WordsCover(r.patterns[0].word, n, c, 0, |c|, s);
      CoveredIsReplaced(r, c, s);
    }
  }

  lemma ShiftPrefix(spans: seq<Span>, k: nat, off: nat)
    requires k <= |spans|
    ensures Shift(spans, off)[..k] == Shift(spans[..k], off)
  {
  }

  lemma NoneSkipped(r: Redactor, n: nat, d: Bytes, start: nat, pos: nat, s: nat)
    requires Valid(r) && Searches(r) && HasLength(r, n) && 0 < n <= Overlap(r) + 1 && start <= pos <= |d|
    requires start + LastEnd(Scan(r, d[start..pos], false).spans) <= s < start + Scan(r, d[start..pos], false).end
    ensures !WordAt(r.patterns[0].word, n, d, s)
  {
    hide Valid, Searches, WordAt, Scan;
    EmitSkipsNoWord(r, n, d[start..pos], s - start);
    WordAtInPart(r.patterns[0].word, n, d, start, pos, s - start);
  }

  lemma ScanKeepsPrefix(r: Redactor, c: Bytes)
    requires Valid(r)
    ensures var k := |Scan(r, c, false).spans|;
            k <= |FindSpans(r, c)| && Scan(r, c, false).spans == FindSpans(r, c)[..k]
    ensures LastEnd(Scan(r, c, false).spans) <= Scan(r, c, false).end
  {
  }

  /** One scan replaces the words that start in what it emits: those of the part it sees are those of the
      whole, and one that is cut short starts too near the end to be passed over. */
  lemma ScanTakesWords(r: Redactor, n: nat, d: Bytes, start: nat, pos: nat)
    requires Valid(r) && Searches(r) && HasLength(r, n) && 0 < n <= Overlap(r) + 1 && start <= pos <= |d|
    ensures var e := ScanAt(r, d, start, pos, false);
            Words(r.patterns[0].word, n, d, start, |d|) == e.spans + Words(r.patterns[0].word, n, d, e.end, |d|)
  {
    hide Valid, Searches, InOrder, WordAt, OfLength, Scan, Words, FindSpans;
    var word, c := r.patterns[0].word, d[start..pos];
    var kept, end := Scan(r, c, false).spans, Scan(r, c, false).end;
    SpansAreWords(r, n, c);
    WordsOfSlice(word, n, d, start, pos, 0);
    ScanKeepsPrefix(r, c);
    WordsPrefix(word, n, d, start, pos, |kept|);
    forall s: nat | start + LastEnd(kept) <= s < start + end && s + n <= |d| ensures !WordAt(word, n, d, s) {
      NoneSkipped(r, n, d, start, pos, s);
    }
    NoWordBefore(word, n, d, start + LastEnd(kept), start + end, |d|);
    ShiftPrefix(FindSpans(r, c), |kept|, start);
  }

  lemma LastScanTakesWords(r: Redactor, n: nat, d: Bytes, start: nat)
    requires Valid(r) && Searches(r) && HasLength(r, n) && n > 0 && start <= |d|
    ensures ScanAt(r, d, start, |d|, true).spans == Words(r.patterns[0].word, n, d, start, |d|)
  {
    hide Valid, Searches, InOrder, WordAt, Words, FindSpans;
    SpansAreWords(r, n, d[start..|d|]);
    WordsOfSlice(r.patterns[0].word, n, d, start, |d|, 0);
  }

  lemma {:induction false} RunTakesWords(r: Redactor, n: nat, d: Bytes, start: nat, cuts: seq<nat>)
    requires Valid(r) && Searches(r) && HasLength(r, n) && 0 < n <= Overlap(r) + 1 && Cuts(start, cuts, |d|)
    ensures Run(r, d, start, cuts, true).spans == Words(r.patterns[0].word, n, d, start, |d|)
    decreases cuts
  {
    hide Valid, Searches, HasLength, InOrder, WordAt, Words, FindSpans, ScanAt;
    CutsBound(start, cuts, |d|);
    if cuts == [] {
      LastScanTakesWords(r, n, d, start);
    } else {
      CutsTail(start, cuts, |d|);
      if cuts[0] - start < ScanThreshold(r) {
        RunTakesWords(r, n, d, start, cuts[1..]);
      } else {
        ScanTakesWords(r, n, d, start, cuts[0]);
        RunTakesWords(r, n, d, ScanAt(r, d, start, cuts[0], false).end, cuts[1..]);
      }
    }
  }

  /** One pattern of words of one length within the window: however the input is read, the stream replaces the
      spans that findSpans finds in all of it. Words may overlap. */
  lemma OneLengthStreamRefines(r: Redactor, n: nat, d: Bytes, cuts: seq<nat>)
    requires Valid(r) && Searches(r) && HasLength(r, n) && 0 < n <= Overlap(r) + 1 && Cuts(0, cuts, |d|)
    ensures Run(r, d, 0, cuts, true).spans == FindSpans(r, d)
    ensures StreamFrom(r, d, 0, cuts, true) == Redacted(r, d)
  {
    RunTakesWords(r, n, d, 0, cuts);
    SpansAreWords(r, n, d);
    StreamIsApply(r, d, 0, cuts, true);
  }
}
