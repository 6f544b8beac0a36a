/**
 A stream redacted by one pattern: exactly when cutting the input into reads does not change what is replaced,
 whatever the words of the pattern, their lengths and the way they overlap.
 */
module SinglePattern {
  import opened Utf8
  import opened Folding
  import opened Regex
  import opened Spans
  import opened Redaction
  import opened Stream
  import opened StreamRefinement
  import opened Scanner
  import opened OneLength
  import Sorting

  /** A redactor of one pattern that is searched for by `at`. */
  ghost predicate ScansFor(r: Redactor, word: Bytes -> bool, at: Bytes -> nat) {
    && Valid(r) && TakesLongest(word, at)
    && forall c :: FindSpans(r, c) == FindFrom(at, c, 0)
  }

  /** All of them end at len, and are short enough to be held back there. */
  predicate HeldAt(ms: seq<Span>, len: nat) {
    forall m :: m in ms ==> m.end == len && m.end - m.start <= MAX_PENDING_MATCH
  }

  /** Of the first bytes of a word, u: whatever is found in them ends with them and can be held back, and if the
      window does not hold them all, they are found as a whole. */
  ghost predicate InTime(at: Bytes -> nat, window: nat, u: Bytes) {
    HeldAt(FindFrom(at, u, 0), |u|) && (|u| > window ==> at(u) == |u|)
  }

  ghost predicate Timely(word: Bytes -> bool, at: Bytes -> nat, window: nat) {
    forall w, j: nat :: word(w) && j < |w| ==> InTime(at, window, w[..j])
  }

  /** Where only the words of d are asked for. */
  ghost predicate TimelyIn(word: Bytes -> bool, at: Bytes -> nat, window: nat, d: Bytes) {
    forall s: nat, j: nat, e: nat :: s <= j < e <= |d| && word(d[s..e]) ==> InTime(at, window, d[s..j])
  }

  lemma ScansFacts(r: Redactor, word: Bytes -> bool, at: Bytes -> nat)
    requires ScansFor(r, word, at)
    ensures Valid(r) && TakesLongest(word, at)
  {
  }

  lemma TimelyAnywhere(word: Bytes -> bool, at: Bytes -> nat, window: nat, d: Bytes)
    requires Timely(word, at, window)
    ensures TimelyIn(word, at, window, d)
  {
    forall s: nat, j: nat, e: nat | s <= j < e <= |d| && word(d[s..e]) ensures InTime(at, window, d[s..j]) {
      assert d[s..e][..j - s] == d[s..j];
    }
  }

  lemma FoundHere(at: Bytes -> nat, c: Bytes, p: nat, n: nat)
    requires p < |c| && n == at(c[p..])
    ensures 0 < n <= |c| - p ==> FindFrom(at, c, p) == [Span(p, p + n)] + FindFrom(at, c, p + n)
    ensures !(0 < n <= |c| - p) ==> FindFrom(at, c, p) == FindFrom(at, c, p + 1)
  {
  }

  lemma MoreInTail(at: Bytes -> nat, c: Bytes, y: nat, z: nat, n: nat)
    requires y + z < |c| && n == at(c[y + z..]) && 0 < n <= |c| - y - z
    requires Shift(FindFrom(at, c[y..], z + n), y) == FindFrom(at, c, y + z + n)
    ensures Shift(FindFrom(at, c[y..], z), y) == FindFrom(at, c, y + z)
  {
    hide FindFrom, Shift;
    assert c[y..][z..] == c[y + z..];
    FoundHere(at, c[y..], z, n);
    FoundHere(at, c, y + z, n);
    ShiftCons(Span(z, z + n), FindFrom(at, c[y..], z + n), y);
  }

  lemma SameInTail(at: Bytes -> nat, c: Bytes, y: nat, z: nat, n: nat)
    requires y + z < |c| && n == at(c[y + z..]) && !(0 < n <= |c| - y - z)
    requires Shift(FindFrom(at, c[y..], z + 1), y) == FindFrom(at, c, y + z + 1)
    ensures Shift(FindFrom(at, c[y..], z), y) == FindFrom(at, c, y + z)
  {
    hide FindFrom, Shift;
    assert c[y..][z..] == c[y + z..];
    FoundHere(at, c[y..], z, n);
    FoundHere(at, c, y + z, n);
  }

  lemma {:induction false} FoundInTail(at: Bytes -> nat, c: Bytes, y: nat, z: nat)
    requires y + z <= |c|
    ensures Shift(FindFrom(at, c[y..], z), y) == FindFrom(at, c, y + z)
    decreases |c| - z
  {
    if y + z < |c| {
      hide FindFrom, Shift;
      var n := at(c[y + z..]);
      if 0 < n <= |c| - y - z {
        FoundInTail(at, c, y, z + n);
        MoreInTail(at, c, y, z, n);
      } else {
        FoundInTail(at, c, y, z + 1);
        SameInTail(at, c, y, z, n);
      }
    }
  }

  // ---- one scan ----

  /** Having passed the first i matches, the search stands at y. */
  ghost predicate Stands(at: Bytes -> nat, c: Bytes, i: nat, y: nat) {
    && i <= |FindFrom(at, c, 0)| && y <= |c|
    && FindFrom(at, c, 0)[i..] == FindFrom(at, c, y)
    && forall k :: 0 <= k < i ==> FindFrom(at, c, 0)[k].end <= y
  }

  lemma FoundStep(word: Bytes -> bool, at: Bytes -> nat, d: Bytes, s: nat)
    requires TakesLongest(word, at) && s < |d|
    ensures var n := at(d[s..]);
            if n > 0 then s + n <= |d| && FindFrom(at, d, s) == [Span(s, s + n)] + FindFrom(at, d, s + n)
            else FindFrom(at, d, s) == FindFrom(at, d, s + 1)
  {
    assert LongestAt(word, at, d[s..]);
  }

  lemma DropHead(ms: seq<Span>, i: nat, x: Span, rest: seq<Span>)
    requires i <= |ms| && ms[i..] == [x] + rest
    ensures i < |ms| && ms[i] == x && ms[i + 1..] == rest
  {
    assert ms[i] == ms[i..][0];
    assert ms[i + 1..] == ms[i..][1..];
  }

  lemma StandsBehind(at: Bytes -> nat, c: Bytes, i: nat, y: nat, end: nat)
    requires Stands(at, c, i, y) && y <= end <= |c|
    requires FindFrom(at, c, y) == [Span(y, end)] + FindFrom(at, c, end)
    ensures Stands(at, c, i + 1, end) && i < |FindFrom(at, c, 0)| && FindFrom(at, c, 0)[i] == Span(y, end)
  {
    hide FindFrom;
    DropHead(FindFrom(at, c, 0), i, Span(y, end), FindFrom(at, c, end));
  }

  lemma StandsNext(word: Bytes -> bool, at: Bytes -> nat, c: Bytes, i: nat, y: nat, n: nat)
    requires TakesLongest(word, at) && Stands(at, c, i, y) && y < |c| && n == at(c[y..]) > 0
    ensures y + n <= |c| && Stands(at, c, i + 1, y + n)
    ensures i < |FindFrom(at, c, 0)| && FindFrom(at, c, 0)[i] == Span(y, y + n)
  {
    hide FindFrom, TakesLongest, Stands;
    FoundStep(word, at, c, y);
    StandsBehind(at, c, i, y, y + n);
  }

  lemma StandsPast(at: Bytes -> nat, c: Bytes, i: nat, y: nat)
    requires Stands(at, c, i, y) && y < |c| && at(c[y..]) == 0
    ensures Stands(at, c, i, y + 1)
  {
    var ms := FindFrom(at, c, 0);
    assert FindFrom(at, c, y) == FindFrom(at, c, y + 1);
    hide FindFrom;
  }

  lemma EndsBeforeNext(ms: seq<Span>, len: nat, i: nat)
    requires InOrder(ms, 0, len) && i < |ms| - 1
    ensures ms[i].end < len
  {
    assert ms[i].end <= ms[i + 1].start;
  }

  /** A scan emits nothing from y on if what it finds there can be held back, and what is left is found as a whole
      or fits the window. */
  lemma EmitStops(ms: seq<Span>, len: nat, overlap: nat, i: nat, y: nat)
    requires InOrder(ms, 0, len) && i <= |ms| && y < len
    requires forall k :: 0 <= k < i ==> ms[k].end <= y
    requires forall k :: i <= k < |ms| ==> ms[k].end == len && len - ms[k].start <= MAX_PENDING_MATCH
    requires len - y > overlap ==> i < |ms| && ms[i].start == y
    ensures EmitOf(ms, len, overlap).end <= y
  {
    if i < |ms| - 1 {
      EndsBeforeNext(ms, len, i);
    }
  }

  lemma HeldFrom(ms: seq<Span>, fs: seq<Span>, i: nat, y: nat, len: nat)
    requires i <= |ms| && ms[i..] == Shift(fs, y) && y < len && HeldAt(fs, len - y)
    ensures forall k :: i <= k < |ms| ==> ms[k].end == len && len - ms[k].start <= MAX_PENDING_MATCH
    ensures fs != [] ==> i < |ms| && ms[i].start == y + fs[0].start
  {
    forall k | i <= k < |ms| ensures ms[k].end == len && len - ms[k].start <= MAX_PENDING_MATCH {
      assert ms[k] == ms[i..][k - i] == Up(fs[k - i], y);
      assert fs[k - i] in fs;
    }
    assert fs != [] ==> ms[i] == ms[i..][0];
  }

  lemma StopsInTime(r: Redactor, word: Bytes -> bool, at: Bytes -> nat, c: Bytes, i: nat, y: nat)
    requires ScansFor(r, word, at) && Stands(at, c, i, y) && y < |c| && InTime(at, Overlap(r), c[y..])
    ensures Scan(r, c, false).end <= y
  {
    hide Valid, FindSpans, TakesLongest, FindFrom, LongestWord, HeldAt, EmitOf, Shift;
    var ms, fs, u := FindFrom(at, c, 0), FindFrom(at, c[y..], 0), c[y..];
    FindFromInOrder(word, at, c, 0);
    FoundInTail(at, c, y, 0);
    HeldFrom(ms, fs, i, y, |c|);
    if |c| - y > Overlap(r) {
      assert u[0..] == u;
      FoundHere(at, u, 0, |u|);
    }
    EmitStops(ms, |c|, Overlap(r), i, y);
  }

  /** The end of the carry either does not change which word starts at s, or cuts it short. */
  lemma SameOrCut(word: Bytes -> bool, at: Bytes -> nat, d: Bytes, s: nat, pos: nat)
    requires TakesLongest(word, at) && s <= pos <= |d|
    ensures var n := at(d[s..]);
            at(d[s..pos]) == n || (pos < s + n <= |d| && word(d[s..s + n]))
  {
    var n, k := at(d[s..]), at(d[s..pos]);
    assert LongestAt(word, at, d[s..]) && LongestAt(word, at, d[s..pos]);
    assert d[s..][..n] == d[s..s + n] && d[s..pos][..k] == d[s..s + k] && d[s..][..k] == d[s..s + k];
    if s + n <= pos {
      assert d[s..pos][..n] == d[s..s + n];
    }
  }

  /** Where the search of a carry stands in what is to be emitted, it sees what the search of all the input
      sees there. */
  lemma SeesAlike(r: Redactor, word: Bytes -> bool, at: Bytes -> nat, d: Bytes, start: nat, pos: nat, i: nat, y: nat)
    requires ScansFor(r, word, at) && TimelyIn(word, at, Overlap(r), d) && start <= pos <= |d|
    requires Stands(at, d[start..pos], i, y) && y < Scan(r, d[start..pos], false).end
    ensures at(d[start..pos][y..]) == at(d[start + y..])
  {
    hide Valid, InTime, Stands, FindSpans, TakesLongest, Scan;
    var c, s := d[start..pos], start + y;
    assert c[y..] == d[s..pos];
    SameOrCut(word, at, d, s, pos);
    if at(d[s..pos]) != at(d[s..]) {
      assert InTime(at, Overlap(r), d[s..pos]);
      StopsInTime(r, word, at, c, i, y);
    }
  }

  /** What starts below the end of what a scan emits is replaced, and nothing else. */
  lemma StandsBelow(r: Redactor, word: Bytes -> bool, at: Bytes -> nat, c: Bytes, i: nat, y: nat)
    requires ScansFor(r, word, at) && Stands(at, c, i, y) && y <= Scan(r, c, false).end
    ensures var e := Scan(r, c, false);
            && i <= |e.spans|
            && (y == e.end ==> i == |e.spans|)
            && (y < e.end && at(c[y..]) > 0 ==>
                  && i < |e.spans| && y + at(c[y..]) <= e.end
                  && e.spans[i] == Span(y, y + at(c[y..])))
  {
    var e, ms := Scan(r, c, false), FindFrom(at, c, 0);
    assert ms == FindSpans(r, c);
    FindFromInOrder(word, at, c, y);
    hide Valid, Scan, FindSpans, TakesLongest, FindFrom, LongestWord;
    ScanKeepsPrefix(r, c);
    if i < |ms| {
      ScanKeepsOrHolds(r, c, false, i);
      assert ms[i] == ms[i..][0];
    }
    if i > |e.spans| {
      ScanKeepsOrHolds(r, c, false, i - 1);
    }
    if y < e.end && at(c[y..]) > 0 {
      StandsNext(word, at, c, i, y, at(c[y..]));
    }
  }

  lemma ShiftDrop(spans: seq<Span>, i: nat, off: nat)
    requires i < |spans|
    ensures Shift(spans[i..], off) == [Span(spans[i].start + off, spans[i].end + off)] + Shift(spans[i + 1..], off)
  {
  }

  /** The matches of all the input from y on are those that the scan still replaces, and then those behind it. */
  ghost predicate FindsAlike(r: Redactor, at: Bytes -> nat, d: Bytes, start: nat, pos: nat, i: nat, y: nat)
    requires Valid(r) && start <= pos <= |d|
  {
    var e := Scan(r, d[start..pos], false);
    && i <= |e.spans|
    && FindFrom(at, d, start + y) == Shift(e.spans[i..], start) + FindFrom(at, d, start + e.end)
  }

  lemma OneMore(spans: seq<Span>, i: nat, off: nat, rest: seq<Span>)
    requires i < |spans|
    ensures Shift(spans[i..], off) + rest == [Up(spans[i], off)] + (Shift(spans[i + 1..], off) + rest)
  {
    hide Shift;
    ShiftDrop(spans, i, off);
    Sorting.Reassociate([Up(spans[i], off)], Shift(spans[i + 1..], off), rest);
  }

  lemma FindsOneMore(r: Redactor, at: Bytes -> nat, d: Bytes, start: nat, pos: nat, i: nat, y: nat, n: nat)
    requires Valid(r) && start <= pos <= |d| && FindsAlike(r, at, d, start, pos, i + 1, y + n)
    requires FindFrom(at, d, start + y) == [Span(start + y, start + y + n)] + FindFrom(at, d, start + y + n)
    requires Scan(r, d[start..pos], false).spans[i] == Span(y, y + n)
    ensures FindsAlike(r, at, d, start, pos, i, y)
  {
    hide Valid, Scan, FindSpans, FindFrom, Shift;
    var e := Scan(r, d[start..pos], false);
    OneMore(e.spans, i, start, FindFrom(at, d, start + e.end));
  }

  lemma FindsFurtherOn(r: Redactor, at: Bytes -> nat, d: Bytes, start: nat, pos: nat, i: nat, y: nat)
    requires Valid(r) && start <= pos <= |d| && FindsAlike(r, at, d, start, pos, i, y + 1)
    requires FindFrom(at, d, start + y) == FindFrom(at, d, start + y + 1)
    ensures FindsAlike(r, at, d, start, pos, i, y)
  {
    hide Valid, Scan, FindFrom;
  }

  lemma {:induction false} FindsRestAlike(r: Redactor, word: Bytes -> bool, at: Bytes -> nat, d: Bytes, start: nat,
                                          pos: nat, i: nat, y: nat)
    requires ScansFor(r, word, at) && TimelyIn(word, at, Overlap(r), d) && start <= pos <= |d|
    requires Stands(at, d[start..pos], i, y) && y <= Scan(r, d[start..pos], false).end
    ensures FindsAlike(r, at, d, start, pos, i, y)
    decreases |d| - y
  {
    hide Valid, Scan, FindSpans, FindFrom, Stands, TimelyIn, TakesLongest;
    var c := d[start..pos];
    StandsBelow(r, word, at, c, i, y);
    if y < Scan(r, c, false).end {
      hide FindsAlike;
      SeesAlike(r, word, at, d, start, pos, i, y);
      FoundStep(word, at, d, start + y);
      var n := at(c[y..]);
      if n > 0 {
        StandsNext(word, at, c, i, y, n);
        FindsRestAlike(r, word, at, d, start, pos, i + 1, y + n);
        FindsOneMore(r, at, d, start, pos, i, y, n);
      } else {
        StandsPast(at, c, i, y);
        FindsRestAlike(r, word, at, d, start, pos, i, y + 1);
        FindsFurtherOn(r, at, d, start, pos, i, y);
      }
    }
  }

  /** A scan replaces the first matches of all the input from its start on, and the search goes on behind them as
      it would have. */
  lemma ScanTakesMatches(r: Redactor, word: Bytes -> bool, at: Bytes -> nat, d: Bytes, start: nat, pos: nat)
    requires ScansFor(r, word, at) && TimelyIn(word, at, Overlap(r), d) && start <= pos <= |d|
    ensures var e := ScanAt(r, d, start, pos, false);
            FindFrom(at, d, start) == e.spans + FindFrom(at, d, e.end)
  {
    hide Valid, Scan, FindSpans, FindFrom, TimelyIn, TakesLongest;
    var e := Scan(r, d[start..pos], false);
    assert FindFrom(at, d[start..pos], 0)[0..] == FindFrom(at, d[start..pos], 0);
    FindsRestAlike(r, word, at, d, start, pos, 0, 0);
    assert e.spans[0..] == e.spans;
  }

  lemma LastScanTakesMatches(r: Redactor, word: Bytes -> bool, at: Bytes -> nat, d: Bytes, start: nat)
    requires ScansFor(r, word, at) && start <= |d|
    ensures ScanAt(r, d, start, |d|, true).spans == FindFrom(at, d, start)
  {
    hide Valid, FindSpans, FindFrom, TakesLongest;
    assert d[start..|d|] == d[start..];
    FoundInTail(at, d, start, 0);
  }

  lemma {:induction false} RunTakesMatches(r: Redactor, word: Bytes -> bool, at: Bytes -> nat, d: Bytes, start: nat,
                                           cuts: seq<nat>)
    requires ScansFor(r, word, at) && TimelyIn(word, at, Overlap(r), d) && Cuts(start, cuts, |d|)
    ensures Run(r, d, start, cuts, true).spans == FindFrom(at, d, start)
    decreases cuts
  {
    hide Valid, TakesLongest, TimelyIn, FindFrom, FindSpans, ScanAt;
    CutsBound(start, cuts, |d|);
    if cuts == [] {
      LastScanTakesMatches(r, word, at, d, start);
    } else {
      CutsTail(start, cuts, |d|);
      if cuts[0] - start < ScanThreshold(r) {
        RunTakesMatches(r, word, at, d, start, cuts[1..]);
      } else {
        ScanTakesMatches(r, word, at, d, start, cuts[0]);
        RunTakesMatches(r, word, at, d, ScanAt(r, d, start, cuts[0], false).end, cuts[1..]);
      }
    }
  }

  /** If every word of the input is found in time, the input may be cut anywhere. */
  lemma TimelyInputRefines(r: Redactor, word: Bytes -> bool, at: Bytes -> nat, d: Bytes, cuts: seq<nat>)
    requires ScansFor(r, word, at) && TimelyIn(word, at, Overlap(r), d)
    ensures ReadsDoNotMatter(r, d, cuts)
  {
    hide Valid, TakesLongest, TimelyIn, FindFrom, FindSpans, Run;
    if Cuts(0, cuts, |d|) {
      RunTakesMatches(r, word, at, d, 0, cuts);
    }
  }

  // ---- a word that is not found in time ----

  /** n bytes that are in no ASCII word. */
  function Blank(n: nat): (b: Bytes)
    ensures |b| == n
  {
    seq(n, _ => RUNE_SELF)
  }

  lemma BlankIsNoWord(word: Bytes -> bool, x: Bytes)
    requires (forall x :: word(x) ==> Ascii(x)) && x != [] && x[0] == RUNE_SELF
    ensures !word(x)
  {
  }

  lemma NoWordInBlank(word: Bytes -> bool, at: Bytes -> nat, d: Bytes, s: nat)
    requires TakesLongest(word, at) && (forall x :: word(x) ==> Ascii(x)) && s < |d| && d[s] == RUNE_SELF
    ensures at(d[s..]) == 0
  {
    assert LongestAt(word, at, d[s..]);
    forall k: nat | 0 < k <= |d| - s ensures !word(d[s..][..k]) {
      BlankIsNoWord(word, d[s..][..k]);
    }
  }

  lemma {:induction false} BlankIsSkipped(word: Bytes -> bool, at: Bytes -> nat, fill: nat, u: Bytes, y: nat)
    requires TakesLongest(word, at) && (forall x :: word(x) ==> Ascii(x)) && y <= fill
    ensures FindFrom(at, Blank(fill) + u, y) == Shift(FindFrom(at, u, 0), fill)
    decreases fill - y
  {
    var d := Blank(fill) + u;
    if y < fill {
      hide TakesLongest, Ascii;
      NoWordInBlank(word, at, d, y);
      BlankIsSkipped(word, at, fill, u, y + 1);
    } else {
      hide TakesLongest, Ascii, FindFrom, Blank;
      assert d[fill..] == u;
      FoundInTail(at, d, fill, 0);
    }
  }

  lemma WordIsFound(word: Bytes -> bool, at: Bytes -> nat, w: Bytes)
    requires TakesLongest(word, at) && word(w) && w != []
    ensures FindFrom(at, w, 0) == [Span(0, |w|)]
  {
    assert w[0..] == w && w[..|w|] == w;
    assert LongestAt(word, at, w);
    assert FindFrom(at, w, |w|) == [];
  }

  /** A scan of len bytes with these matches replaces none, and emits nothing from y on. */
  predicate Waits(ms: seq<Span>, len: nat, overlap: nat, y: nat) {
    InOrder(ms, 0, len) && EmitOf(ms, len, overlap).spans == [] && EmitOf(ms, len, overlap).end <= y
  }

  predicate StartsWhole(ms: seq<Span>, len: nat) { ms != [] && ms[0].start == 0 && ms[0].end == len }

  /** The converse of EmitStops, for matches behind a filling. */
  lemma StopsOnlyThere(ms: seq<Span>, len: nat, overlap: nat, fill: nat)
    requires InOrder(ms, 0, len) && overlap <= fill && Waits(Shift(ms, fill), fill + len, overlap, fill)
    ensures HeldAt(ms, len)
    ensures len > overlap ==> StartsWhole(ms, len)
  {
    assert ms != [] ==> Shift(ms, fill)[|ms| - 1] == Up(ms[|ms| - 1], fill);
  }

  lemma FirstOfSum(a: seq<Span>, b: seq<Span>, x: Span)
    requires a + b == [x]
    ensures if a == [] then b == [x] else a[0] == x
  {
    assert (a + b)[0] == if a == [] then b[0] else a[0];
  }

  lemma TwoScans(r: Redactor, d: Bytes, cut: nat)
    requires Valid(r) && ScanThreshold(r) <= cut <= |d| && Cuts(0, [cut], |d|)
    ensures var e := ScanAt(r, d, 0, cut, false);
            Run(r, d, 0, [cut], true).spans == e.spans + ScanAt(r, d, e.end, |d|, true).spans
  {
    hide Valid, ScanAt;
  }

  lemma ScanFromStart(r: Redactor, d: Bytes, cut: nat)
    requires Valid(r) && cut <= |d|
    ensures var e, m := ScanAt(r, d, 0, cut, false), EmitOf(FindSpans(r, d[0..cut]), cut, Overlap(r));
            |e.spans| == |m.spans| && e.end == m.end
  {
    hide Valid, FindSpans, EmitOf;
  }

  /** A run that ends with a span that reaches to the end, and replaces nothing else, has replaced and emitted nothing
      of it in its first scan. */
  lemma FirstScanWaits(r: Redactor, d: Bytes, cut: nat, x: Span)
    requires Valid(r) && ScanThreshold(r) <= cut < |d| && Cuts(0, [cut], |d|)
    requires Run(r, d, 0, [cut], true).spans == [x] && x.end == |d|
    ensures Waits(FindSpans(r, d[0..cut]), cut, Overlap(r), x.start)
  {
    hide Valid, FindSpans, Run, Scan, ScanAt, EmitOf;
    var e := ScanAt(r, d, 0, cut, false);
    var t := ScanAt(r, d, e.end, |d|, true);
    TwoScans(r, d, cut);
    ScanFromStart(r, d, cut);
    FirstOfSum(e.spans, t.spans, x);
    assert t.spans == [x] ==> Within(x, e.end, t.end) by {
      assert t.spans != [] ==> Within(t.spans[0], e.end, t.end);
    }
  }

  lemma FoundWhole(word: Bytes -> bool, at: Bytes -> nat, u: Bytes)
    requires TakesLongest(word, at) && StartsWhole(FindFrom(at, u, 0), |u|)
    ensures at(u) == |u|
  {
    hide TakesLongest;
    assert u[0..] == u;
    FoundStep(word, at, u, 0);
    FindFromInOrder(word, at, u, 1);
  }

  lemma TooShort(word: Bytes -> bool, u: Bytes, m: Span)
    requires forall x :: word(x) ==> |u| < |x|
    ensures !LongestWord(word, u, m)
  {
  }

  /** Nothing is found in less than the shortest word. */
  lemma NothingFound(word: Bytes -> bool, at: Bytes -> nat, u: Bytes)
    requires TakesLongest(word, at) && forall x :: word(x) ==> |u| < |x|
    ensures FindFrom(at, u, 0) == [] && at(u) == 0
  {
    assert LongestAt(word, at, u);
    FindFromInOrder(word, at, u, 0);
    hide FindFrom, TakesLongest, InOrder, LongestWord;
    if FindFrom(at, u, 0) != [] {
      TooShort(word, u, FindFrom(at, u, 0)[0]);
    }
  }

  lemma BlankThenPart(fill: nat, w: Bytes, j: nat)
    requires j <= |w|
    ensures (Blank(fill) + w)[0..fill + j] == Blank(fill) + w[..j]
  {
  }

  lemma FoundBehindBlank(r: Redactor, word: Bytes -> bool, at: Bytes -> nat, fill: nat, w: Bytes, j: nat)
    requires ScansFor(r, word, at) && (forall x :: word(x) ==> Ascii(x)) && word(w) && j < |w|
    ensures FindSpans(r, Blank(fill) + w) == [Span(fill, fill + |w|)]
    ensures FindSpans(r, (Blank(fill) + w)[0..fill + j]) == Shift(FindFrom(at, w[..j], 0), fill)
  {
    hide Valid, TakesLongest, FindSpans, FindFrom, Ascii, Blank;
    BlankIsSkipped(word, at, fill, w, 0);
    WordIsFound(word, at, w);
    BlankThenPart(fill, w, j);
    BlankIsSkipped(word, at, fill, w[..j], 0);
  }

  lemma WaitsInTime(word: Bytes -> bool, at: Bytes -> nat, u: Bytes, ms: seq<Span>, fill: nat, window: nat)
    requires TakesLongest(word, at) && window <= fill && ms == FindFrom(at, u, 0)
    requires Waits(Shift(ms, fill), fill + |u|, window, fill)
    ensures InTime(at, window, u)
  {
    hide TakesLongest, FindFrom, LongestWord, Waits, InOrder, Shift, HeldAt, StartsWhole;
    FindFromInOrder(word, at, u, 0);
    StopsOnlyThere(ms, |u|, window, fill);
    if |u| > window {
      FoundWhole(word, at, u);
    }
  }

  /** The first bytes of a word that are not in time show: behind a filling, and read up to there, what the stream
      replaces is not what the whole buffer would. */
  lemma LateWordShows(r: Redactor, word: Bytes -> bool, at: Bytes -> nat, w: Bytes, j: nat)
    requires ScansFor(r, word, at) && (forall x :: word(x) ==> Ascii(x))
    requires word(w) && j < |w| && !InTime(at, Overlap(r), w[..j])
    ensures !ReadsDoNotMatter(r, Blank(ScanThreshold(r)) + w, [ScanThreshold(r) + j])
  {
    hide Valid, ScansFor, TakesLongest, FindSpans, FindFrom, Run, Ascii, Blank, Waits, HeldAt;
    var fill := ScanThreshold(r);
    var d, cut := Blank(fill) + w, fill + j;
    ScansFacts(r, word, at);
    FoundBehindBlank(r, word, at, fill, w, j);
    assert Cuts(cut, [], |d|);
    if Run(r, d, 0, [cut], true).spans == FindSpans(r, d) {
      FirstScanWaits(r, d, cut, Span(fill, fill + |w|));
      WaitsInTime(word, at, w[..j], FindFrom(at, w[..j], 0), fill, Overlap(r));
    }
  }

  // ---- exactly when ----

  /** A tree with the words and the search of an ASCII pattern. */
  ghost predicate IsScanner(tree: Regex, word: Bytes -> bool, at: Bytes -> nat) {
    WellFormed(tree) && Accepts(AsciiFold, tree, word) && TakesLongest(word, at)
  }

  function SingleRedactor(tree: Regex, word: Bytes -> bool, at: Bytes -> nat, bufferSize: nat, maxOverlap: int)
    : Redactor
  {
    OnePattern(ScannerPattern(tree, word, at), bufferSize, maxOverlap)
  }

  lemma SingleScans(tree: Regex, word: Bytes -> bool, at: Bytes -> nat, bufferSize: nat, maxOverlap: int)
    requires IsScanner(tree, word, at)
    ensures var r := SingleRedactor(tree, word, at, bufferSize, maxOverlap);
            ScansFor(r, word, at) && Overlap(r) == Window(maxOverlap)
    ensures forall x :: word(x) ==> Ascii(x)
  {
    var r := SingleRedactor(tree, word, at, bufferSize, maxOverlap);
    ScannerWorks(tree, word, at, bufferSize, maxOverlap);
    forall c ensures FindSpans(r, c) == FindFrom(at, c, 0) {
      OnePatternSpans(r, c);
      FindFromInOrder(word, at, c, 0);
      FilterAll(NonEmpty, FindFrom(at, c, 0));
    }
  }

  /** For every pattern, buffer size and window: the stream replaces what the whole buffer would, for all inputs
      and reads, exactly if the words of the pattern are found in time. */
  lemma RefinesIffTimely(tree: Regex, word: Bytes -> bool, at: Bytes -> nat, bufferSize: nat, maxOverlap: int)
    requires IsScanner(tree, word, at)
    ensures (forall d, cuts :: ReadsDoNotMatter(SingleRedactor(tree, word, at, bufferSize, maxOverlap), d, cuts))
       <==> Timely(word, at, Window(maxOverlap))
  {
    hide ScansFor, ReadsDoNotMatter, InTime, SingleRedactor, Blank, IsScanner, Ascii;
    var r := SingleRedactor(tree, word, at, bufferSize, maxOverlap);
    SingleScans(tree, word, at, bufferSize, maxOverlap);
    if Timely(word, at, Window(maxOverlap)) {
      forall d, cuts ensures ReadsDoNotMatter(r, d, cuts) {
        TimelyAnywhere(word, at, Window(maxOverlap), d);
        TimelyInputRefines(r, word, at, d, cuts);
      }
    } else {
      var w, j: nat :| word(w) && j < |w| && !InTime(at, Window(maxOverlap), w[..j]);
      LateWordShows(r, word, at, w, j);
    }
  }

  // ---- short words ----

  /** Nothing is found in the first bytes of a word that ends before they do. */
  ghost predicate Prompt(word: Bytes -> bool, at: Bytes -> nat) {
    forall w, j: nat, m :: word(w) && j < |w| && m in FindFrom(at, w[..j], 0) ==> m.end == j
  }

  ghost predicate AllShort(word: Bytes -> bool, n: nat) { forall w :: word(w) ==> |w| <= n }

  lemma ShortIsTimelyIffPrompt(word: Bytes -> bool, at: Bytes -> nat, window: nat)
    requires AllShort(word, Min(window, MAX_PENDING_MATCH) + 1)
    ensures Timely(word, at, window) <==> Prompt(word, at)
  {
    hide FindFrom;
    if Timely(word, at, window) {
      forall w, j: nat, m | word(w) && j < |w| && m in FindFrom(at, w[..j], 0) ensures m.end == j {
        assert InTime(at, window, w[..j]);
      }
    }
  }

  /** Of words that fit the window and can be held back, it is only asked that nothing in an unfinished word is
      found before its end. */
  lemma ShortWordsRefineIffPrompt(tree: Regex, word: Bytes -> bool, at: Bytes -> nat, bufferSize: nat, maxOverlap: int)
    requires IsScanner(tree, word, at)
    requires AllShort(word, Min(Window(maxOverlap), MAX_PENDING_MATCH) + 1)
    ensures (forall d, cuts :: ReadsDoNotMatter(SingleRedactor(tree, word, at, bufferSize, maxOverlap), d, cuts))
       <==> Prompt(word, at)
  {
    hide Timely, Prompt, ReadsDoNotMatter, IsScanner;
    RefinesIffTimely(tree, word, at, bufferSize, maxOverlap);
    ShortIsTimelyIffPrompt(word, at, Window(maxOverlap));
  }
}
