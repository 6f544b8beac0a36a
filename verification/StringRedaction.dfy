/**
 redactString (pkg/bouncer/redactor.go) against findSpans: rewriting a string pattern by pattern, each in what the
 ones before it left, gives what replacing the spans of all of them at once gives.
 */
module StringRedaction {
  import opened Utf8
  import opened Folding
  import opened Regex
  import opened Prefilter
  import opened Spans
  import opened Redaction
  import opened Wrappers
  import Sorting

  predicate Apart(a: Span, b: Span) { a.end <= b.start || b.end <= a.start }

  /** No pattern matches the empty string anywhere in the text. */
  predicate NoneEmpty(patterns: seq<Pattern>, text: Bytes) {
    forall i, m :: 0 <= i < |patterns| && m in patterns[i].find(text) ==> NonEmpty(m)
  }

  /** No match of one pattern overlaps one of another. */
  predicate MatchesApart(patterns: seq<Pattern>, text: Bytes) {
    forall i, j, a, b ::
      0 <= i < j < |patterns| && a in patterns[i].find(text) && b in patterns[j].find(text) ==> Apart(a, b)
  }

  // ---- the matches of all patterns, in order ----

  /** Non-empty spans up to hi, in any order, none overlapping another. */
  ghost predicate AllApart(spans: seq<Span>, hi: nat) {
    && (forall i :: 0 <= i < |spans| ==> Within(spans[i], 0, hi))
    && forall i, j :: 0 <= i < j < |spans| ==> Apart(spans[i], spans[j])
  }

  lemma ApartSum(a: seq<Span>, b: seq<Span>, hi: nat)
    requires AllApart(a, hi) && AllApart(b, hi)
    requires forall x, y :: x in a && y in b ==> Apart(x, y)
    ensures AllApart(a + b, hi)
  {
  }

  lemma {:induction false} InsertInOrder(x: Span, spans: seq<Span>, lo: nat, hi: nat)
    requires InOrder(spans, lo, hi) && Within(x, lo, hi)
    requires forall y :: y in spans ==> Apart(x, y)
    ensures InOrder(Sorting.Insert(SortsBefore, x, spans), lo, hi)
    decreases spans
  {
    if spans != [] && !SortsBefore(x, spans[0]) {
      InOrderTail(spans, lo, hi);
      assert spans[0] in spans;
      InsertInOrder(x, spans[1..], spans[0].end, hi);
    } else if spans != [] {
      assert spans[0] in spans;
    }
  }

  lemma {:induction false} SortInOrder(spans: seq<Span>, hi: nat)
    requires AllApart(spans, hi)
    ensures InOrder(Sorting.Sort(SortsBefore, spans), 0, hi)
  {
    if spans != [] {
      SortInOrder(spans[1..], hi);
      Sorting.SortMembers(SortsBefore, spans[1..]);
      InsertInOrder(spans[0], Sorting.Sort(SortsBefore, spans[1..]), 0, hi);
    }
  }

  ghost predicate AllValid(sf: Rune -> Rune, patterns: seq<Pattern>) {
    forall i {:trigger ValidPattern(sf, patterns[i])} :: 0 <= i < |patterns| ==> ValidPattern(sf, patterns[i])
  }

  lemma MatchesOfOne(sf: Rune -> Rune, p: Pattern, text: Bytes)
    requires ValidPattern(sf, p) && forall m :: m in p.find(text) ==> NonEmpty(m)
    ensures NonEmptyMatches(p, text) == p.find(text) && InOrder(p.find(text), 0, |text|)
    ensures AllApart(p.find(text), |text|)
  {
    FilterAll(NonEmpty, p.find(text));
    NonEmptyInOrder(p.find(text), 0, |text|);
  }

  lemma TailHolds(sf: Rune -> Rune, patterns: seq<Pattern>, text: Bytes)
    requires patterns != [] && AllValid(sf, patterns) && NoneEmpty(patterns, text) && MatchesApart(patterns, text)
    ensures AllValid(sf, patterns[1..]) && NoneEmpty(patterns[1..], text) && MatchesApart(patterns[1..], text)
    ensures ValidPattern(sf, patterns[0]) && forall m :: m in patterns[0].find(text) ==> NonEmpty(m)
  {
    hide ValidPattern;
    var rest := patterns[1..];
    assert forall k :: 0 <= k < |rest| ==> rest[k] == patterns[k + 1];
    forall k | 0 <= k < |rest| ensures ValidPattern(sf, rest[k]) {
      assert ValidPattern(sf, patterns[k + 1]);
    }
    forall k, m | 0 <= k < |rest| && m in rest[k].find(text) ensures NonEmpty(m) {
      assert m in patterns[k + 1].find(text);
    }
    forall i, j, a, b | 0 <= i < j < |rest| && a in rest[i].find(text) && b in rest[j].find(text) ensures Apart(a, b) {
      assert a in patterns[i + 1].find(text) && b in patterns[j + 1].find(text);
    }
  }

  lemma HeadApart(patterns: seq<Pattern>, text: Bytes, a: Span, b: Span)
    requires patterns != [] && MatchesApart(patterns, text)
    requires a in patterns[0].find(text) && b in ScanAll(patterns[1..], text)
    ensures Apart(a, b)
  {
    ScanMembers(patterns[1..], text, b);
    var k :| 0 <= k < |patterns[1..]| && b in patterns[1..][k].find(text);
    assert b in patterns[k + 1].find(text);
  }

  lemma {:induction false} ScanIsApart(sf: Rune -> Rune, patterns: seq<Pattern>, text: Bytes)
    requires AllValid(sf, patterns) && NoneEmpty(patterns, text) && MatchesApart(patterns, text)
    ensures AllApart(ScanAll(patterns, text), |text|)
  {
    if patterns != [] {
      hide AllValid, NoneEmpty, MatchesApart, AllApart, NonEmptyMatches, ValidPattern;
      var rest := ScanAll(patterns[1..], text);
      TailHolds(sf, patterns, text);
      MatchesOfOne(sf, patterns[0], text);
      ScanIsApart(sf, patterns[1..], text);
      forall a, b | a in patterns[0].find(text) && b in rest ensures Apart(a, b) {
        HeadApart(patterns, text, a, b);
      }
      ApartSum(patterns[0].find(text), rest, |text|);
    } else {
      assert ScanAll(patterns, text) == [];
    }
  }

  // ---- rewriting what has been rewritten ----

  /** Where position p of a text comes to stand once the spans are replaced, if pos comes to stand at `at`. */
  function Lands(spans: seq<Span>, pos: nat, at: nat, hi: nat, p: nat): nat
    requires InOrder(spans, pos, hi) && pos <= p
    decreases spans
  {
    if spans == [] || p < spans[0].end then at + (p - pos)
    else Lands(spans[1..], spans[0].end, at + (spans[0].start - pos) + |SECRET_REDACTED|, hi, p)
  }

  function CarriedFrom(spans: seq<Span>, pos: nat, at: nat, hi: nat, ms: seq<Span>): (r: seq<Span>)
    requires InOrder(spans, pos, hi) && InOrder(ms, pos, hi)
    ensures |r| == |ms|
  {
    seq(|ms|, i requires 0 <= i < |ms| =>
      Span(Lands(spans, pos, at, hi, ms[i].start), Lands(spans, pos, at, hi, ms[i].end)))
  }

  /** The matches ms of a text, as they stand once the spans are replaced. */
  function Carried(spans: seq<Span>, hi: nat, ms: seq<Span>): seq<Span>
    requires InOrder(spans, 0, hi)
  {
    seq(|ms|, i requires 0 <= i < |ms| => Span(Lands(spans, 0, 0, hi, ms[i].start), Lands(spans, 0, 0, hi, ms[i].end)))
  }

  /** union lists the spans of a and those of b, which have none in common. */
  ghost predicate Joins(union: seq<Span>, a: seq<Span>, b: seq<Span>) {
    && (forall m :: m in union <==> m in a || m in b)
    && forall m :: m in a ==> m !in b
  }

  lemma JoinsSwap(union: seq<Span>, a: seq<Span>, b: seq<Span>)
    requires Joins(union, a, b)
    ensures Joins(union, b, a)
  {
  }

  lemma InTail(spans: seq<Span>, lo: nat, hi: nat, m: Span)
    requires InOrder(spans, lo, hi) && spans != []
    ensures m in spans[1..] <==> m in spans && m != spans[0]
  {
    assert spans == [spans[0]] + spans[1..];
    if m in spans[1..] {
      var i :| 0 <= i < |spans| - 1 && spans[1..][i] == m;
      assert spans[0].end <= spans[i + 1].start;
    }
  }

  /** The first of them all leads one of the two. */
  lemma FirstLeads(union: seq<Span>, a: seq<Span>, b: seq<Span>, lo: nat, hi: nat)
    requires InOrder(union, lo, hi) && InOrder(a, lo, hi) && InOrder(b, lo, hi) && Joins(union, a, b)
    requires union != [] && union[0] in a
    ensures a != [] && a[0] == union[0]
    ensures InOrder(union[1..], union[0].end, hi) && InOrder(a[1..], union[0].end, hi) && InOrder(b, union[0].end, hi)
    ensures Joins(union[1..], a[1..], b)
  {
    var u := union[0];
    var k :| 0 <= k < |a| && a[k] == u;
    assert a[0] in union;
    var j :| 0 <= j < |union| && union[j] == a[0];
    assert k == 0;
    InOrderTail(union, lo, hi);
    InOrderTail(a, lo, hi);
    forall m ensures m in union[1..] <==> m in a[1..] || m in b {
      InTail(union, lo, hi, m);
      InTail(a, lo, hi, m);
    }
    forall i | 0 <= i < |b| ensures Within(b[i], u.end, hi) {
      assert b[i] in union && b[i] != u;
      InTail(union, lo, hi, b[i]);
      var q :| 0 <= q < |union[1..]| && union[1..][q] == b[i];
    }
  }

  lemma CarriedBehind(spans: seq<Span>, pos: nat, at: nat, hi: nat, ms: seq<Span>)
    requires InOrder(spans, pos, hi) && spans != [] && InOrder(ms, spans[0].end, hi)
    ensures InOrder(ms, pos, hi) && InOrder(spans[1..], spans[0].end, hi)
    ensures CarriedFrom(spans, pos, at, hi, ms)
         == CarriedFrom(spans[1..], spans[0].end, at + (spans[0].start - pos) + |SECRET_REDACTED|, hi, ms)
  {
    InOrderTail(spans, pos, hi);
  }

  lemma LandsLater(spans: seq<Span>, pos: nat, mid: nat, at: nat, hi: nat, p: nat)
    requires pos <= mid <= p && InOrder(spans, mid, hi)
    ensures InOrder(spans, pos, hi) && Lands(spans, pos, at, hi, p) == Lands(spans, mid, at + (mid - pos), hi, p)
  {
  }

  lemma CarriedCons(spans: seq<Span>, pos: nat, at: nat, hi: nat, ms: seq<Span>)
    requires InOrder(ms, pos, hi) && ms != [] && InOrder(spans, ms[0].end, hi)
    ensures InOrder(spans, pos, hi) && InOrder(ms[1..], ms[0].end, hi)
    ensures CarriedFrom(spans, pos, at, hi, ms)
         == [Span(at + (ms[0].start - pos), at + (ms[0].end - pos))]
            + CarriedFrom(spans, ms[0].end, at + (ms[0].end - pos), hi, ms[1..])
  {
    InOrderTail(ms, pos, hi);
    forall i | 0 < i < |ms| ensures CarriedFrom(spans, pos, at, hi, ms)[i] ==
                                    CarriedFrom(spans, ms[0].end, at + (ms[0].end - pos), hi, ms[1..])[i - 1]
    {
      LandsLater(spans, pos, ms[0].end, at, hi, ms[i].start);
      LandsLater(spans, pos, ms[0].end, at, hi, ms[i].end);
    }
  }

  lemma SliceOfSum(whole: Bytes, at: nat, a: Bytes, b: Bytes)
    requires at <= |whole| && whole[at..] == a + b
    ensures at + |a| <= |whole| && whole[at..at + |a|] == a && whole[at + |a|..] == b
  {
    assert |whole| - at == |a| + |b|;
    assert whole[at..at + |a|] == whole[at..][..|a|];
    assert whole[at + |a|..] == whole[at..][|a|..];
  }

  lemma HeadIn(spans: seq<Span>)
    ensures spans == [] || spans[0] in spans
  {
  }

  lemma NothingJoined(union: seq<Span>, a: seq<Span>, b: seq<Span>)
    requires Joins(union, a, b) && union == []
    ensures a == [] && b == []
  {
    HeadIn(a);
    HeadIn(b);
  }

  /** From pos on the text is to be rewritten around the spans of union; in whole, from `at` on, it has been rewritten
      around some of them. */
  ghost predicate HalfWay(text: Bytes, union: seq<Span>, spans: seq<Span>, ms: seq<Span>, pos: nat, whole: Bytes,
                          at: nat)
  {
    && pos <= |text| && InOrder(union, pos, |text|) && InOrder(spans, pos, |text|) && InOrder(ms, pos, |text|)
    && Joins(union, spans, ms)
    && at <= |whole| && whole[at..] == Apply(text, spans, pos, |text|)
  }

  /** Rewriting the rest around the others, as they stand there, finishes it. */
  ghost predicate Finishes(text: Bytes, union: seq<Span>, spans: seq<Span>, ms: seq<Span>, pos: nat, whole: Bytes,
                           at: nat)
  {
    && HalfWay(text, union, spans, ms, pos, whole, at)
    && InOrder(CarriedFrom(spans, pos, at, |text|, ms), at, |whole|)
    && Apply(whole, CarriedFrom(spans, pos, at, |text|, ms), at, |whole|) == Apply(text, union, pos, |text|)
    && |union| == |spans| + |ms|
  }

  function PastSpan(s: Span, pos: nat, at: nat): nat
    requires pos <= s.start
  {
    at + (s.start - pos) + |SECRET_REDACTED|
  }

  lemma SpanIsNext(text: Bytes, union: seq<Span>, spans: seq<Span>, ms: seq<Span>, pos: nat, whole: Bytes, at: nat)
    requires HalfWay(text, union, spans, ms, pos, whole, at) && union != [] && union[0] in spans
    ensures spans != [] && spans[0] == union[0] && pos <= union[0].start && InOrder(ms, union[0].end, |text|)
    ensures HalfWay(text, union[1..], spans[1..], ms, union[0].end, whole, PastSpan(union[0], pos, at))
    ensures PastSpan(union[0], pos, at) <= |whole|
    ensures whole[at..PastSpan(union[0], pos, at)] == text[pos..union[0].start] + SECRET_REDACTED
  {
    var hi, u := |text|, union[0];
    FirstLeads(union, spans, ms, pos, hi);
    hide Joins, Apply;
    ApplyCons(text, spans, pos, hi);
    SliceOfSum(whole, at, text[pos..u.start] + SECRET_REDACTED, Apply(text, spans[1..], u.end, hi));
  }

  lemma SpanFinished(text: Bytes, union: seq<Span>, spans: seq<Span>, ms: seq<Span>, pos: nat, whole: Bytes, at: nat)
    requires HalfWay(text, union, spans, ms, pos, whole, at) && union != [] && spans != [] && spans[0] == union[0]
    requires pos <= union[0].start && InOrder(ms, union[0].end, |text|) && PastSpan(union[0], pos, at) <= |whole|
    requires whole[at..PastSpan(union[0], pos, at)] == text[pos..union[0].start] + SECRET_REDACTED
    requires Finishes(text, union[1..], spans[1..], ms, union[0].end, whole, PastSpan(union[0], pos, at))
    ensures Finishes(text, union, spans, ms, pos, whole, at)
  {
    hide Joins, InOrder, CarriedFrom, Lands, Apply;
    CarriedBehind(spans, pos, at, |text|, ms);
    ApplyCons(text, union, pos, |text|);
    ApplyFrom(whole, CarriedFrom(spans, pos, at, |text|, ms), at, PastSpan(union[0], pos, at), |whole|);
  }

  lemma MatchIsNext(text: Bytes, union: seq<Span>, spans: seq<Span>, ms: seq<Span>, pos: nat, whole: Bytes, at: nat)
    requires HalfWay(text, union, spans, ms, pos, whole, at) && union != [] && union[0] in ms
    ensures ms != [] && ms[0] == union[0] && Within(union[0], pos, |text|) && InOrder(spans, union[0].end, |text|)
    ensures HalfWay(text, union[1..], spans, ms[1..], union[0].end, whole, at + (union[0].end - pos))
    ensures at + (union[0].end - pos) <= |whole|
    ensures whole[at..at + (union[0].end - pos)] == text[pos..union[0].end]
  {
    var hi, u := |text|, union[0];
    JoinsSwap(union, spans, ms);
    FirstLeads(union, ms, spans, pos, hi);
    JoinsSwap(union[1..], ms[1..], spans);
    hide Joins, Apply;
    ApplyFrom(text, spans, pos, u.end, hi);
    SliceOfSum(whole, at, text[pos..u.end], Apply(text, spans, u.end, hi));
  }

  lemma ShorterSlice(whole: Bytes, at: nat, text: Bytes, pos: nat, end: nat, k: nat)
    requires pos <= end <= |text| && at + (end - pos) <= |whole| && k <= end - pos
    requires whole[at..at + (end - pos)] == text[pos..end]
    ensures whole[at..at + k] == text[pos..pos + k]
  {
    assert whole[at..at + (end - pos)][..k] == whole[at..at + k];
    assert text[pos..end][..k] == text[pos..pos + k];
  }

  lemma PrependCarried(whole: Bytes, c: seq<Span>, at: nat, start: nat, end: nat)
    requires at <= start < end <= |whole| && c != [] && c[0] == Span(start, end) && InOrder(c[1..], end, |whole|)
    ensures InOrder(c, at, |whole|)
    ensures Apply(whole, c, at, |whole|) == whole[at..start] + SECRET_REDACTED + Apply(whole, c[1..], end, |whole|)
  {
    assert c == [c[0]] + c[1..];
    forall i | 0 < i < |c| ensures Within(c[i], end, |whole|) {
      assert c[i] == c[1..][i - 1];
    }
    forall i, j | 0 < i < j < |c| ensures c[i].end <= c[j].start {
      assert c[i] == c[1..][i - 1] && c[j] == c[1..][j - 1];
    }
  }

  lemma MatchFinished(text: Bytes, union: seq<Span>, spans: seq<Span>, ms: seq<Span>, pos: nat, whole: Bytes, at: nat)
    requires HalfWay(text, union, spans, ms, pos, whole, at) && union != [] && ms != [] && ms[0] == union[0]
    requires Within(union[0], pos, |text|) && InOrder(spans, union[0].end, |text|)
    requires at + (union[0].end - pos) <= |whole|
    requires whole[at..at + (union[0].end - pos)] == text[pos..union[0].end]
    requires Finishes(text, union[1..], spans, ms[1..], union[0].end, whole, at + (union[0].end - pos))
    ensures Finishes(text, union, spans, ms, pos, whole, at)
  {
    hide Joins, InOrder, CarriedFrom, Lands, Apply;
    var u := union[0];
    CarriedCons(spans, pos, at, |text|, ms);
    ApplyCons(text, union, pos, |text|);
    ShorterSlice(whole, at, text, pos, u.end, u.start - pos);
    PrependCarried(whole, CarriedFrom(spans, pos, at, |text|, ms), at, at + (u.start - pos), at + (u.end - pos));
  }

  lemma FirstIsIn(union: seq<Span>, a: seq<Span>, b: seq<Span>)
    requires union != [] && Joins(union, a, b)
    ensures union[0] in a || union[0] in b
  {
    HeadIn(union);
  }

  /** Rewriting around the spans, and then around the matches as they stand there, is rewriting around all of them. */
  lemma {:induction false} RewriteTwice(text: Bytes, union: seq<Span>, spans: seq<Span>, ms: seq<Span>, pos: nat,
                                        whole: Bytes, at: nat)
    requires HalfWay(text, union, spans, ms, pos, whole, at)
    ensures Finishes(text, union, spans, ms, pos, whole, at)
    decreases union
  {
    if union == [] {
      NothingJoined(union, spans, ms);
      assert whole[at..] == whole[at..|whole|];
    } else {
      FirstIsIn(union, spans, ms);
      hide HalfWay, Finishes;
      if union[0] in spans {
        SpanIsNext(text, union, spans, ms, pos, whole, at);
        RewriteTwice(text, union[1..], spans[1..], ms, union[0].end, whole, PastSpan(union[0], pos, at));
        SpanFinished(text, union, spans, ms, pos, whole, at);
      } else {
        MatchIsNext(text, union, spans, ms, pos, whole, at);
        RewriteTwice(text, union[1..], spans, ms[1..], union[0].end, whole, at + (union[0].end - pos));
        MatchFinished(text, union, spans, ms, pos, whole, at);
      }
    }
  }

  // ---- the pattern loop ----

  lemma PrefixHolds(r: Redactor, text: Bytes, i: nat)
    requires Valid(r) && i <= |r.patterns|
    ensures AllValid(r.fold, r.patterns[..i])
    ensures NoneEmpty(r.patterns, text) ==> NoneEmpty(r.patterns[..i], text)
    ensures MatchesApart(r.patterns, text) ==> MatchesApart(r.patterns[..i], text)
  {
    forall k | 0 <= k < i ensures ValidPattern(r.fold, r.patterns[..i][k]) {
      assert ValidPattern(r.fold, r.patterns[k]);
    }
  }

  /** What findSpans would find with the first i patterns alone. */
  ghost function Earlier(r: Redactor, text: Bytes, i: nat): (spans: seq<Span>)
    requires Valid(r) && i <= |r.patterns|
    ensures InOrder(spans, 0, |text|)
  {
    PrefixHolds(r, text, i);
    SpansInOrder(r.fold, r.patterns[..i], text);
    SortAndMerge(ScanAll(r.patterns[..i], text))
  }

  /** The text as the first i patterns leave it. */
  ghost function Left(r: Redactor, text: Bytes, i: nat): Bytes
    requires Valid(r) && i <= |r.patterns|
  {
    Apply(text, Earlier(r, text, i), 0, |text|)
  }

  /** The markers neither complete nor destroy a match: each pattern finds in what the ones before it left just what it
      finds in the text itself. */
  ghost predicate MarkersInert(r: Redactor, text: Bytes)
    requires Valid(r)
  {
    forall i :: 0 <= i < |r.patterns| ==>
                  r.patterns[i].find(Left(r, text, i)) ==
                  Carried(Earlier(r, text, i), |text|, r.patterns[i].find(text))
  }

  lemma EarlierIsSorted(r: Redactor, text: Bytes, i: nat)
    requires Valid(r) && i <= |r.patterns| && NoneEmpty(r.patterns, text) && MatchesApart(r.patterns, text)
    ensures Earlier(r, text, i) == Sorting.Sort(SortsBefore, ScanAll(r.patterns[..i], text))
    ensures forall m :: m in Earlier(r, text, i) <==> m in ScanAll(r.patterns[..i], text)
  {
    hide Valid, NoneEmpty, MatchesApart, AllValid, AllApart, ScanAll;
    var raw := ScanAll(r.patterns[..i], text);
    PrefixHolds(r, text, i);
    ScanIsApart(r.fold, r.patterns[..i], text);
    SortInOrder(raw, |text|);
    InOrderIsSorted(Sorting.Sort(SortsBefore, raw), 0, |text|);
    Sorting.SortMembers(SortsBefore, raw);
  }

  lemma {:induction false} ScanSnoc(patterns: seq<Pattern>, text: Bytes, i: nat)
    requires i < |patterns|
    ensures ScanAll(patterns[..i + 1], text) == ScanAll(patterns[..i], text) + NonEmptyMatches(patterns[i], text)
  {
    if i > 0 {
      ScanSnoc(patterns[1..], text, i - 1);
      assert patterns[..i + 1][1..] == patterns[1..][..i] && patterns[..i][1..] == patterns[1..][..i - 1];
      Sorting.Reassociate(NonEmptyMatches(patterns[0], text), ScanAll(patterns[..i][1..], text),
                          NonEmptyMatches(patterns[i], text));
    } else {
      assert patterns[..1] == [patterns[0]] && patterns[..0] == [] && [patterns[0]][1..] == [];
      assert ScanAll([], text) == [];
    }
  }

  lemma MatchesOf(r: Redactor, text: Bytes, i: nat)
    requires Valid(r) && i < |r.patterns| && NoneEmpty(r.patterns, text)
    ensures NonEmptyMatches(r.patterns[i], text) == r.patterns[i].find(text)
    ensures InOrder(r.patterns[i].find(text), 0, |text|)
  {
    assert ValidPattern(r.fold, r.patterns[i]);
    MatchesOfOne(r.fold, r.patterns[i], text);
  }

  lemma NotApartFromItself(m: Span)
    requires NonEmpty(m)
    ensures !Apart(m, m)
  {
  }

  lemma EarlierApart(r: Redactor, text: Bytes, i: nat, m: Span)
    requires Valid(r) && i < |r.patterns| && NoneEmpty(r.patterns, text) && MatchesApart(r.patterns, text)
    requires m in Earlier(r, text, i)
    ensures m !in r.patterns[i].find(text)
  {
    hide Valid, Earlier;
    EarlierIsSorted(r, text, i);
    ScanMembers(r.patterns[..i], text, m);
    var k :| 0 <= k < |r.patterns[..i]| && m in r.patterns[..i][k].find(text);
    assert r.patterns[..i][k] == r.patterns[k];
    NotApartFromItself(m);
  }

  lemma EarlierJoins(r: Redactor, text: Bytes, i: nat)
    requires Valid(r) && i < |r.patterns| && NoneEmpty(r.patterns, text) && MatchesApart(r.patterns, text)
    ensures Joins(Earlier(r, text, i + 1), Earlier(r, text, i), r.patterns[i].find(text))
  {
    hide Valid, NoneEmpty, MatchesApart, Earlier, ScanAll, NonEmptyMatches;
    EarlierIsSorted(r, text, i);
    EarlierIsSorted(r, text, i + 1);
    ScanSnoc(r.patterns, text, i);
    MatchesOf(r, text, i);
    forall m | m in Earlier(r, text, i) ensures m !in r.patterns[i].find(text) {
      EarlierApart(r, text, i, m);
    }
  }

  lemma CarriedIsCarriedFrom(spans: seq<Span>, hi: nat, ms: seq<Span>)
    requires InOrder(spans, 0, hi) && InOrder(ms, 0, hi)
    ensures Carried(spans, hi, ms) == CarriedFrom(spans, 0, 0, hi, ms)
  {
  }

  lemma CarriedLength(spans: seq<Span>, hi: nat, ms: seq<Span>)
    requires InOrder(spans, 0, hi)
    ensures |Carried(spans, hi, ms)| == |ms|
  {
  }

  /** One more pattern: the text it leaves, and its count. */
  lemma OneMorePattern(r: Redactor, text: Bytes, i: nat)
    requires Valid(r) && i < |r.patterns|
    requires NoneEmpty(r.patterns, text) && MatchesApart(r.patterns, text) && MarkersInert(r, text)
    ensures var found := r.patterns[i].find(Left(r, text, i));
            && InOrder(found, 0, |Left(r, text, i)|)
            && Left(r, text, i + 1) == Apply(Left(r, text, i), found, 0, |Left(r, text, i)|)
            && |found| == |r.patterns[i].find(text)|
            && |Earlier(r, text, i + 1)| == |Earlier(r, text, i)| + |found|
  {
    hide Valid, NoneEmpty, MatchesApart, Earlier, Carried, CarriedFrom, Lands, InOrder, Joins, Apply;
    var ms, whole := r.patterns[i].find(text), Left(r, text, i);
    MatchesOf(r, text, i);
    EarlierJoins(r, text, i);
    CarriedIsCarriedFrom(Earlier(r, text, i), |text|, ms);
    assert whole[0..] == whole;
    RewriteTwice(text, Earlier(r, text, i + 1), Earlier(r, text, i), ms, 0, whole, 0);
    CarriedLength(Earlier(r, text, i), |text|, ms);
  }

  lemma RewriteStep(r: Redactor, text: Bytes, lowered: Bytes, i: nat)
    requires Valid(r) && i < |r.patterns| && InOrder(r.patterns[i].find(text), 0, |text|)
    requires Passes(r, i, lowered) || r.patterns[i].find(text) == []
    ensures var ms := r.patterns[i].find(text);
            var rest := RewriteFrom(r, Apply(text, ms, 0, |text|), lowered, i + 1);
            RewriteFrom(r, text, lowered, i) == Counted(rest.value, |ms| + rest.count)
  {
    hide Valid, Passes, InOrder;
    var ms := r.patterns[i].find(text);
    if ms == [] {
      assert text[0..|text|] == text;
    } else {
      ReplaceIsApply(text, ms, 0);
    }
  }

  lemma {:induction false} RewriteGoesOn(r: Redactor, text: Bytes, i: nat)
    requires Valid(r) && i <= |r.patterns|
    requires NoneEmpty(r.patterns, text) && MatchesApart(r.patterns, text) && MarkersInert(r, text)
    ensures |Earlier(r, text, i)| <= |Earlier(r, text, |r.patterns|)|
    ensures RewriteFrom(r, Left(r, text, i), FoldNorm(r.fold, text), i) ==
            Counted(Left(r, text, |r.patterns|), |Earlier(r, text, |r.patterns|)| - |Earlier(r, text, i)|)
    decreases |r.patterns| - i
  {
    hide Valid, NoneEmpty, MatchesApart, MarkersInert, Earlier, Left, InOrder, Passes;
    if i < |r.patterns| {
      MatchPasses(r, i, text);
      OneMorePattern(r, text, i);
      hide RewriteFrom;
      RewriteStep(r, Left(r, text, i), FoldNorm(r.fold, text), i);
      RewriteGoesOn(r, text, i + 1);
    }
  }

  lemma EarlierAll(r: Redactor, text: Bytes)
    requires Valid(r)
    ensures Earlier(r, text, |r.patterns|) == FindSpans(r, text)
    ensures Earlier(r, text, 0) == [] && Left(r, text, 0) == text
  {
    hide Valid;
    PrefilterIsInvisible(r, text);
    assert r.patterns[..|r.patterns|] == r.patterns && r.patterns[..0] == [];
    assert ScanAll([], text) == [] && Sorting.Sort(SortsBefore, []) == [];
    assert text[0..|text|] == text;
  }

  /** Where the matches of all patterns lie apart in the visible text, and the markers neither complete nor destroy any,
      a string is redacted as its visible bytes are, and counted so. */
  lemma StringIsRedactedAsBytes(r: Redactor, data: Bytes)
    requires Valid(r)
    requires var visible := StripInvisible(data);
             NoneEmpty(r.patterns, visible) && MatchesApart(r.patterns, visible) && MarkersInert(r, visible)
    ensures var visible := StripInvisible(data);
            RedactString(r, data) ==
            if FindSpans(r, visible) == [] then Counted(data, 0)
            else Counted(Redacted(r, visible), |FindSpans(r, visible)|)
  {
    hide Valid, NoneEmpty, MatchesApart, MarkersInert, Earlier, FindSpans, RewriteFrom;
    EarlierAll(r, StripInvisible(data));
    RewriteGoesOn(r, StripInvisible(data), 0);
  }

  /** The text with the matches of pattern k replaced. */
  ghost function WithoutMatches(r: Redactor, text: Bytes, k: nat): Bytes
    requires Valid(r) && k < |r.patterns| && NoneEmpty(r.patterns, text)
  {
    MatchesOf(r, text, k);
    Apply(text, r.patterns[k].find(text), 0, |text|)
  }

  /** Only pattern k matches the text, and none of those after it what it leaves. */
  ghost predicate OnlyMatches(r: Redactor, text: Bytes, k: nat)
    requires Valid(r) && k < |r.patterns| && NoneEmpty(r.patterns, text)
  {
    && r.patterns[k].find(text) != []
    && (forall j :: 0 <= j < |r.patterns| && j != k ==> r.patterns[j].find(text) == [])
    && forall j :: k < j < |r.patterns| ==> r.patterns[j].find(WithoutMatches(r, text, k)) == []
  }

  lemma {:induction false} ScanOfOne(patterns: seq<Pattern>, text: Bytes, k: nat, i: nat)
    requires k < |patterns| && i <= |patterns|
    requires forall j :: 0 <= j < |patterns| && j != k ==> patterns[j].find(text) == []
    ensures ScanAll(patterns[..i], text) == if i <= k then [] else NonEmptyMatches(patterns[k], text)
    decreases i
  {
    if i > 0 {
      ScanSnoc(patterns, text, i - 1);
      ScanOfOne(patterns, text, k, i - 1);
    }
  }

  lemma EarlierOfOne(r: Redactor, text: Bytes, k: nat, i: nat)
    requires Valid(r) && k < |r.patterns| && i <= |r.patterns| && NoneEmpty(r.patterns, text)
    requires forall j :: 0 <= j < |r.patterns| && j != k ==> r.patterns[j].find(text) == []
    ensures Earlier(r, text, i) == if i <= k then [] else r.patterns[k].find(text)
  {
    MatchesOf(r, text, k);
    ScanOfOne(r.patterns, text, k, i);
    InOrderIsSorted(r.patterns[k].find(text), 0, |text|);
  }

  lemma LeftByOne(r: Redactor, text: Bytes, k: nat, i: nat)
    requires Valid(r) && k < |r.patterns| && NoneEmpty(r.patterns, text) && OnlyMatches(r, text, k)
    requires i <= |r.patterns|
    ensures Earlier(r, text, i) == if i <= k then [] else r.patterns[k].find(text)
    ensures Left(r, text, i) == if i <= k then text else WithoutMatches(r, text, k)
  {
    hide Valid, NoneEmpty, Earlier;
    EarlierOfOne(r, text, k, i);
    assert text[0..|text|] == text;
  }

  lemma NothingCarries(hi: nat, ms: seq<Span>)
    ensures Carried([], hi, ms) == ms
  {
  }

  lemma OneIsInert(r: Redactor, text: Bytes, k: nat)
    requires Valid(r) && k < |r.patterns| && NoneEmpty(r.patterns, text) && OnlyMatches(r, text, k)
    ensures MatchesApart(r.patterns, text) && MarkersInert(r, text)
  {
    hide Valid, NoneEmpty, Earlier, Left, Carried, WithoutMatches;
    forall i | 0 <= i < |r.patterns|
      ensures r.patterns[i].find(Left(r, text, i)) == Carried(Earlier(r, text, i), |text|, r.patterns[i].find(text))
    {
      LeftByOne(r, text, k, i);
      if i <= k {
        NothingCarries(|text|, r.patterns[i].find(text));
      } else {
        CarriedLength(Earlier(r, text, i), |text|, r.patterns[i].find(text));
      }
    }
  }

  /** In particular, if only pattern k matches what is visible and none of those after it what it leaves, then all its
      matches are replaced and counted, whichever of the patterns it is. */
  lemma OnePatternMatches(r: Redactor, data: Bytes, k: nat)
    requires Valid(r) && k < |r.patterns|
    requires NoneEmpty(r.patterns, StripInvisible(data)) && OnlyMatches(r, StripInvisible(data), k)
    ensures var visible := StripInvisible(data);
            RedactString(r, data) == Counted(WithoutMatches(r, visible, k), |r.patterns[k].find(visible)|)
  {
    hide Valid, NoneEmpty, FindSpans, Earlier, MarkersInert, MatchesApart;
    var visible := StripInvisible(data);
    OneIsInert(r, visible, k);
    EarlierAll(r, visible);
    LeftByOne(r, visible, k, |r.patterns|);
    StringIsRedactedAsBytes(r, data);
  }

  // ---- invisible runes ----

  /** The code points that are looked through: zero-width spaces and joiners, the word joiner, the byte order mark, and
      the controls for writing direction. */
  const INVISIBLE: seq<Rune> :=
    [0x200B, 0x200C, 0x200D, 0x2060, 0xFEFF, 0x202A, 0x202B, 0x202C, 0x202D, 0x202E, 0x2066, 0x2067, 0x2068, 0x2069]

  function WithoutInvisible(rs: seq<Rune>): seq<Rune> {
    if rs == [] then [] else (if rs[0] in INVISIBLE then [] else [rs[0]]) + WithoutInvisible(rs[1..])
  }

  lemma InvisibleAreListed(r: Rune)
    ensures IsInvisible(r) <==> r in INVISIBLE
  {
    assert |INVISIBLE| == 14;
    if r in INVISIBLE {
      var i :| 0 <= i < 14 && INVISIBLE[i] == r;
    }
    if IsInvisible(r) {
      assert INVISIBLE[0] == 0x200B && INVISIBLE[1] == 0x200C && INVISIBLE[2] == 0x200D && INVISIBLE[3] == 0x2060;
      assert INVISIBLE[4] == 0xFEFF && INVISIBLE[5] == 0x202A && INVISIBLE[6] == 0x202B && INVISIBLE[7] == 0x202C;
      assert INVISIBLE[8] == 0x202D && INVISIBLE[9] == 0x202E && INVISIBLE[10] == 0x2066 && INVISIBLE[11] == 0x2067;
      assert INVISIBLE[12] == 0x2068 && INVISIBLE[13] == 0x2069;
    }
  }

  lemma {:induction false} FilterIsWithout(rs: seq<Rune>)
    ensures Sorting.Filter(IsVisible, rs) == WithoutInvisible(rs)
    ensures AllScalar(rs) ==> AllScalar(WithoutInvisible(rs))
  {
    if rs != [] {
      hide IsInvisible;
      InvisibleAreListed(rs[0]);
      FilterIsWithout(rs[1..]);
    }
  }

  /** What is matched against has the runes of the text outside that list, in order. */
  lemma VisibleRunes(s: Bytes)
    ensures Runes(StripInvisible(s)) == WithoutInvisible(Runes(s))
  {
    FilterIsWithout(Runes(s));
    if HasInvisible(s) {
      RunesOfEncode(WithoutInvisible(Runes(s)));
    } else {
      FilterAll(IsVisible, Runes(s));
    }
  }

  lemma StripIs(s: Bytes, plain: Bytes)
    requires WellFormedUtf8(s) && WellFormedUtf8(plain) && WithoutInvisible(Runes(s)) == Runes(plain)
    ensures StripInvisible(s) == plain
  {
    hide WellFormedUtf8, Runes, Encode;
    FilterIsWithout(Runes(s));
    EncodeOfRunes(s);
    EncodeOfRunes(plain);
    if !HasInvisible(s) {
      FilterAll(IsVisible, Runes(s));
    }
  }

  /** Invisible runes put in anywhere hide nothing: well-formed text is redacted exactly if it is without them, and
      then to the same. */
  lemma InvisibleHidesNothing(r: Redactor, s: Bytes, plain: Bytes)
    requires Valid(r) && WellFormedUtf8(s) && WellFormedUtf8(plain)
    requires WithoutInvisible(Runes(s)) == Runes(plain)
    requires WithoutInvisible(Runes(plain)) == Runes(plain)
    ensures RedactString(r, s).count == RedactString(r, plain).count
    ensures RedactString(r, s).count > 0 ==> RedactString(r, s) == RedactString(r, plain)
  {
    hide Valid, RewriteFrom;
    StripIs(s, plain);
    StripIs(plain, plain);
  }

  // ---- patterns that are skipped ----

  function Silenced(p: Pattern): Pattern { p.(find := (data: Bytes) => []) }

  function Without(r: Redactor, k: nat): Redactor
    requires k < |r.patterns|
  {
    r.(patterns := r.patterns[k := Silenced(r.patterns[k])])
  }

  lemma WithoutIsValid(r: Redactor, k: nat)
    requires Valid(r) && k < |r.patterns|
    ensures Valid(Without(r, k))
  {
    var s := Without(r, k);
    assert ValidPattern(r.fold, r.patterns[k]);
    forall i | 0 <= i < |s.patterns| ensures ValidPattern(s.fold, s.patterns[i]) {
      assert ValidPattern(r.fold, r.patterns[i]);
    }
  }

  lemma {:induction false} SkippedIsNotRun(r: Redactor, k: nat, text: Bytes, lowered: Bytes, i: nat)
    requires Valid(r) && k < |r.patterns| && Valid(Without(r, k)) && !Passes(r, k, lowered)
    ensures RewriteFrom(r, text, lowered, i) == RewriteFrom(Without(r, k), text, lowered, i)
    decreases |r.patterns| - i
  {
    hide Valid, Possible;
    if i < |r.patterns| {
      var matches := r.patterns[i].find(text);
      MatchesFit(r, i, text);
      SkippedIsNotRun(r, k, text, lowered, i + 1);
      if Passes(r, i, lowered) && |matches| > 0 {
        SkippedIsNotRun(r, k, Replace(text, matches, 0), lowered, i + 1);
      }
    }
  }

  /** A pattern of which a trigger set does not occur in the visible text is not run, not even on what the patterns
      before it leave: the string is redacted as if it found nothing. */
  lemma SkippedPatternIsNotRun(r: Redactor, data: Bytes, k: nat, t: LitSet)
    requires Valid(r) && r.prefilter.Some? && k < |r.patterns|
    requires WellFormed(r.patterns[k].tree) && t in Triggers(r.fold, r.patterns[k].tree)
    requires forall x, i: nat :: x in t ==> !OccursAt(FoldNorm(r.fold, StripInvisible(data)), i, x)
    ensures Valid(Without(r, k)) && RedactString(r, data) == RedactString(Without(r, k), data)
  {
    var visible := StripInvisible(data);
    var lowered := FoldNorm(r.fold, visible);
    WithoutIsValid(r, k);
    assert !Passes(r, k, lowered) by {
      var j :| 0 <= j < |r.prefilter.value[k]| && r.prefilter.value[k][j] == t;
      assert !Hits(lowered, t);
    }
    hide Valid, RewriteFrom, Passes;
    SkippedIsNotRun(r, k, visible, lowered, 0);
  }
}
