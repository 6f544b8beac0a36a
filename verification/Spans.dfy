/**
 Byte ranges to redact: merging them (the second half of findSpans) and rewriting the text
 around them (applySpans), in pkg/bouncer/redactor.go.
 */
module Spans {
  import opened Utf8
  import Sorting

  /** Half-open: [start, end). */
  datatype Span = Span(start: nat, end: nat)

  /** "[SECRET_REDACTED]" */
  const SECRET_REDACTED: Bytes :=
    [0x5B, 0x53, 0x45, 0x43, 0x52, 0x45, 0x54, 0x5F, 0x52, 0x45, 0x44, 0x41, 0x43, 0x54, 0x45, 0x44, 0x5D]

  predicate Within(s: Span, lo: nat, hi: nat) { lo <= s.start < s.end <= hi }

  /** Non-empty spans between lo and hi, in order, none overlapping the next. */
  predicate InOrder(spans: seq<Span>, lo: nat, hi: nat) {
    && (forall i :: 0 <= i < |spans| ==> Within(spans[i], lo, hi))
    && (forall i, j :: 0 <= i < j < |spans| ==> spans[i].end <= spans[j].start)
  }

  lemma InOrderTail(spans: seq<Span>, lo: nat, hi: nat)
    requires InOrder(spans, lo, hi) && spans != []
    ensures Within(spans[0], lo, hi) && InOrder(spans[1..], spans[0].end, hi)
  {
  }

  lemma InOrderConcat(a: seq<Span>, b: seq<Span>, lo: nat, mid: nat, hi: nat)
    requires InOrder(a, lo, mid) && InOrder(b, mid, hi) && lo <= mid <= hi
    ensures InOrder(a + b, lo, hi)
  {
  }

  predicate Holds(s: Span, p: nat) { s.start <= p < s.end }

  predicate Straddles(s: Span, p: nat) { s.start < p < s.end }

  predicate Covers(spans: seq<Span>, p: nat) {
    exists i :: 0 <= i < |spans| && Holds(spans[i], p)
  }

  // ---- merging ----

  /** The order findSpans sorts by: earlier start first, then longer first. */
  predicate SortsBefore(a: Span, b: Span) {
    a.start < b.start || (a.start == b.start && a.end >= b.end)
  }

  function MergeOnto(last: Span, rest: seq<Span>): seq<Span>
    decreases rest
  {
    if rest == [] then [last]
    else if rest[0].start < last.end then
      MergeOnto(Span(last.start, if rest[0].end > last.end then rest[0].end else last.end), rest[1..])
    else [last] + MergeOnto(rest[0], rest[1..])
  }

  function Merge(spans: seq<Span>): seq<Span> {
    if spans == [] then [] else MergeOnto(spans[0], spans[1..])
  }

  /** What findSpans means by its merged spans: the connected pieces of the union of the ranges. */
  ghost predicate Pieces(merged: seq<Span>, ranges: seq<Span>) {
    // every range lies in one piece
    && (forall r :: r in ranges ==> exists m :: m in merged && m.start <= r.start && r.end <= m.end)
    // a piece holds only what some range holds
    && (forall m, p :: m in merged && Holds(m, p) ==> Covers(ranges, p))
    // and can be cut nowhere: touching at the ends is not enough to be joined
    && (forall m, p :: m in merged && Straddles(m, p) ==> exists r :: r in ranges && Straddles(r, p))
  }

  lemma {:induction false} MergeOntoInOrder(last: Span, rest: seq<Span>, hi: nat)
    requires Within(last, 0, hi)
    requires forall i :: 0 <= i < |rest| ==> Within(rest[i], last.start, hi)
    requires forall i, j :: 0 <= i < j < |rest| ==> SortsBefore(rest[i], rest[j])
    ensures InOrder(MergeOnto(last, rest), last.start, hi)
    decreases rest
  {
    if rest != [] {
      var s, tail := rest[0], rest[1..];
      forall i | 0 <= i < |tail| ensures Within(tail[i], s.start, hi) {
        assert SortsBefore(s, rest[i + 1]);
      }
      if s.start < last.end {
        MergeOntoInOrder(Span(last.start, if s.end > last.end then s.end else last.end), tail, hi);
      } else {
        MergeOntoInOrder(s, tail, hi);
        InOrderConcat([last], MergeOnto(s, tail), last.start, s.start, hi);
      }
    }
  }

  lemma TwoHeads(last: Span, rest: seq<Span>)
    requires rest != []
    ensures [last, rest[0]] + rest[1..] == [last] + rest
  {
    assert [last, rest[0]] == [last] + [rest[0]];
  }

  lemma OnePiece(s: Span)
    ensures Pieces([s], [s] + [])
  {
    assert s in [s] && ([s] + [])[0] == s;
  }

  lemma JoinPieces(last: Span, s: Span, joined: Span, rest: seq<Span>, merged: seq<Span>)
    requires last.start <= s.start < last.end && s.start < s.end
    requires joined == Span(last.start, if s.end > last.end then s.end else last.end)
    requires Pieces(merged, [joined] + rest)
    ensures Pieces(merged, [last, s] + rest)
  {
    var before, after := [joined] + rest, [last, s] + rest;
    assert joined in before && last in after && s in after;
    forall r | r in after ensures exists m :: m in merged && m.start <= r.start && r.end <= m.end {
      var q := if r == last || r == s then joined else r;
      assert q in before;
    }
    forall m, p | m in merged && Holds(m, p) ensures Covers(after, p) {
      var i :| 0 <= i < |before| && Holds(before[i], p);
      if i == 0 {
        assert Holds(after[0], p) || Holds(after[1], p);
      } else {
        assert after[i + 1] == before[i];
      }
    }
    forall m, p | m in merged && Straddles(m, p) ensures exists r :: r in after && Straddles(r, p) {
      var r :| r in before && Straddles(r, p);
      if r == joined {
        assert Straddles(last, p) || Straddles(s, p);
      } else {
        assert r in after;
      }
    }
  }

  lemma AddPiece(last: Span, rest: seq<Span>, merged: seq<Span>)
    requires Pieces(merged, rest)
    ensures Pieces([last] + merged, [last] + rest)
  {
    var before, after := rest, [last] + rest;
    assert after[0] == last && last in [last] + merged;
    forall r | r in after ensures exists m :: m in [last] + merged && m.start <= r.start && r.end <= m.end {
      if r != last {
        var m :| m in merged && m.start <= r.start && r.end <= m.end;
        assert m in [last] + merged;
      }
    }
    forall m, p | m in [last] + merged && Holds(m, p) ensures Covers(after, p) {
      if m == last {
        assert Holds(after[0], p);
      } else {
        var i :| 0 <= i < |rest| && Holds(rest[i], p);
        assert after[i + 1] == rest[i];
      }
    }
    forall m, p | m in [last] + merged && Straddles(m, p) ensures exists r :: r in after && Straddles(r, p) {
      if m != last {
        var r :| r in rest && Straddles(r, p);
        assert r in after;
      }
    }
  }

  lemma {:induction false} MergeOntoPieces(last: Span, rest: seq<Span>)
    requires forall i :: 0 <= i < |rest| ==> last.start <= rest[i].start < rest[i].end
    requires forall i, j :: 0 <= i < j < |rest| ==> SortsBefore(rest[i], rest[j])
    ensures Pieces(MergeOnto(last, rest), [last] + rest)
    decreases rest
  {
    if rest == [] {
      OnePiece(last);
    } else {
      var s, tail := rest[0], rest[1..];
      forall i | 0 <= i < |tail| ensures s.start <= tail[i].start {
        assert SortsBefore(s, rest[i + 1]);
      }
      if s.start < last.end {
        var joined := Span(last.start, if s.end > last.end then s.end else last.end);
        MergeOntoPieces(joined, tail);
        JoinPieces(last, s, joined, tail, MergeOnto(joined, tail));
        TwoHeads(last, rest);
      } else {
        MergeOntoPieces(s, tail);
        assert [s] + tail == rest;
        AddPiece(last, rest, MergeOnto(s, tail));
      }
    }
  }

  /** Sorted non-empty ranges merge into their pieces, in order. */
  lemma MergeGivesPieces(spans: seq<Span>, hi: nat)
    requires forall i :: 0 <= i < |spans| ==> Within(spans[i], 0, hi)
    requires forall i, j :: 0 <= i < j < |spans| ==> SortsBefore(spans[i], spans[j])
    ensures InOrder(Merge(spans), 0, hi) && Pieces(Merge(spans), spans)
  {
    if spans != [] {
      var rest := spans[1..];
      assert spans == [spans[0]] + rest;
      forall i | 0 <= i < |rest| ensures Within(rest[i], spans[0].start, hi) {
        assert SortsBefore(spans[0], spans[i + 1]);
      }
      MergeOntoInOrder(spans[0], spans[1..], hi);
      MergeOntoPieces(spans[0], spans[1..]);
    }
  }

  /** A merged span runs across a point exactly if some range does: ranges that only touch there stay apart. */
  lemma MergedAcross(spans: seq<Span>, hi: nat, p: nat)
    requires forall i :: 0 <= i < |spans| ==> Within(spans[i], 0, hi)
    requires forall i, j :: 0 <= i < j < |spans| ==> SortsBefore(spans[i], spans[j])
    ensures (exists m :: m in Merge(spans) && Straddles(m, p)) <==> (exists r :: r in spans && Straddles(r, p))
  {
    hide Merge;
    MergeGivesPieces(spans, hi);
    if r :| r in spans && Straddles(r, p) {
      var m :| m in Merge(spans) && m.start <= r.start && r.end <= m.end;
      assert Straddles(m, p);
    }
  }

  /** So two matches next to each other leave two markers. */
  lemma TouchingStayApart(a: nat, b: nat, c: nat)
    requires a < b < c
    ensures Merge([Span(a, b), Span(b, c)]) == [Span(a, b), Span(b, c)]
  {
    assert [Span(a, b), Span(b, c)][1..] == [Span(b, c)] && [Span(b, c)][1..] == [];
    assert MergeOnto(Span(b, c), []) == [Span(b, c)];
  }

  /** The merge loop of findSpans: the merged prefix grows inside the array being read. */
  method MergeInPlace(a: array<Span>) returns (m: nat)
    requires a.Length > 0
    modifies a
    ensures m <= a.Length && a[..m] == Merge(old(a[..]))
  {
    ghost var was := a[..];
    m := 1;
    for i := 1 to a.Length
      invariant 1 <= m <= i
      invariant a[i..] == was[i..] // nothing unread has been overwritten
      invariant a[..m - 1] + MergeOnto(a[m - 1], was[i..]) == Merge(was)
    {
      var s := a[i];
      ghost var done := a[..m - 1];
      assert s == was[i] && was[i..][1..] == was[i + 1..];
      if s.start < a[m - 1].end {
        if s.end > a[m - 1].end {
          a[m - 1] := Span(a[m - 1].start, s.end);
        }
        assert a[..m - 1] == done;
      } else {
        ghost var last := a[m - 1];
        a[m] := s;
        m := m + 1;
        assert a[..m - 1] == done + [last];
      }
    }
    assert a[..m] == a[..m - 1] + [a[m - 1]];
  }

  // ---- rewriting ----

  /** data[pos..limit] with a marker in place of each span. */
  function Apply(data: Bytes, spans: seq<Span>, pos: nat, limit: nat): Bytes
    requires pos <= limit <= |data| && InOrder(spans, pos, limit)
    decreases spans
  {
    if spans == [] then data[pos..limit]
    else
      data[pos..spans[0].start] + SECRET_REDACTED + Apply(data, spans[1..], spans[0].end, limit)
  }

  /** applySpans. */
  method ApplySpans(out: Bytes, data: Bytes, spans: seq<Span>, limit: nat) returns (r: Bytes)
    requires limit <= |data| && InOrder(spans, 0, limit)
    ensures r == out + Apply(data, spans, 0, limit)
  {
    r := out;
    var pos: nat := 0;
    for i := 0 to |spans|
      invariant pos <= limit && InOrder(spans[i..], pos, limit)
      invariant r + Apply(data, spans[i..], pos, limit) == out + Apply(data, spans, 0, limit)
    {
      var s := spans[i];
      assert spans[i..][0] == s && spans[i..][1..] == spans[i + 1..];
      InOrderTail(spans[i..], pos, limit);
      ghost var rest := Apply(data, spans[i + 1..], s.end, limit);
      Sorting.Reassociate(r, data[pos..s.start] + SECRET_REDACTED, rest);
      Sorting.Reassociate(r, data[pos..s.start], SECRET_REDACTED);
      r := r + data[pos..s.start];
      r := r + SECRET_REDACTED;
      pos := s.end;
    }
    r := r + data[pos..limit];
  }

  /** The same rewriting read one byte at a time: a marker where a span starts, nothing further inside it,
      and every byte that no span covers. */
  function ByteWalk(data: Bytes, spans: seq<Span>, p: nat, limit: nat): Bytes
    requires p <= limit <= |data|
    decreases limit - p
  {
    if p == limit then []
    else
      (if exists i :: 0 <= i < |spans| && spans[i].start == p then SECRET_REDACTED
       else if Covers(spans, p) then []
       else [data[p]]) + ByteWalk(data, spans, p + 1, limit)
  }

  lemma {:induction false} WalkPlain(data: Bytes, spans: seq<Span>, p: nat, q: nat, limit: nat)
    requires p <= q <= limit <= |data|
    requires forall i :: 0 <= i < |spans| ==>
                           spans[i].start < spans[i].end && (spans[i].end <= p || q <= spans[i].start)
    ensures ByteWalk(data, spans, p, limit) == data[p..q] + ByteWalk(data, spans, q, limit)
    decreases q - p
  {
    if p < q {
      WalkPlain(data, spans, p + 1, q, limit);
      assert data[p..q] == [data[p]] + data[p + 1..q];
    }
  }

  lemma NoneStartsInside(spans: seq<Span>, k: nat, p: nat, lo: nat, hi: nat)
    requires InOrder(spans, lo, hi) && k < |spans| && Straddles(spans[k], p)
    ensures Covers(spans, p)
    ensures forall i :: 0 <= i < |spans| ==> spans[i].start != p
  {
    assert Holds(spans[k], p);
    forall i | 0 <= i < |spans| ensures spans[i].start != p {
      assert i < k ==> spans[i].end <= spans[k].start;
      assert k < i ==> spans[k].end <= spans[i].start;
    }
  }

  lemma {:induction false} WalkInside(data: Bytes, spans: seq<Span>, k: nat, p: nat, limit: nat)
    requires InOrder(spans, 0, limit) && limit <= |data|
    requires k < |spans| && spans[k].start < p <= spans[k].end
    ensures ByteWalk(data, spans, p, limit) == ByteWalk(data, spans, spans[k].end, limit)
    decreases limit - p
  {
    if p < spans[k].end {
      WalkInside(data, spans, k, p + 1, limit);
      NoneStartsInside(spans, k, p, 0, limit);
    }
  }

  lemma WalkSpan(data: Bytes, spans: seq<Span>, k: nat, pos: nat, limit: nat)
    requires limit <= |data| && InOrder(spans, 0, limit) && k < |spans| && pos <= spans[k].start
    requires forall i :: 0 <= i < k ==> spans[i].end <= pos
    ensures ByteWalk(data, spans, pos, limit)
         == data[pos..spans[k].start] + (SECRET_REDACTED + ByteWalk(data, spans, spans[k].end, limit))
  {
    var s := spans[k];
    forall i | 0 <= i < |spans|
      ensures spans[i].start < spans[i].end && (spans[i].end <= pos || s.start <= spans[i].start)
    {
      assert k < i ==> s.end <= spans[i].start;
    }
    WalkPlain(data, spans, pos, s.start, limit);
    WalkInside(data, spans, k, s.start + 1, limit);
  }

  lemma ApplyCons(data: Bytes, spans: seq<Span>, pos: nat, limit: nat)
    requires pos <= limit <= |data| && InOrder(spans, pos, limit) && spans != []
    ensures Apply(data, spans, pos, limit)
         == data[pos..spans[0].start] + SECRET_REDACTED + Apply(data, spans[1..], spans[0].end, limit)
  {
  }

  lemma {:induction false} ApplyFromIsWalk(data: Bytes, spans: seq<Span>, k: nat, pos: nat, limit: nat)
    requires limit <= |data| && InOrder(spans, 0, limit) && k <= |spans| && pos <= limit
    requires forall i :: 0 <= i < k ==> spans[i].end <= pos
    requires forall i :: k <= i < |spans| ==> pos <= spans[i].start
    ensures InOrder(spans[k..], pos, limit)
    ensures Apply(data, spans[k..], pos, limit) == ByteWalk(data, spans, pos, limit)
    decreases |spans| - k
  {
    if k == |spans| {
      WalkPlain(data, spans, pos, limit, limit);
      assert spans[k..] == [];
    } else {
      var s := spans[k];
      ApplyFromIsWalk(data, spans, k + 1, s.end, limit);
      assert spans[k..][1..] == spans[k + 1..] && spans[k..][0] == s;
      hide Apply, ByteWalk;
      WalkSpan(data, spans, k, pos, limit);
      ApplyCons(data, spans[k..], pos, limit);
      Sorting.Reassociate(data[pos..s.start], SECRET_REDACTED, ByteWalk(data, spans, s.end, limit));
    }
  }

  /** applySpans keeps every uncovered byte, in order, and writes one marker per span. */
  lemma ApplyIsByteWalk(data: Bytes, spans: seq<Span>, limit: nat)
    requires limit <= |data| && InOrder(spans, 0, limit)
    ensures Apply(data, spans, 0, limit) == ByteWalk(data, spans, 0, limit)
  {
    ApplyFromIsWalk(data, spans, 0, 0, limit);
    assert spans[0..] == spans;
  }

  // ---- moving and splitting ----

  function Shift(spans: seq<Span>, off: nat): (r: seq<Span>)
    ensures |r| == |spans|
    ensures forall i :: 0 <= i < |spans| ==> r[i] == Span(spans[i].start + off, spans[i].end + off)
  {
    seq(|spans|, i requires 0 <= i < |spans| => Span(spans[i].start + off, spans[i].end + off))
  }

  lemma ShiftInOrder(spans: seq<Span>, lo: nat, hi: nat, off: nat)
    requires InOrder(spans, lo, hi)
    ensures InOrder(Shift(spans, off), off + lo, off + hi)
  {
  }

  lemma ApplyNone(data: Bytes, pos: nat, limit: nat)
    requires pos <= limit <= |data|
    ensures Apply(data, [], pos, limit) == data[pos..limit]
  {
  }

  lemma SliceOfTail(data: Bytes, off: nat, lo: nat, hi: nat)
    requires lo <= hi && off + hi <= |data|
    ensures data[off..][lo..hi] == data[off + lo..off + hi]
  {
  }

  lemma ShiftTail(spans: seq<Span>, off: nat)
    requires spans != []
    ensures Shift(spans, off)[0] == Span(spans[0].start + off, spans[0].end + off)
    ensures Shift(spans, off)[1..] == Shift(spans[1..], off)
  {
  }

  lemma {:induction false} ApplyShifted(data: Bytes, off: nat, spans: seq<Span>, pos: nat, limit: nat)
    requires off + limit <= |data| && pos <= limit && InOrder(spans, pos, limit)
    ensures InOrder(Shift(spans, off), off + pos, off + limit)
    ensures Apply(data, Shift(spans, off), off + pos, off + limit) == Apply(data[off..], spans, pos, limit)
    decreases spans
  {
    hide Apply, InOrder;
    ShiftInOrder(spans, pos, limit, off);
    if spans == [] {
      ApplyNone(data, off + pos, off + limit);
      ApplyNone(data[off..], pos, limit);
      SliceOfTail(data, off, pos, limit);
    } else {
      var s := spans[0];
      InOrderTail(spans, pos, limit);
      ApplyShifted(data, off, spans[1..], s.end, limit);
      ShiftTail(spans, off);
      ApplyCons(data, Shift(spans, off), off + pos, off + limit);
      ApplyCons(data[off..], spans, pos, limit);
      SliceOfTail(data, off, pos, s.start);
    }
  }

  lemma SliceOfSlice(data: Bytes, lo: nat, hi: nat, s: nat, e: nat)
    requires lo <= hi <= |data| && s <= e <= hi - lo
    ensures data[lo..hi][s..e] == data[lo + s..lo + e]
  {
    var a, b := data[lo..hi][s..e], data[lo + s..lo + e];
    forall i | 0 <= i < e - s ensures a[i] == b[i] {
    }
  }

  lemma JoinSlices(data: Bytes, a: nat, b: nat, c: nat)
    requires a <= b <= c <= |data|
    ensures data[a..c] == data[a..b] + data[b..c]
  {
  }

  lemma ApplyFrom(data: Bytes, b: seq<Span>, pos: nat, mid: nat, limit: nat)
    requires pos <= mid <= limit <= |data| && InOrder(b, mid, limit)
    ensures InOrder(b, pos, limit)
    ensures Apply(data, b, pos, limit) == data[pos..mid] + Apply(data, b, mid, limit)
  {
    if b == [] {
      JoinSlices(data, pos, mid, limit);
    } else {
      InOrderTail(b, mid, limit);
      JoinSlices(data, pos, mid, b[0].start);
      Sorting.Reassociate(data[pos..mid], data[mid..b[0].start] + SECRET_REDACTED,
                          Apply(data, b[1..], b[0].end, limit));
      Sorting.Reassociate(data[pos..mid], data[mid..b[0].start], SECRET_REDACTED);
    }
  }

  /** Rewriting up to mid and then on from mid is rewriting it all. */
  lemma {:induction false} ApplySplit(data: Bytes, a: seq<Span>, b: seq<Span>, pos: nat, mid: nat, limit: nat)
    requires pos <= mid <= limit <= |data| && InOrder(a, pos, mid) && InOrder(b, mid, limit)
    ensures InOrder(a + b, pos, limit)
    ensures Apply(data, a + b, pos, limit) == Apply(data, a, pos, mid) + Apply(data, b, mid, limit)
    decreases a
  {
    InOrderConcat(a, b, pos, mid, limit);
    if a == [] {
      assert a + b == b;
      ApplyFrom(data, b, pos, mid, limit);
    } else {
      assert (a + b)[1..] == a[1..] + b && (a + b)[0] == a[0];
      InOrderTail(a, pos, mid);
      ApplySplit(data, a[1..], b, a[0].end, mid, limit);
      Sorting.Reassociate(data[pos..a[0].start] + SECRET_REDACTED,
                          Apply(data, a[1..], a[0].end, mid), Apply(data, b, mid, limit));
    }
  }

  lemma SliceOfPrefix(data: Bytes, n: nat, lo: nat, hi: nat)
    requires lo <= hi <= n <= |data|
    ensures data[..n][lo..hi] == data[lo..hi]
  {
  }

  /** Only data[..limit] is read. */
  lemma {:induction false} ApplyPrefix(data: Bytes, n: nat, spans: seq<Span>, pos: nat, limit: nat)
    requires pos <= limit <= n <= |data| && InOrder(spans, pos, limit)
    ensures Apply(data[..n], spans, pos, limit) == Apply(data, spans, pos, limit)
    decreases spans
  {
    hide InOrder;
    if spans != [] {
      InOrderTail(spans, pos, limit);
      ApplyPrefix(data, n, spans[1..], spans[0].end, limit);
      SliceOfPrefix(data, n, pos, spans[0].start);
    } else {
      SliceOfPrefix(data, n, pos, limit);
    }
  }

  function HeadOr(spans: seq<Span>, other: Span): (s: Span)
    ensures spans != [] ==> s in spans
  {
    if spans == [] then other else spans[0]
  }

  lemma NoMembers(a: seq<Span>, b: seq<Span>)
    requires a == [] && forall s :: s in b ==> s in a
    ensures b == []
  {
    var s := HeadOr(b, Span(0, 0));
  }

  lemma HeadFirst(a: seq<Span>, s: Span, lo: nat, hi: nat)
    requires InOrder(a, lo, hi) && s in a
    ensures s == a[0] || a[0].end <= s.start
  {
    var i :| 0 <= i < |a| && a[i] == s;
  }

  lemma HeadOnce(a: seq<Span>, lo: nat, hi: nat)
    requires InOrder(a, lo, hi) && a != []
    ensures a[0] !in a[1..]
  {
    forall i | 0 <= i < |a[1..]| ensures a[1..][i] != a[0] {
      assert a[0].end <= a[i + 1].start;
    }
  }

  /** Two ordered lists of the same spans are the same list. */
  lemma {:induction false} OrderedUnique(a: seq<Span>, b: seq<Span>, lo: nat, hi: nat)
    requires InOrder(a, lo, hi) && InOrder(b, lo, hi)
    requires forall s :: s in a <==> s in b
    ensures a == b
    decreases a
  {
    if a != [] && b != [] {
      assert a[0] in a && b[0] in b;
      HeadFirst(a, b[0], lo, hi);
      HeadFirst(b, a[0], lo, hi);
      assert a == [a[0]] + a[1..] && b == [b[0]] + b[1..];
      HeadOnce(a, lo, hi);
      HeadOnce(b, lo, hi);
      forall s ensures s in a[1..] <==> s in b[1..] {
        assert s in a <==> s == a[0] || s in a[1..];
        assert s in b <==> s == b[0] || s in b[1..];
      }
      InOrderTail(a, lo, hi);
      InOrderTail(b, lo, hi);
      OrderedUnique(a[1..], b[1..], a[0].end, hi);
    } else {
      if a == [] { NoMembers(a, b); } else { NoMembers(b, a); }
    }
  }
}
