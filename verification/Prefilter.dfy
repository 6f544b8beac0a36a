/**
 The prefilter (pkg/bouncer/prefilter.go): literals that every match of a pattern must contain,
 worked out from its syntax tree. A Go nil slice and an empty one are both [] here; the code never
 builds an empty slice that it tells apart from nil.
 */
module Prefilter {
  import opened Utf8
  import opened Folding
  import opened Regex
  import Sorting

  type LitSet = seq<Bytes>

  const MAX_PURE_LITS := 32
  const MAX_TRIGGER_SETS := 2

  function Prepend(p: Bytes, lits: LitSet): LitSet {
    if lits == [] then [] else [p + lits[0]] + Prepend(p, lits[1..])
  }

  /** Every string of a followed by every string of b. */
  function Cross(a: LitSet, b: LitSet): LitSet {
    if a == [] then [] else Prepend(a[0], b) + Cross(a[1..], b)
  }

  lemma {:induction false} PrependMembers(p: Bytes, lits: LitSet, x: Bytes)
    ensures x in Prepend(p, lits) <==> exists b :: b in lits && x == p + b
    ensures |Prepend(p, lits)| == |lits|
  {
    if lits != [] {
      PrependMembers(p, lits[1..], x);
      assert lits == [lits[0]] + lits[1..];
    }
  }

  lemma {:induction false} CrossContains(a: LitSet, b: LitSet, p: Bytes, q: Bytes)
    requires p in a && q in b
    ensures p + q in Cross(a, b)
  {
    if p == a[0] {
      PrependMembers(p, b, p + q);
    } else {
      assert a == [a[0]] + a[1..];
      CrossContains(a[1..], b, p, q);
    }
  }

  lemma {:induction false} CrossOnly(a: LitSet, b: LitSet, x: Bytes) returns (p: Bytes, q: Bytes)
    requires x in Cross(a, b)
    ensures p in a && q in b && x == p + q
  {
    PrependMembers(a[0], b, x);
    if x in Prepend(a[0], b) {
      p := a[0];
      q :| q in b && x == p + q;
    } else {
      p, q := CrossOnly(a[1..], b, x);
      assert a == [a[0]] + a[1..];
    }
  }

  lemma {:induction false} CrossSize(a: LitSet, b: LitSet)
    ensures |Cross(a, b)| == |a| * |b|
  {
    if a != [] {
      PrependMembers(a[0], b, []);
      CrossSize(a[1..], b);
      assert |a| * |b| == (|a| - 1) * |b| + |b|;
    }
  }

  ghost function RangeLits(sf: Rune -> Rune, lo: int, hi: Rune): LitSet
    requires 0 <= lo
    decreases hi - lo
  {
    if lo > hi then [] else [EncodeRune(MinFold(sf, lo))] + RangeLits(sf, lo + 1, hi)
  }

  ghost function ClassLits(sf: Rune -> Rune, ranges: seq<Range>, acc: LitSet): LitSet {
    if ranges == [] then acc
    else
      var span := ranges[0].hi as int - ranges[0].lo as int;
      if span >= MAX_PURE_LITS || |acc| + span + 1 > MAX_PURE_LITS then []
      else ClassLits(sf, ranges[1..], acc + RangeLits(sf, ranges[0].lo, ranges[0].hi))
  }

  /** pureLits: all the fold-normalized strings a node can match, or [] for "not known". */
  ghost function PureLits(sf: Rune -> Rune, re: Regex): LitSet
    decreases re, 0
  {
    match re
    case EmptyMatch => [[]]
    case Literal(runes, _) => [FoldNorm(sf, Encode(runes))]
    case CharClass(ranges) => ClassLits(sf, ranges, [])
    case Capture(sub) => PureLits(sf, sub)
    case Alternate(subs) => AlternateLits(sf, subs, [])
    case Concat(subs) => ConcatLits(sf, subs, [[]])
    case _ => []
  }

  ghost function AlternateLits(sf: Rune -> Rune, subs: seq<Regex>, acc: LitSet): LitSet
    decreases subs, 0
  {
    if subs == [] then acc
    else
      var lits := PureLits(sf, subs[0]);
      if lits == [] || |acc| + |lits| > MAX_PURE_LITS then []
      else AlternateLits(sf, subs[1..], acc + lits)
  }

  ghost function ConcatLits(sf: Rune -> Rune, subs: seq<Regex>, acc: LitSet): LitSet
    decreases subs, 0
  {
    if subs == [] then acc
    else
      var lits := PureLits(sf, subs[0]);
      if lits == [] || |acc| * |lits| > MAX_PURE_LITS then []
      else ConcatLits(sf, subs[1..], Cross(acc, lits))
  }

  function Min(a: nat, b: nat): nat { if a < b then a else b }

  /** minLitLen; the Go code indexes set[0], so an empty set would crash it. */
  function MinLitLen(lits: LitSet): nat
    requires lits != []
  {
    if |lits| == 1 then |lits[0]| else Min(|lits[0]|, MinLitLen(lits[1..]))
  }

  /** The set of greatest minLitLen, the first of those that tie. */
  function BestFrom(best: LitSet, sets: seq<LitSet>): LitSet
    requires best != [] && forall i :: 0 <= i < |sets| ==> sets[i] != []
    decreases sets
  {
    if sets == [] then best
    else BestFrom(if MinLitLen(sets[0]) > MinLitLen(best) then sets[0] else best, sets[1..])
  }

  function Flushed(run: LitSet): seq<LitSet> {
    if |run| > 0 && !(|run| == 1 && run[0] == []) then [run] else []
  }

  lemma {:induction false} BestIsOne(best: LitSet, sets: seq<LitSet>)
    requires best != [] && forall i :: 0 <= i < |sets| ==> sets[i] != []
    ensures BestFrom(best, sets) == best || BestFrom(best, sets) in sets
    ensures BestFrom(best, sets) != []
    decreases sets
  {
    if sets != [] {
      BestIsOne(if MinLitLen(sets[0]) > MinLitLen(best) then sets[0] else best, sets[1..]);
    }
  }

  /** requiredSets: sets of which every match contains at least one literal each. */
  ghost function RequiredSets(sf: Rune -> Rune, re: Regex): (sets: seq<LitSet>)
    requires WellFormed(re)
    ensures forall i :: 0 <= i < |sets| ==> sets[i] != []
    decreases re, 0
  {
    var lits := PureLits(sf, re);
    if lits != [] then [lits]
    else
      match re
      case Capture(sub) => RequiredSets(sf, sub)
      case Concat(subs) => ConcatSets(sf, subs, [[]])
      case Plus(sub) => RequiredSets(sf, sub)
      case Repeat(sub, min, _) => if min >= 1 then RequiredSets(sf, sub) else []
      case Alternate(subs) => AlternateSets(sf, subs, [])
      case _ => []
  }

  ghost function ConcatSets(sf: Rune -> Rune, subs: seq<Regex>, run: LitSet): (sets: seq<LitSet>)
    requires AllWellFormed(subs)
    ensures forall i :: 0 <= i < |sets| ==> sets[i] != []
    decreases subs, 0
  {
    if subs == [] then Flushed(run)
    else
      var lits := PureLits(sf, subs[0]);
      if lits != [] && |run| * |lits| <= MAX_PURE_LITS then ConcatSets(sf, subs[1..], Cross(run, lits))
      else
        Flushed(run) + (if lits != [] then [lits] else RequiredSets(sf, subs[0])) + ConcatSets(sf, subs[1..], [[]])
  }

  ghost function AlternateSets(sf: Rune -> Rune, subs: seq<Regex>, union: LitSet): (sets: seq<LitSet>)
    requires AllWellFormed(subs) && (union != [] || subs != [])
    ensures forall i :: 0 <= i < |sets| ==> sets[i] != []
    decreases subs, 0
  {
    if subs == [] then [union]
    else
      var branch := RequiredSets(sf, subs[0]);
      if branch == [] then []
      else
        BestIsOne(branch[0], branch[1..]);
        AlternateSets(sf, subs[1..], union + BestFrom(branch[0], branch[1..]))
  }

  // ---- what the sets guarantee ----

  predicate Hits(text: Bytes, lits: LitSet) {
    exists i :: 0 <= i < |lits| && Contains(text, lits[i])
  }

  /** (*prefilter).possible for one pattern: no set goes without a hit. */
  predicate Possible(text: Bytes, sets: seq<LitSet>) {
    forall i :: 0 <= i < |sets| ==> Hits(text, sets[i])
  }

  lemma HitsIn(text: Bytes, pre: Bytes, post: Bytes, lits: LitSet)
    requires Hits(text, lits)
    ensures Hits(pre + text + post, lits)
  {
    var i :| 0 <= i < |lits| && Contains(text, lits[i]);
    ContainsIn(text, pre, post, lits[i]);
  }

  lemma PossibleIn(text: Bytes, pre: Bytes, post: Bytes, sets: seq<LitSet>)
    requires Possible(text, sets)
    ensures Possible(pre + text + post, sets)
  {
    forall i | 0 <= i < |sets| ensures Hits(pre + text + post, sets[i]) {
      HitsIn(text, pre, post, sets[i]);
    }
  }

  lemma MemberHits(text: Bytes, lits: LitSet)
    requires text in lits
    ensures Hits(text, lits)
  {
    var i :| 0 <= i < |lits| && lits[i] == text;
    assert OccursAt(text, 0, lits[i]);
  }

  lemma {:induction false} RangeLitsMember(sf: Rune -> Rune, lo: int, hi: Rune, x: Bytes)
    requires 0 <= lo
    ensures x in RangeLits(sf, lo, hi) <==> exists r: Rune :: lo <= r <= hi && x == EncodeRune(MinFold(sf, r))
    decreases hi - lo
  {
    if lo <= hi {
      RangeLitsMember(sf, lo + 1, hi, x);
    }
  }

  lemma {:induction false} ClassLitsMember(sf: Rune -> Rune, ranges: seq<Range>, acc: LitSet, x: Bytes)
    requires ClassLits(sf, ranges, acc) != []
    ensures x in ClassLits(sf, ranges, acc) <==>
              x in acc || exists r: Rune :: InClass(ranges, r) && x == EncodeRune(MinFold(sf, r))
  {
    if ranges != [] {
      RangeLitsMember(sf, ranges[0].lo, ranges[0].hi, x);
      ClassLitsMember(sf, ranges[1..], acc + RangeLits(sf, ranges[0].lo, ranges[0].hi), x);
      forall r: Rune ensures InClass(ranges, r) <==> ranges[0].lo <= r <= ranges[0].hi || InClass(ranges[1..], r) {
        if InClass(ranges, r) && !(ranges[0].lo <= r <= ranges[0].hi) {
          var i :| 0 <= i < |ranges| && ranges[i].lo <= r <= ranges[i].hi;
          assert ranges[1..][i - 1] == ranges[i];
        }
        if InClass(ranges[1..], r) {
          var i :| 0 <= i < |ranges[1..]| && ranges[1..][i].lo <= r <= ranges[1..][i].hi;
          assert ranges[i + 1] == ranges[1..][i];
        }
      }
    }
  }

  lemma FoldBytesOne(sf: Rune -> Rune, r: Rune)
    ensures FoldBytes(sf, [r]) == EncodeRune(MinFold(sf, r))
  {
    assert FoldRunes(sf, [r]) == [MinFold(sf, r)];
    assert Encode([MinFold(sf, r)]) == EncodeRune(MinFold(sf, r)) + Encode([]);
  }

  lemma LiteralFolds(sf: Rune -> Rune, runes: seq<Rune>, w: seq<Rune>)
    requires IsSimpleFold(sf) && AllScalar(w) && |w| == |runes|
    requires forall i :: 0 <= i < |w| ==> w[i] == runes[i] || InOrbit(sf, runes[i], w[i])
    ensures AllScalar(runes)
    ensures FoldBytes(sf, w) == FoldNorm(sf, Encode(runes))
  {
    forall i | 0 <= i < |w| ensures Scalar(runes[i]) && MinFold(sf, runes[i]) == MinFold(sf, w[i]) {
      if w[i] != runes[i] {
        MinFoldClassifies(sf, runes[i], w[i]);
        OrbitSymmetric(sf, runes[i], w[i]);
        var n: nat :| Iter(sf, w[i], n) == runes[i];
        OrbitScalar(sf, w[i], n);
      }
    }
    RunesOfEncode(runes);
    assert FoldRunes(sf, w) == FoldRunes(sf, runes);
  }

  /** The part of a concatenation's match that its first child takes, and the rest. */
  lemma SplitMatch(sf: Rune -> Rune, subs: seq<Regex>, w: seq<Rune>) returns (a: seq<Rune>, b: seq<Rune>)
    requires subs != [] && MatchesAll(sf, subs, w) && AllScalar(w)
    ensures w == a + b && AllScalar(a) && AllScalar(b)
    ensures Matches(sf, subs[0], a) && MatchesAll(sf, subs[1..], b)
  {
    var i :| 0 <= i <= |w| && Matches(sf, subs[0], w[..i]) && MatchesAll(sf, subs[1..], w[i..]);
    a, b := w[..i], w[i..];
  }

  lemma CrossFolds(sf: Rune -> Rune, run: LitSet, lits: LitSet, u: seq<Rune>, a: seq<Rune>)
    requires FoldBytes(sf, u) in run && FoldBytes(sf, a) in lits
    ensures FoldBytes(sf, u + a) in Cross(run, lits)
  {
    FoldBytesConcat(sf, u, a);
    CrossContains(run, lits, FoldBytes(sf, u), FoldBytes(sf, a));
  }

  /** What a match folds to is one of the node's pure literals. */
  lemma {:induction false} PureLitsComplete(sf: Rune -> Rune, re: Regex, w: seq<Rune>)
    requires IsSimpleFold(sf) && AllScalar(w)
    requires Matches(sf, re, w) && PureLits(sf, re) != []
    ensures FoldBytes(sf, w) in PureLits(sf, re)
    decreases re, 0
  {
    match re
    case EmptyMatch =>
    case Literal(runes, _) => LiteralFolds(sf, runes, w);
    case CharClass(ranges) =>
      FoldBytesOne(sf, w[0]);
      assert w == [w[0]];
      ClassLitsMember(sf, ranges, [], FoldBytes(sf, w));
    case Capture(sub) => PureLitsComplete(sf, sub, w);
    case Alternate(subs) => AlternateLitsComplete(sf, subs, [], w);
    case Concat(subs) =>
      ConcatLitsComplete(sf, subs, [[]], [], w);
      assert [] + w == w;
    case _ =>
  }

  lemma {:induction false} AlternateLitsComplete(sf: Rune -> Rune, subs: seq<Regex>, acc: LitSet, w: seq<Rune>)
    requires IsSimpleFold(sf) && AllScalar(w)
    requires AlternateLits(sf, subs, acc) != []
    requires FoldBytes(sf, w) in acc || exists i :: 0 <= i < |subs| && Matches(sf, subs[i], w)
    ensures FoldBytes(sf, w) in AlternateLits(sf, subs, acc)
    decreases subs, 0
  {
    if subs != [] {
      var lits := PureLits(sf, subs[0]);
      if FoldBytes(sf, w) !in acc {
        var i :| 0 <= i < |subs| && Matches(sf, subs[i], w);
        if i == 0 {
          PureLitsComplete(sf, subs[0], w);
        } else {
          assert subs[1..][i - 1] == subs[i];
        }
      }
      AlternateLitsComplete(sf, subs[1..], acc + lits, w);
    }
  }

  lemma {:induction false} ConcatLitsComplete(sf: Rune -> Rune, subs: seq<Regex>, acc: LitSet, u: seq<Rune>,
          v: seq<Rune>)
    requires IsSimpleFold(sf) && AllScalar(v)
    requires FoldBytes(sf, u) in acc && MatchesAll(sf, subs, v)
    requires ConcatLits(sf, subs, acc) != []
    ensures FoldBytes(sf, u + v) in ConcatLits(sf, subs, acc)
    decreases subs, 0
  {
    if subs == [] {
      assert u + v == u;
    } else {
      var a, b := SplitMatch(sf, subs, v);
      PureLitsComplete(sf, subs[0], a);
      CrossFolds(sf, acc, PureLits(sf, subs[0]), u, a);
      ConcatLitsComplete(sf, subs[1..], Cross(acc, PureLits(sf, subs[0])), u + a, b);
      Sorting.Reassociate(u, a, b);
    }
  }

  lemma SplitRepeat(sf: Rune -> Rune, re: Regex, n: nat, w: seq<Rune>) returns (a: seq<Rune>, b: seq<Rune>)
    requires n >= 1 && Repeats(sf, re, n, w) && AllScalar(w)
    ensures w == a + b && AllScalar(a) && Matches(sf, re, a)
  {
    var i :| 0 <= i <= |w| && Matches(sf, re, w[..i]) && Repeats(sf, re, n - 1, w[i..]);
    a, b := w[..i], w[i..];
  }

  lemma FlushedSound(sf: Rune -> Rune, run: LitSet, u: seq<Rune>)
    requires FoldBytes(sf, u) in run
    ensures Possible(FoldBytes(sf, u), Flushed(run))
  {
    MemberHits(FoldBytes(sf, u), run);
  }

  lemma FoldBytesEmpty(sf: Rune -> Rune)
    ensures FoldBytes(sf, []) == []
  {
  }

  ghost function ChildSets(sf: Rune -> Rune, re: Regex): seq<LitSet>
    requires WellFormed(re)
  {
    if PureLits(sf, re) != [] then [PureLits(sf, re)] else RequiredSets(sf, re)
  }

  lemma ConcatSetsStep(sf: Rune -> Rune, subs: seq<Regex>, run: LitSet)
    requires AllWellFormed(subs) && subs != []
    ensures ConcatSets(sf, subs, run) ==
            if PureLits(sf, subs[0]) != [] && |run| * |PureLits(sf, subs[0])| <= MAX_PURE_LITS
            then ConcatSets(sf, subs[1..], Cross(run, PureLits(sf, subs[0])))
            else Flushed(run) + ChildSets(sf, subs[0]) + ConcatSets(sf, subs[1..], [[]])
  {
  }

  lemma PossiblePair(a: Bytes, b: Bytes, as': seq<LitSet>, bs: seq<LitSet>)
    requires Possible(a, as') && Possible(b, bs)
    ensures Possible(a + b, as' + bs)
  {
    PossibleIn(a, [], b, as');
    assert [] + a + b == a + b;
    PossibleIn(b, a, [], bs);
    assert a + b + [] == a + b;
  }

  lemma PossibleThree(sf: Rune -> Rune, u: seq<Rune>, a: seq<Rune>, b: seq<Rune>,
                      us: seq<LitSet>, as': seq<LitSet>, bs: seq<LitSet>)
    requires Possible(FoldBytes(sf, u), us) && Possible(FoldBytes(sf, a), as') && Possible(FoldBytes(sf, b), bs)
    ensures Possible(FoldBytes(sf, u + (a + b)), us + as' + bs)
  {
    FoldBytesConcat(sf, a, b);
    FoldBytesConcat(sf, u, a + b);
    PossiblePair(FoldBytes(sf, a), FoldBytes(sf, b), as', bs);
    PossiblePair(FoldBytes(sf, u), FoldBytes(sf, a + b), us, as' + bs);
    Sorting.Reassociate(us, as', bs);
  }

  lemma HitsEither(text: Bytes, a: LitSet, b: LitSet)
    requires Hits(text, a) || Hits(text, b)
    ensures Hits(text, a + b)
  {
    if Hits(text, a) {
      var i :| 0 <= i < |a| && Contains(text, a[i]);
      assert (a + b)[i] == a[i];
    } else {
      var i :| 0 <= i < |b| && Contains(text, b[i]);
      assert (a + b)[|a| + i] == b[i];
    }
  }

  /** Every match contains a literal of each required set. */
  lemma {:induction false} RequiredSetsSound(sf: Rune -> Rune, re: Regex, w: seq<Rune>)
    requires IsSimpleFold(sf) && AllScalar(w) && WellFormed(re)
    requires Matches(sf, re, w)
    ensures Possible(FoldBytes(sf, w), RequiredSets(sf, re))
    decreases re, 0
  {
    if PureLits(sf, re) != [] {
      PureLitsComplete(sf, re, w);
      MemberHits(FoldBytes(sf, w), PureLits(sf, re));
    } else {
      match re
      case Capture(sub) => RequiredSetsSound(sf, sub, w);
      case Concat(subs) =>
        ConcatSetsSound(sf, subs, [[]], [], w);
        assert [] + w == w;
      case Plus(sub) =>
        var n: nat :| n >= 1 && Repeats(sf, sub, n, w);
        FirstRepeatSound(sf, sub, n, w);
      case Repeat(sub, min, max) =>
        if min >= 1 {
          var n: nat :| min <= n && (max < 0 || n <= max) && Repeats(sf, sub, n, w);
          FirstRepeatSound(sf, sub, n, w);
        }
      case Alternate(subs) => AlternateSetsSound(sf, subs, [], w);
      case _ =>
    }
  }

  lemma {:induction false} FirstRepeatSound(sf: Rune -> Rune, re: Regex, n: nat, w: seq<Rune>)
    requires IsSimpleFold(sf) && AllScalar(w) && WellFormed(re)
    requires n >= 1 && Repeats(sf, re, n, w)
    ensures Possible(FoldBytes(sf, w), RequiredSets(sf, re))
    decreases re, 1
  {
    var a, b := SplitRepeat(sf, re, n, w);
    RequiredSetsSound(sf, re, a);
    FoldBytesConcat(sf, a, b);
    PossibleIn(FoldBytes(sf, a), [], FoldBytes(sf, b), RequiredSets(sf, re));
    assert [] + FoldBytes(sf, a) == FoldBytes(sf, a);
  }

  /** u is what the current run of literal children has matched, v what is left to match. */
  lemma {:induction false} ConcatSetsSound(sf: Rune -> Rune, subs: seq<Regex>, run: LitSet, u: seq<Rune>, v: seq<Rune>)
    requires IsSimpleFold(sf) && AllScalar(v) && AllWellFormed(subs)
    requires FoldBytes(sf, u) in run && MatchesAll(sf, subs, v)
    ensures Possible(FoldBytes(sf, u + v), ConcatSets(sf, subs, run))
    decreases subs, 0
  {
    hide IsSimpleFold, AllScalar, FoldBytes, Matches, Possible, PureLits, RequiredSets, Cross;
    FlushedSound(sf, run, u);
    if subs == [] {
      assert u + v == u;
    } else {
      ConcatSetsStep(sf, subs, run);
      var lits := PureLits(sf, subs[0]);
      var a, b := SplitMatch(sf, subs, v);
      if lits != [] && |run| * |lits| <= MAX_PURE_LITS {
        PureLitsComplete(sf, subs[0], a);
        CrossFolds(sf, run, lits, u, a);
        ConcatSetsSound(sf, subs[1..], Cross(run, lits), u + a, b);
        Sorting.Reassociate(u, a, b);
      } else {
        ChildSetsSound(sf, subs[0], a);
        FoldBytesEmpty(sf);
        ConcatSetsSound(sf, subs[1..], [[]], [], b);
        assert [] + b == b;
        PossibleThree(sf, u, a, b, Flushed(run), ChildSets(sf, subs[0]), ConcatSets(sf, subs[1..], [[]]));
      }
    }
  }

  lemma {:induction false} ChildSetsSound(sf: Rune -> Rune, re: Regex, w: seq<Rune>)
    requires IsSimpleFold(sf) && AllScalar(w) && WellFormed(re)
    requires Matches(sf, re, w)
    ensures Possible(FoldBytes(sf, w), ChildSets(sf, re))
    decreases re, 1
  {
    RequiredSetsSound(sf, re, w);
  }

  lemma {:induction false} AlternateSetsSound(sf: Rune -> Rune, subs: seq<Regex>, union: LitSet, w: seq<Rune>)
    requires IsSimpleFold(sf) && AllScalar(w) && AllWellFormed(subs) && (union != [] || subs != [])
    requires Hits(FoldBytes(sf, w), union) || exists i :: 0 <= i < |subs| && Matches(sf, subs[i], w)
    ensures Possible(FoldBytes(sf, w), AlternateSets(sf, subs, union))
    decreases subs, 0
  {
    var text := FoldBytes(sf, w);
    if subs != [] && RequiredSets(sf, subs[0]) != [] {
      var branch := RequiredSets(sf, subs[0]);
      var best := BestFrom(branch[0], branch[1..]);
      BestIsOne(branch[0], branch[1..]);
      if !Hits(text, union) {
        var i :| 0 <= i < |subs| && Matches(sf, subs[i], w);
        if i == 0 {
          RequiredSetsSound(sf, subs[0], w);
          assert branch == [branch[0]] + branch[1..];
          assert best in branch;
          HitsEither(text, union, best);
        } else {
          assert subs[1..][i - 1] == subs[i];
        }
      } else {
        HitsEither(text, union, best);
      }
      AlternateSetsSound(sf, subs[1..], union + best, w);
    }
  }

  // ---- pureLits is exact, and bounded ----

  /** No pure literal is superfluous: each is the fold of some match. */
  lemma {:induction false} PureLitsTight(sf: Rune -> Rune, re: Regex, lit: Bytes) returns (w: seq<Rune>)
    requires ScalarOnly(re) && lit in PureLits(sf, re)
    ensures AllScalar(w) && Matches(sf, re, w) && FoldBytes(sf, w) == lit
    decreases re, 0
  {
    match re
    case EmptyMatch => w := [];
    case Literal(runes, _) =>
      w := runes;
      RunesOfEncode(runes);
    case CharClass(ranges) =>
      ClassLitsMember(sf, ranges, [], lit);
      var r: Rune :| InClass(ranges, r) && lit == EncodeRune(MinFold(sf, r));
      w := [r];
      FoldBytesOne(sf, r);
    case Capture(sub) => w := PureLitsTight(sf, sub, lit);
    case Alternate(subs) => w := AlternateLitsTight(sf, subs, [], lit);
    case Concat(subs) =>
      var p;
      p, w := ConcatLitsTight(sf, subs, [[]], lit);
      assert p + FoldBytes(sf, w) == FoldBytes(sf, w);
  }

  lemma {:induction false} AlternateLitsTight(sf: Rune -> Rune, subs: seq<Regex>, acc: LitSet, lit: Bytes)
    returns (w: seq<Rune>)
    requires AllScalarOnly(subs) && lit in AlternateLits(sf, subs, acc)
    ensures lit in acc || (&& AllScalar(w) && FoldBytes(sf, w) == lit
                           && exists i :: 0 <= i < |subs| && Matches(sf, subs[i], w))
    decreases subs, 0
  {
    if subs == [] {
      w := [];
    } else {
      var lits := PureLits(sf, subs[0]);
      w := AlternateLitsTight(sf, subs[1..], acc + lits, lit);
      if lit in lits {
        w := PureLitsTight(sf, subs[0], lit);
      } else if lit !in acc {
        var i :| 0 <= i < |subs[1..]| && Matches(sf, subs[1..][i], w);
        assert Matches(sf, subs[i + 1], w);
      }
    }
  }

  /** lit is a string p that was there before the children, followed by the fold of a match of them. */
  lemma {:induction false} ConcatLitsTight(sf: Rune -> Rune, subs: seq<Regex>, acc: LitSet, lit: Bytes)
    returns (p: Bytes, w: seq<Rune>)
    requires AllScalarOnly(subs) && lit in ConcatLits(sf, subs, acc)
    ensures p in acc && AllScalar(w) && MatchesAll(sf, subs, w) && lit == p + FoldBytes(sf, w)
    decreases subs, 0
  {
    if subs == [] {
      p, w := lit, [];
    } else {
      var lits := PureLits(sf, subs[0]);
      var pq, b := ConcatLitsTight(sf, subs[1..], Cross(acc, lits), lit);
      var q;
      p, q := CrossOnly(acc, lits, pq);
      var a := PureLitsTight(sf, subs[0], q);
      w := a + b;
      FoldBytesConcat(sf, a, b);
      Sorting.Reassociate(p, q, FoldBytes(sf, b));
      assert w[..|a|] == a && w[|a|..] == b;
    }
  }

  lemma {:induction false} RangeLitsSize(sf: Rune -> Rune, lo: int, hi: Rune)
    requires 0 <= lo
    ensures |RangeLits(sf, lo, hi)| == if lo > hi then 0 else hi - lo + 1
    decreases hi - lo
  {
    if lo <= hi {
      RangeLitsSize(sf, lo + 1, hi);
    }
  }

  lemma {:induction false} ClassLitsSize(sf: Rune -> Rune, ranges: seq<Range>, acc: LitSet)
    requires |acc| <= MAX_PURE_LITS
    ensures |ClassLits(sf, ranges, acc)| <= MAX_PURE_LITS
  {
    if ranges != [] {
      var span := ranges[0].hi as int - ranges[0].lo as int;
      if span < MAX_PURE_LITS && |acc| + span + 1 <= MAX_PURE_LITS {
        RangeLitsSize(sf, ranges[0].lo, ranges[0].hi);
        ClassLitsSize(sf, ranges[1..], acc + RangeLits(sf, ranges[0].lo, ranges[0].hi));
      }
    }
  }

  lemma {:induction false} AlternateLitsSize(sf: Rune -> Rune, subs: seq<Regex>, acc: LitSet)
    requires |acc| <= MAX_PURE_LITS
    ensures |AlternateLits(sf, subs, acc)| <= MAX_PURE_LITS
    decreases subs, 0
  {
    if subs != [] && |acc| + |PureLits(sf, subs[0])| <= MAX_PURE_LITS {
      AlternateLitsSize(sf, subs[1..], acc + PureLits(sf, subs[0]));
    }
  }

  lemma {:induction false} ConcatLitsSize(sf: Rune -> Rune, subs: seq<Regex>, acc: LitSet)
    requires |acc| <= MAX_PURE_LITS
    ensures |ConcatLits(sf, subs, acc)| <= MAX_PURE_LITS
    decreases subs, 0
  {
    if subs != [] && |acc| * |PureLits(sf, subs[0])| <= MAX_PURE_LITS {
      CrossSize(acc, PureLits(sf, subs[0]));
      ConcatLitsSize(sf, subs[1..], Cross(acc, PureLits(sf, subs[0])));
    }
  }

  /** The cross products never grow past maxPureLits. */
  lemma {:induction false} PureLitsSize(sf: Rune -> Rune, re: Regex)
    ensures |PureLits(sf, re)| <= MAX_PURE_LITS
    decreases re, 0
  {
    match re
    case CharClass(ranges) => ClassLitsSize(sf, ranges, []);
    case Capture(sub) => PureLitsSize(sf, sub);
    case Alternate(subs) => AlternateLitsSize(sf, subs, []);
    case Concat(subs) => ConcatLitsSize(sf, subs, [[]]);
    case _ =>
  }

  // ---- choosing the triggers ----

  function Selectivity(lits: LitSet): nat {
    if lits == [] then 0 else MinLitLen(lits)
  }

  predicate Strong(lits: LitSet) { Selectivity(lits) >= 2 }

  predicate AtLeastAsSelective(a: LitSet, b: LitSet) { Selectivity(a) >= Selectivity(b) }

  /** extractTriggers, once the required sets are known. */
  function SelectTriggers(sets: seq<LitSet>): seq<LitSet> {
    var kept := Sorting.Sort(AtLeastAsSelective, Sorting.Filter(Strong, sets));
    if |kept| > MAX_TRIGGER_SETS then kept[..MAX_TRIGGER_SETS] else kept
  }

  /** At most two strong required sets, and none passed over is more selective than one kept. */
  lemma TriggersAreMostSelective(sets: seq<LitSet>)
    ensures |SelectTriggers(sets)| <= MAX_TRIGGER_SETS
    ensures forall t :: t in SelectTriggers(sets) ==> t in sets && Strong(t)
    ensures forall s, t :: s in sets && Strong(s) && s !in SelectTriggers(sets) && t in SelectTriggers(sets) ==>
                             Selectivity(t) >= Selectivity(s)
    ensures forall s :: s in sets && Strong(s) && s !in SelectTriggers(sets) ==>
                          |SelectTriggers(sets)| == MAX_TRIGGER_SETS
  {
    var strong := Sorting.Filter(Strong, sets);
    var sorted := Sorting.Sort(AtLeastAsSelective, strong);
    Sorting.FilterMembers(Strong, sets);
    Sorting.SortMembers(AtLeastAsSelective, strong);
    Sorting.SortSorts(AtLeastAsSelective, strong);
    forall s, t | s in sets && Strong(s) && s !in SelectTriggers(sets) && t in SelectTriggers(sets)
      ensures Selectivity(t) >= Selectivity(s)
    {
      var i :| 0 <= i < |sorted| && sorted[i] == s;
      var j :| 0 <= j < |SelectTriggers(sets)| && sorted[j] == t;
      assert i >= MAX_TRIGGER_SETS > j;
      assert AtLeastAsSelective(sorted[j], sorted[i]);
    }
  }

  ghost function Triggers(sf: Rune -> Rune, re: Regex): seq<LitSet>
    requires WellFormed(re)
  {
    SelectTriggers(RequiredSets(sf, re))
  }

  lemma TriggersSound(sf: Rune -> Rune, re: Regex, w: seq<Rune>)
    requires IsSimpleFold(sf) && AllScalar(w) && WellFormed(re) && Matches(sf, re, w)
    ensures Possible(FoldBytes(sf, w), Triggers(sf, re))
  {
    RequiredSetsSound(sf, re, w);
    TriggersAreMostSelective(RequiredSets(sf, re));
    forall i | 0 <= i < |Triggers(sf, re)| ensures Hits(FoldBytes(sf, w), Triggers(sf, re)[i]) {
      assert Triggers(sf, re)[i] in RequiredSets(sf, re);
    }
  }

  /** data[start..end] stands on rune boundaries of data. */
  ghost predicate Aligned(data: Bytes, start: nat, end: nat)
    requires start <= end <= |data|
  {
    Runes(data) == Runes(data[..start]) + Runes(data[start..end]) + Runes(data[end..])
  }

  /** A scan that the prefilter skips would have matched nothing, whatever bytes it was given. */
  lemma SkippedScansMatchNothing(sf: Rune -> Rune, re: Regex, data: Bytes, start: nat, end: nat)
    requires IsSimpleFold(sf) && WellFormed(re)
    requires start <= end <= |data| && Aligned(data, start, end)
    requires Matches(sf, re, Runes(data[start..end]))
    ensures Possible(FoldNorm(sf, data), Triggers(sf, re))
  {
    var a, w, b := Runes(data[..start]), Runes(data[start..end]), Runes(data[end..]);
    TriggersSound(sf, re, w);
    FoldBytesConcat(sf, a + w, b);
    FoldBytesConcat(sf, a, w);
    PossibleIn(FoldBytes(sf, w), FoldBytes(sf, a), FoldBytes(sf, b), Triggers(sf, re));
  }

  // ---- the loops ----

  /** The inner loop of a cross product. */
  method AppendRow(next: LitSet, p: Bytes, b: LitSet) returns (out: LitSet)
    ensures out == next + Prepend(p, b)
  {
    out := next;
    for j := 0 to |b|
      invariant out + Prepend(p, b[j..]) == next + Prepend(p, b)
    {
      assert b[j..][1..] == b[j + 1..];
      out := out + [p + b[j]];
    }
  }

  lemma CrossStep(a: LitSet, b: LitSet, i: nat)
    requires i < |a|
    ensures Cross(a[i..], b) == Prepend(a[i], b) + Cross(a[i + 1..], b)
  {
    assert a[i..][0] == a[i] && a[i..][1..] == a[i + 1..];
  }

  lemma CrossEnd(b: LitSet)
    ensures Cross([], b) == []
  {
  }

  method ComputeCross(a: LitSet, b: LitSet) returns (next: LitSet)
    ensures next == Cross(a, b)
  {
    hide Cross, Prepend;
    next := [];
    assert a[0..] == a && [] + Cross(a, b) == Cross(a, b);
    for i := 0 to |a|
      invariant next + Cross(a[i..], b) == Cross(a, b)
    {
      CrossStep(a, b, i);
      Sorting.Reassociate(next, Prepend(a[i], b), Cross(a[i + 1..], b));
      next := AppendRow(next, a[i], b);
    }
    CrossEnd(b);
    assert a[|a|..] == [] && next + [] == next;
  }

  /** The inner loop over one range of a class. */
  method AppendRange(sf: Rune -> Rune, before: LitSet, range: Range) returns (out: LitSet)
    requires FiniteOrbits(sf)
    ensures out == before + RangeLits(sf, range.lo, range.hi)
  {
    out := before;
    var r: int := range.lo;
    while r <= range.hi
      invariant range.lo <= r
      invariant out + RangeLits(sf, r, range.hi) == before + RangeLits(sf, range.lo, range.hi)
      decreases range.hi - r
    {
      var m := ComputeMinFold(sf, r);
      Sorting.Reassociate(out, [EncodeRune(m)], RangeLits(sf, r + 1, range.hi));
      out := out + [EncodeRune(m)];
      r := r + 1;
    }
    assert out + [] == out;
  }

  method ComputeClassLits(sf: Rune -> Rune, ranges: seq<Range>) returns (out: LitSet)
    requires FiniteOrbits(sf)
    ensures out == ClassLits(sf, ranges, [])
  {
    out := [];
    for i := 0 to |ranges|
      invariant ClassLits(sf, ranges[i..], out) == ClassLits(sf, ranges, [])
    {
      var lo: int, hi: int := ranges[i].lo, ranges[i].hi;
      if hi - lo >= MAX_PURE_LITS || |out| + (hi - lo) + 1 > MAX_PURE_LITS {
        return [];
      }
      out := AppendRange(sf, out, ranges[i]);
      assert ranges[i..][0] == ranges[i] && ranges[i..][1..] == ranges[i + 1..];
    }
  }

  method ComputePureLits(sf: Rune -> Rune, re: Regex) returns (out: LitSet)
    requires IsSimpleFold(sf)
    ensures out == PureLits(sf, re)
    decreases re, 1
  {
    match re
    case EmptyMatch => out := [[]];
    case Literal(runes, _) =>
      var lit := ComputeFoldNorm(sf, Encode(runes));
      out := [lit];
    case CharClass(ranges) => out := ComputeClassLits(sf, ranges);
    case Capture(sub) => out := ComputePureLits(sf, sub);
    case Alternate(subs) => out := ComputeAlternateLits(sf, subs);
    case Concat(subs) => out := ComputeConcatLits(sf, subs);
    case _ => out := [];
  }

  method ComputeAlternateLits(sf: Rune -> Rune, subs: seq<Regex>) returns (out: LitSet)
    requires IsSimpleFold(sf)
    ensures out == AlternateLits(sf, subs, [])
    decreases subs, 0
  {
    hide IsSimpleFold, PureLits;
    out := [];
    assert subs[0..] == subs;
    for i := 0 to |subs|
      invariant AlternateLits(sf, subs[i..], out) == AlternateLits(sf, subs, [])
    {
      assert subs[i..][0] == subs[i] && subs[i..][1..] == subs[i + 1..];
      var lits := ComputePureLits(sf, subs[i]);
      if lits == [] || |out| + |lits| > MAX_PURE_LITS {
        return [];
      }
      out := out + lits;
    }
  }

  method ComputeConcatLits(sf: Rune -> Rune, subs: seq<Regex>) returns (out: LitSet)
    requires IsSimpleFold(sf)
    ensures out == ConcatLits(sf, subs, [[]])
    decreases subs, 0
  {
    hide IsSimpleFold, PureLits, Cross;
    out := [[]];
    assert subs[0..] == subs;
    for i := 0 to |subs|
      invariant ConcatLits(sf, subs[i..], out) == ConcatLits(sf, subs, [[]])
    {
      assert subs[i..][0] == subs[i] && subs[i..][1..] == subs[i + 1..];
      var lits := ComputePureLits(sf, subs[i]);
      if lits == [] || |out| * |lits| > MAX_PURE_LITS {
        return [];
      }
      out := ComputeCross(out, lits);
    }
  }

  method ComputeMinLitLen(lits: LitSet) returns (m: nat)
    requires lits != []
    ensures m == MinLitLen(lits)
  {
    m := |lits[0]|;
    for i := 1 to |lits|
      invariant MinLitLen(lits) == if i == |lits| then m else Min(m, MinLitLen(lits[i..]))
    {
      if |lits[i]| < m {
        m := |lits[i]|;
      }
    }
  }

  method ComputeBest(branch: seq<LitSet>) returns (best: LitSet)
    requires branch != [] && forall i :: 0 <= i < |branch| ==> branch[i] != []
    ensures best == BestFrom(branch[0], branch[1..])
  {
    best := branch[0];
    for i := 1 to |branch|
      invariant best != [] && BestFrom(best, branch[i..]) == BestFrom(branch[0], branch[1..])
    {
      var m := ComputeMinLitLen(branch[i]);
      var n := ComputeMinLitLen(best);
      if m > n {
        best := branch[i];
      }
    }
  }

  lemma {:induction false} WellFormedAt(subs: seq<Regex>, i: nat)
    requires AllWellFormed(subs) && i <= |subs|
    ensures AllWellFormed(subs[i..])
    ensures i < |subs| ==> WellFormed(subs[i])
  {
    if i > 0 {
      WellFormedAt(subs[1..], i - 1);
      assert subs[1..][i - 1..] == subs[i..];
    }
  }

  method ComputeRequiredSets(sf: Rune -> Rune, re: Regex) returns (out: seq<LitSet>)
    requires IsSimpleFold(sf) && WellFormed(re)
    ensures out == RequiredSets(sf, re)
    decreases re, 0
  {
    var lits := ComputePureLits(sf, re);
    if lits != [] {
      return [lits];
    }
    match re
    case Capture(sub) => out := ComputeRequiredSets(sf, sub);
    case Concat(subs) => out := ComputeConcatSets(sf, subs);
    case Plus(sub) => out := ComputeRequiredSets(sf, sub);
    case Repeat(sub, min, _) =>
      if min >= 1 {
        out := ComputeRequiredSets(sf, sub);
      } else {
        out := [];
      }
    case Alternate(subs) => out := ComputeAlternateSets(sf, subs);
    case _ => out := [];
  }

  /** The OpConcat case: maximal runs of literal children are multiplied out, the others recursed into. */
  method ComputeConcatSets(sf: Rune -> Rune, subs: seq<Regex>) returns (out: seq<LitSet>)
    requires IsSimpleFold(sf) && AllWellFormed(subs)
    ensures out == ConcatSets(sf, subs, [[]])
    decreases subs, 0
  {
    out := [];
    var run: LitSet := [[]];
    assert subs[0..] == subs;
    for i := 0 to |subs|
      invariant AllWellFormed(subs[i..])
      invariant out + ConcatSets(sf, subs[i..], run) == ConcatSets(sf, subs, [[]])
    {
      WellFormedAt(subs, i);
      assert subs[i..][1..] == subs[i + 1..];
      ghost var rest := ConcatSets(sf, subs[i + 1..], [[]]);
      var lits := ComputePureLits(sf, subs[i]);
      if lits != [] && |run| * |lits| <= MAX_PURE_LITS {
        run := ComputeCross(run, lits);
      } else {
        var child: seq<LitSet>;
        if lits != [] {
          child := [lits];
        } else {
          child := ComputeRequiredSets(sf, subs[i]);
        }
        Sorting.Reassociate(out, Flushed(run) + child, rest);
        Sorting.Reassociate(out, Flushed(run), child);
        out := out + Flushed(run) + child;
        run := [[]];
      }
    }
    out := out + Flushed(run);
  }

  method ComputeAlternateSets(sf: Rune -> Rune, subs: seq<Regex>) returns (out: seq<LitSet>)
    requires IsSimpleFold(sf) && AllWellFormed(subs) && subs != []
    ensures out == AlternateSets(sf, subs, [])
    decreases subs, 0
  {
    var union: LitSet := [];
    assert subs[0..] == subs;
    for i := 0 to |subs|
      invariant AllWellFormed(subs[i..]) && (union != [] || i < |subs|)
      invariant AlternateSets(sf, subs[i..], union) == AlternateSets(sf, subs, [])
    {
      WellFormedAt(subs, i);
      assert subs[i..][1..] == subs[i + 1..];
      var branch := ComputeRequiredSets(sf, subs[i]);
      if |branch| == 0 {
        return [];
      }
      var best := ComputeBest(branch);
      BestIsOne(branch[0], branch[1..]);
      union := union + best;
    }
    out := [union];
  }

  /** The weak sets are discarded within the backing array of the slice itself. */
  method KeepStrong(a: array<LitSet>) returns (k: nat)
    requires forall i :: 0 <= i < a.Length ==> a[i] != []
    modifies a
    ensures k <= a.Length && a[..k] == Sorting.Filter(Strong, old(a[..]))
  {
    k := 0;
    ghost var was := a[..];
    for i := 0 to a.Length
      invariant k <= i
      invariant a[i..] == was[i..]
      invariant a[..k] + Sorting.Filter(Strong, was[i..]) == Sorting.Filter(Strong, was)
    {
      assert was[i..][1..] == was[i + 1..] && was[i..][0] == a[i];
      var m := ComputeMinLitLen(a[i]);
      if m >= 2 {
        ghost var kept := a[..k];
        a[k] := a[i];
        assert a[..k + 1] == kept + [was[i]];
        k := k + 1;
      }
    }
  }

  method ComputeTriggers(sf: Rune -> Rune, re: Regex) returns (sets: seq<LitSet>)
    requires IsSimpleFold(sf) && WellFormed(re)
    ensures sets == Triggers(sf, re)
  {
    var required := ComputeRequiredSets(sf, re);
    var a := new LitSet[|required|](i requires 0 <= i < |required| => required[i]);
    assert a[..] == required;
    var k := KeepStrong(a);
    var kept := Sorting.Sort(AtLeastAsSelective, a[..k]);
    if |kept| > MAX_TRIGGER_SETS {
      kept := kept[..MAX_TRIGGER_SETS];
    }
    sets := kept;
  }

  /** possible, and possibleString: nested scans with early exit. */
  method ComputePossible(text: Bytes, sets: seq<LitSet>) returns (possible: bool)
    ensures possible == Possible(text, sets)
  {
    for i := 0 to |sets|
      invariant forall k :: 0 <= k < i ==> Hits(text, sets[k])
    {
      var hit := false;
      for j := 0 to |sets[i]|
        invariant !hit && forall k :: 0 <= k < j ==> !Contains(text, sets[i][k])
      {
        if Contains(text, sets[i][j]) {
          hit := true;
          break;
        }
      }
      if !hit {
        return false;
      }
    }
    return true;
  }
}
