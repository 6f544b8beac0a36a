/**
 What the prefilter is sure to find in a syntax tree. That it never skips a match would hold as well if it found
 nothing; this says when it finds something, and what.
 */
module PrefilterFinds {
  import opened Utf8
  import opened Folding
  import opened Regex
  import opened Prefilter
  import Sorting

  // ---- which nodes are purely literal ----

  function RangeSize(range: Range): nat { if range.hi < range.lo then 0 else range.hi - range.lo + 1 }

  function ClassSize(ranges: seq<Range>): nat {
    if ranges == [] then 0 else RangeSize(ranges[0]) + ClassSize(ranges[1..])
  }

  /** Built from nothing but empty matches, literals and classes. */
  predicate IsLiteral(re: Regex)
    decreases re, 0
  {
    match re
    case EmptyMatch => true
    case Literal(_, _) => true
    case CharClass(ranges) => ClassSize(ranges) > 0
    case Capture(sub) => IsLiteral(sub)
    case Alternate(subs) => subs != [] && AreLiteral(subs)
    case Concat(subs) => AreLiteral(subs)
    case _ => false
  }

  predicate AreLiteral(subs: seq<Regex>)
    decreases subs, 0
  {
    subs == [] || (IsLiteral(subs[0]) && AreLiteral(subs[1..]))
  }

  /** How many strings such a node spells out: one for a literal, whatever its case. */
  function Strings(re: Regex): nat
    decreases re, 0
  {
    match re
    case CharClass(ranges) => ClassSize(ranges)
    case Capture(sub) => Strings(sub)
    case Alternate(subs) => SumOfStrings(subs)
    case Concat(subs) => ProductOfStrings(subs)
    case _ => 1
  }

  function SumOfStrings(subs: seq<Regex>): nat
    decreases subs, 0
  {
    if subs == [] then 0 else Strings(subs[0]) + SumOfStrings(subs[1..])
  }

  function ProductOfStrings(subs: seq<Regex>): nat
    decreases subs, 0
  {
    if subs == [] then 1 else Strings(subs[0]) * ProductOfStrings(subs[1..])
  }

  /** Literal, and of no more strings than are ever multiplied out. */
  predicate Small(re: Regex) { IsLiteral(re) && Strings(re) <= 32 }

  lemma ProductGrows(a: nat, b: nat)
    requires a >= 1 && b >= 1
    ensures a * b >= a && a * b >= b
  {
  }

  lemma {:induction false} LiteralHasStrings(re: Regex)
    requires IsLiteral(re)
    ensures Strings(re) >= 1
    decreases re, 0
  {
    match re
    case Capture(sub) => LiteralHasStrings(sub);
    case Alternate(subs) => LiteralsHaveStrings(subs);
    case Concat(subs) => LiteralsHaveStrings(subs);
    case _ =>
  }

  lemma {:induction false} LiteralsHaveStrings(subs: seq<Regex>)
    requires AreLiteral(subs)
    ensures ProductOfStrings(subs) >= 1 && (subs != [] ==> SumOfStrings(subs) >= 1)
    decreases subs, 0
  {
    if subs != [] {
      LiteralHasStrings(subs[0]);
      LiteralsHaveStrings(subs[1..]);
      ProductGrows(Strings(subs[0]), ProductOfStrings(subs[1..]));
    }
  }

  lemma {:induction false} ClassCount(sf: Rune -> Rune, ranges: seq<Range>, acc: LitSet)
    requires |acc| <= 32
    ensures |ClassLits(sf, ranges, acc)| == if |acc| + ClassSize(ranges) <= 32 then |acc| + ClassSize(ranges) else 0
  {
    if ranges != [] {
      RangeLitsSize(sf, ranges[0].lo, ranges[0].hi);
      if |acc| + RangeSize(ranges[0]) <= 32 {
        ClassCount(sf, ranges[1..], acc + RangeLits(sf, ranges[0].lo, ranges[0].hi));
      }
    }
  }

  lemma MoreThan32(a: nat, s: nat, p: nat)
    requires a >= 1 && s >= 1 && p >= 1
    ensures a * (s * p) == (a * s) * p && a * (s * p) >= a * s >= s
  {
    assert a * (s * p) == (a * s) * p;
    ProductGrows(a, s);
    ProductGrows(a * s, p);
  }

  /** pureLits finds a set exactly for the literal nodes of at most 32 strings, and it has all of them. */
  lemma {:induction false} PureLitsCount(sf: Rune -> Rune, re: Regex)
    ensures |PureLits(sf, re)| == if Small(re) then Strings(re) else 0
    decreases re, 0
  {
    match re
    case CharClass(ranges) => ClassCount(sf, ranges, []);
    case Capture(sub) => PureLitsCount(sf, sub);
    case Alternate(subs) => AlternateCount(sf, subs, []);
    case Concat(subs) => ConcatCount(sf, subs, [[]]);
    case _ =>
  }

  lemma {:induction false} AlternateCount(sf: Rune -> Rune, subs: seq<Regex>, acc: LitSet)
    requires |acc| <= 32
    ensures |AlternateLits(sf, subs, acc)| ==
            if AreLiteral(subs) && |acc| + SumOfStrings(subs) <= 32 then |acc| + SumOfStrings(subs) else 0
    decreases subs, 0
  {
    if subs != [] {
      PureLitsCount(sf, subs[0]);
      if Small(subs[0]) {
        LiteralHasStrings(subs[0]);
        if |acc| + Strings(subs[0]) <= 32 {
          AlternateCount(sf, subs[1..], acc + PureLits(sf, subs[0]));
        }
      }
    }
  }

  lemma {:induction false} ConcatCount(sf: Rune -> Rune, subs: seq<Regex>, acc: LitSet)
    requires 1 <= |acc| <= 32
    ensures |ConcatLits(sf, subs, acc)| ==
            if AreLiteral(subs) && |acc| * ProductOfStrings(subs) <= 32 then |acc| * ProductOfStrings(subs) else 0
    decreases subs, 0
  {
    if subs != [] {
      var s := Strings(subs[0]);
      PureLitsCount(sf, subs[0]);
      if IsLiteral(subs[0]) {
        LiteralHasStrings(subs[0]);
        if AreLiteral(subs[1..]) {
          LiteralsHaveStrings(subs[1..]);
          MoreThan32(|acc|, s, ProductOfStrings(subs[1..]));
        }
        if Small(subs[0]) && |acc| * s <= 32 {
          CrossSize(acc, PureLits(sf, subs[0]));
          ProductGrows(|acc|, s);
          ConcatCount(sf, subs[1..], Cross(acc, PureLits(sf, subs[0])));
        }
      }
    }
  }

  lemma SmallIsFound(sf: Rune -> Rune, re: Regex)
    ensures PureLits(sf, re) != [] <==> Small(re)
  {
    PureLitsCount(sf, re);
    if IsLiteral(re) {
      LiteralHasStrings(re);
    }
  }

  /** What it finds are exactly the folds of the node's matches. */
  lemma LitsAreFolds(sf: Rune -> Rune, re: Regex, x: Bytes)
    requires IsSimpleFold(sf) && ScalarOnly(re) && Small(re)
    ensures x in PureLits(sf, re) <==> exists w :: AllScalar(w) && Matches(sf, re, w) && FoldBytes(sf, w) == x
  {
    hide IsSimpleFold, Matches, FoldBytes, PureLits, ScalarOnly;
    SmallIsFound(sf, re);
    if x in PureLits(sf, re) {
      var w := PureLitsTight(sf, re, x);
    }
    if w :| AllScalar(w) && Matches(sf, re, w) && FoldBytes(sf, w) == x {
      PureLitsComplete(sf, re, w);
    }
  }

  // ---- the empty string alone ----

  /** The one literal set that is not worth keeping. */
  predicate OnlyEmpty(re: Regex)
    decreases re, 0
  {
    match re
    case EmptyMatch => true
    case Literal(runes, _) => runes == []
    case Capture(sub) => OnlyEmpty(sub)
    case Alternate(subs) => |subs| == 1 && OnlyEmpty(subs[0])
    case Concat(subs) => AreOnlyEmpty(subs)
    case _ => false
  }

  predicate AreOnlyEmpty(subs: seq<Regex>)
    decreases subs, 0
  {
    subs == [] || (OnlyEmpty(subs[0]) && AreOnlyEmpty(subs[1..]))
  }

  lemma FoldIsEmpty(sf: Rune -> Rune, runes: seq<Rune>)
    ensures FoldNorm(sf, Encode(runes)) == [] <==> runes == []
  {
    if runes != [] {
      assert Encode(runes) != [];
      assert Runes(Encode(runes)) != [];
    }
  }

  lemma CrossIsEmpty(a: LitSet, b: LitSet)
    requires a != [] && b != []
    ensures Cross(a, b) == [[]] <==> a == [[]] && b == [[]]
  {
    CrossSize(a, b);
    CrossContains(a, b, a[0], b[0]);
    ProductGrows(|a|, |b|);
    if a == [[]] && b == [[]] {
      assert b[1..] == [];
      assert Cross(a, b) == [[]];
    }
  }

  lemma ClassIsNotEmpty(sf: Rune -> Rune, ranges: seq<Range>)
    ensures ClassLits(sf, ranges, []) != [[]]
  {
    if ClassLits(sf, ranges, []) != [] {
      ClassLitsMember(sf, ranges, [], []);
    }
  }

  lemma {:induction false} OnlyEmptyLits(sf: Rune -> Rune, re: Regex)
    requires Small(re)
    ensures PureLits(sf, re) == [[]] <==> OnlyEmpty(re)
    decreases re, 0
  {
    match re
    case EmptyMatch =>
    case Literal(runes, _) => FoldIsEmpty(sf, runes);
    case CharClass(ranges) => ClassIsNotEmpty(sf, ranges);
    case Capture(sub) => OnlyEmptyLits(sf, sub);
    case Alternate(subs) => OnlyEmptyAlternate(sf, subs);
    case Concat(subs) => OnlyEmptyConcat(sf, subs, [[]]);
  }

  lemma {:induction false} OnlyEmptyAlternate(sf: Rune -> Rune, subs: seq<Regex>)
    requires Small(Alternate(subs))
    ensures AlternateLits(sf, subs, []) == [[]] <==> |subs| == 1 && OnlyEmpty(subs[0])
    decreases subs, 0
  {
    AlternateCount(sf, subs, []);
    LiteralHasStrings(subs[0]);
    if |subs| == 1 {
      assert subs[1..] == [];
      SmallIsFound(sf, subs[0]);
      OnlyEmptyLits(sf, subs[0]);
      assert AlternateLits(sf, subs, []) == [] + PureLits(sf, subs[0]) by { PureLitsCount(sf, subs[0]); }
    } else {
      LiteralsHaveStrings(subs[1..]);
    }
  }

  lemma {:induction false} OnlyEmptyConcat(sf: Rune -> Rune, subs: seq<Regex>, acc: LitSet)
    requires AreLiteral(subs) && 1 <= |acc| && |acc| * ProductOfStrings(subs) <= 32
    ensures ConcatLits(sf, subs, acc) == [[]] <==> acc == [[]] && AreOnlyEmpty(subs)
    decreases subs, 0
  {
    if subs != [] {
      var s := Strings(subs[0]);
      LiteralHasStrings(subs[0]);
      LiteralsHaveStrings(subs[1..]);
      MoreThan32(|acc|, s, ProductOfStrings(subs[1..]));
      PureLitsCount(sf, subs[0]);
      CrossSize(acc, PureLits(sf, subs[0]));
      CrossIsEmpty(acc, PureLits(sf, subs[0]));
      OnlyEmptyLits(sf, subs[0]);
      OnlyEmptyConcat(sf, subs[1..], Cross(acc, PureLits(sf, subs[0])));
    }
  }

  // ---- concatenations ----

  predicate AllSmall(subs: seq<Regex>) { forall i :: 0 <= i < |subs| ==> Small(subs[i]) }

  /** A longest stretch of small children, of no more than 32 strings in all. */
  predicate IsRun(subs: seq<Regex>, i: nat, j: nat) {
    && i <= j <= |subs| && AllSmall(subs[i..j]) && ProductOfStrings(subs[i..j]) <= 32
    && (i == 0 || !Small(subs[i - 1])) && (j == |subs| || !Small(subs[j]))
  }

  lemma {:induction false} SmallAreLiteral(subs: seq<Regex>)
    requires AllSmall(subs)
    ensures AreLiteral(subs)
  {
    if subs != [] {
      SmallAreLiteral(subs[1..]);
    }
  }

  lemma FlushedHas(run: LitSet)
    requires run != []
    ensures Flushed(run) == if run == [[]] then [] else [run]
  {
  }

  /** What is flushed where the run ends. */
  lemma {:induction false} RunIsTaken(sf: Rune -> Rune, subs: seq<Regex>, j: nat, run: LitSet)
    requires AllWellFormed(subs) && j <= |subs| && AllSmall(subs[..j]) && (j == |subs| || !Small(subs[j]))
    requires 1 <= |run| && |run| * ProductOfStrings(subs[..j]) <= 32
    ensures ConcatLits(sf, subs[..j], run) != [[]] ==>
              ConcatLits(sf, subs[..j], run) in ConcatSets(sf, subs, run)
    decreases j
  {
    SmallAreLiteral(subs[..j]);
    LiteralsHaveStrings(subs[..j]);
    ConcatCount(sf, subs[..j], run) by { ProductGrows(|run|, ProductOfStrings(subs[..j])); }
    if j == 0 {
      if subs != [] {
        SmallIsFound(sf, subs[0]);
      }
      FlushedHas(run);
    } else {
      var lits, s, rest := PureLits(sf, subs[0]), Strings(subs[0]), ProductOfStrings(subs[..j][1..]);
      assert subs[..j][1..] == subs[1..][..j - 1] && subs[..j][0] == subs[0];
      PureLitsCount(sf, subs[0]);
      LiteralHasStrings(subs[0]);
      LiteralsHaveStrings(subs[..j][1..]);
      MoreThan32(|run|, s, rest);
      CrossSize(run, lits);
      RunIsTaken(sf, subs[1..], j - 1, Cross(run, lits));
    }
  }

  /** What is required of the children behind one that is not small is required of all. */
  lemma {:induction false} FoundFurtherOn(sf: Rune -> Rune, subs: seq<Regex>, i: nat, run: LitSet, x: LitSet)
    requires AllWellFormed(subs) && 0 < i <= |subs| && !Small(subs[i - 1])
    requires AllWellFormed(subs[i..]) && x in ConcatSets(sf, subs[i..], [[]])
    ensures x in ConcatSets(sf, subs, run)
    decreases i
  {
    hide Small;
    ConcatSetsStep(sf, subs, run);
    SmallIsFound(sf, subs[0]);
    assert subs[1..][i - 1..] == subs[i..];
    if i > 1 {
      assert subs[1..][i - 2] == subs[i - 1];
      var lits := PureLits(sf, subs[0]);
      FoundFurtherOn(sf, subs[1..], i - 1, if lits != [] && |run| * |lits| <= 32 then Cross(run, lits) else [[]], x);
    }
  }

  lemma ConcatOfMany(sf: Rune -> Rune, subs: seq<Regex>)
    requires AllWellFormed(subs) && !Small(Concat(subs))
    ensures RequiredSets(sf, Concat(subs)) == ConcatSets(sf, subs, [[]])
  {
    SmallIsFound(sf, Concat(subs));
  }

  lemma PartOfRest(subs: seq<Regex>, i: nat, j: nat)
    requires i <= j <= |subs|
    ensures subs[i..][..j - i] == subs[i..j] && (j < |subs| ==> subs[i..][j - i] == subs[j])
  {
  }

  lemma PartIsKept(sf: Rune -> Rune, part: seq<Regex>)
    requires AllSmall(part) && ProductOfStrings(part) <= 32 && !AreOnlyEmpty(part)
    ensures Small(Concat(part)) && ConcatLits(sf, part, [[]]) != [[]]
  {
    SmallAreLiteral(part);
    OnlyEmptyConcat(sf, part, [[]]);
  }

  lemma RunIsFlushed(sf: Rune -> Rune, subs: seq<Regex>, i: nat, j: nat)
    requires i <= |subs| && AllWellFormed(subs[i..]) && IsRun(subs, i, j) && !AreOnlyEmpty(subs[i..j])
    ensures Small(Concat(subs[i..j])) && ConcatLits(sf, subs[i..j], [[]]) in ConcatSets(sf, subs[i..], [[]])
  {
    hide Small, ConcatLits, ConcatSets, AreOnlyEmpty, AllSmall, ProductOfStrings, AllWellFormed;
    PartIsKept(sf, subs[i..j]);
    PartOfRest(subs, i, j);
    RunIsTaken(sf, subs[i..], j - i, [[]]);
  }

  lemma PureOfConcat(sf: Rune -> Rune, subs: seq<Regex>)
    ensures PureLits(sf, Concat(subs)) == ConcatLits(sf, subs, [[]])
  {
  }

  /** Of a concatenation that is not small itself, each run that can match more than the empty string gives a set:
      the literals of that stretch of it. */
  lemma RunIsRequired(sf: Rune -> Rune, subs: seq<Regex>, i: nat, j: nat)
    requires AllWellFormed(subs) && !Small(Concat(subs)) && IsRun(subs, i, j) && !AreOnlyEmpty(subs[i..j])
    ensures Small(Concat(subs[i..j])) && PureLits(sf, Concat(subs[i..j])) in RequiredSets(sf, Concat(subs))
  {
    hide PureLits, RequiredSets, Small, ConcatLits, ConcatSets, AreOnlyEmpty;
    WellFormedAt(subs, i);
    RunIsFlushed(sf, subs, i, j);
    ConcatOfMany(sf, subs);
    PureOfConcat(sf, subs[i..j]);
    if i > 0 {
      FoundFurtherOn(sf, subs, i, [[]], PureLits(sf, Concat(subs[i..j])));
    } else {
      assert subs[0..] == subs;
    }
  }

  lemma {:induction false} ChildIsFound(sf: Rune -> Rune, subs: seq<Regex>, i: nat, run: LitSet, x: LitSet)
    requires AllWellFormed(subs) && i < |subs| && !Small(subs[i]) && WellFormed(subs[i])
    requires x in RequiredSets(sf, subs[i])
    ensures x in ConcatSets(sf, subs, run)
    decreases i
  {
    hide Small, RequiredSets;
    ConcatSetsStep(sf, subs, run);
    SmallIsFound(sf, subs[0]);
    if i > 0 {
      assert subs[1..][i - 1] == subs[i];
      var lits := PureLits(sf, subs[0]);
      ChildIsFound(sf, subs[1..], i - 1, if lits != [] && |run| * |lits| <= 32 then Cross(run, lits) else [[]], x);
    }
  }

  lemma {:induction false} SmallChildren(subs: seq<Regex>, i: nat)
    requires AreLiteral(subs) && ProductOfStrings(subs) <= 32 && i < |subs|
    ensures Small(subs[i])
    decreases i
  {
    LiteralHasStrings(subs[0]);
    LiteralsHaveStrings(subs[1..]);
    ProductGrows(Strings(subs[0]), ProductOfStrings(subs[1..]));
    if i > 0 {
      SmallChildren(subs[1..], i - 1);
    }
  }

  /** And each child that is not small gives all of its own sets. */
  lemma ChildIsRequired(sf: Rune -> Rune, subs: seq<Regex>, i: nat, x: LitSet)
    requires AllWellFormed(subs) && i < |subs| && !Small(subs[i]) && WellFormed(subs[i])
    requires x in RequiredSets(sf, subs[i])
    ensures x in RequiredSets(sf, Concat(subs))
  {
    hide PureLits, RequiredSets;
    if Small(Concat(subs)) {
      SmallChildren(subs, i);
    } else {
      ConcatOfMany(sf, subs);
      ChildIsFound(sf, subs, i, [[]], x);
    }
  }

  lemma {:induction false} CrossFromOne(lits: LitSet)
    ensures Prepend([], lits) == lits && Cross([[]], lits) == lits
  {
    if lits != [] {
      CrossFromOne(lits[1..]);
      assert [] + lits[0] == lits[0];
      assert lits == [lits[0]] + lits[1..];
    }
    assert Cross([[]], lits) == Prepend([], lits) + Cross([], lits);
  }

  lemma Assoc(a: nat, b: nat, c: nat)
    ensures (a * b) * c == a * (b * c)
  {
  }

  lemma Factors(a: nat, s: nat, rest: nat, c: nat)
    requires a >= 1 && s >= 1 && rest >= 1 && c >= 1
    ensures a * ((s * rest) * c) == (a * s) * (rest * c) && s * (rest * c) == (s * rest) * c
    ensures a * ((s * rest) * c) >= a * s >= 1
  {
    Assoc(s, rest, c);
    Assoc(a, s, rest * c);
    ProductGrows(a, s);
    ProductGrows(rest, c);
    ProductGrows(a * s, rest * c);
  }

  lemma {:induction false} OneChildMore(sf: Rune -> Rune, subs: seq<Regex>, c: Regex, acc: LitSet)
    requires AllSmall(subs) && Small(c) && 1 <= |acc| && |acc| * (ProductOfStrings(subs) * Strings(c)) <= 32
    ensures ConcatLits(sf, subs + [c], acc) == Cross(ConcatLits(sf, subs, acc), PureLits(sf, c))
    ensures ProductOfStrings(subs + [c]) == ProductOfStrings(subs) * Strings(c)
    decreases subs, 0
  {
    var p := ProductOfStrings(subs);
    SmallAreLiteral(subs);
    LiteralsHaveStrings(subs);
    LiteralHasStrings(c);
    PureLitsCount(sf, c);
    if subs == [] {
      assert ([] + [c])[1..] == [] && [c][1..] == [];
      assert subs + [c] == [c];
    } else {
      var s, rest := Strings(subs[0]), ProductOfStrings(subs[1..]);
      assert (subs + [c])[1..] == subs[1..] + [c];
      LiteralHasStrings(subs[0]);
      LiteralsHaveStrings(subs[1..]);
      PureLitsCount(sf, subs[0]);
      CrossSize(acc, PureLits(sf, subs[0]));
      Factors(|acc|, s, rest, Strings(c));
      OneChildMore(sf, subs[1..], c, Cross(acc, PureLits(sf, subs[0])));
    }
  }

  /** Children lo to hi have a set of their own. */
  ghost predicate HasOwnSet(sf: Rune -> Rune, subs: seq<Regex>, lo: nat, hi: nat, sets: seq<LitSet>) {
    lo < hi <= |subs| && AllSmall(subs[lo..hi]) && ConcatLits(sf, subs[lo..hi], [[]]) in sets
  }

  lemma OwnSetIn(sf: Rune -> Rune, subs: seq<Regex>, lo: nat, hi: nat, sets: seq<LitSet>, more: seq<LitSet>)
    requires HasOwnSet(sf, subs, lo, hi, sets) && forall x :: x in sets ==> x in more
    ensures HasOwnSet(sf, subs, lo, hi, more)
  {
  }

  lemma {:induction false} AnyIsNotEmpty(subs: seq<Regex>, i: nat)
    requires i < |subs| && !OnlyEmpty(subs[i])
    ensures !AreOnlyEmpty(subs)
    decreases i
  {
    if i > 0 {
      AnyIsNotEmpty(subs[1..], i - 1);
    }
  }

  /** The run that child i is in is flushed as a set of its own. */
  lemma RunHoldsChild(sf: Rune -> Rune, subs: seq<Regex>, lo: nat, hi: nat, i: nat)
    requires lo <= i < hi <= |subs| && AllSmall(subs[lo..hi]) && ProductOfStrings(subs[lo..hi]) <= 32
    requires !OnlyEmpty(subs[i])
    ensures ConcatLits(sf, subs[lo..hi], [[]]) != []
    ensures HasOwnSet(sf, subs, lo, hi, Flushed(ConcatLits(sf, subs[lo..hi], [[]])))
  {
    var part := subs[lo..hi];
    SmallAreLiteral(part);
    LiteralsHaveStrings(part);
    AnyIsNotEmpty(part, i - lo);
    OnlyEmptyConcat(sf, part, [[]]);
    ConcatCount(sf, part, [[]]);
    FlushedHas(ConcatLits(sf, part, [[]]));
  }

  /** Of the children up to p, those from lo on are the current run. */
  ghost predicate RunSoFar(sf: Rune -> Rune, subs: seq<Regex>, lo: nat, p: nat, run: LitSet) {
    && lo <= p <= |subs| && AllSmall(subs[lo..p]) && ProductOfStrings(subs[lo..p]) <= 32
    && run == ConcatLits(sf, subs[lo..p], [[]])
  }

  lemma RunSize(sf: Rune -> Rune, subs: seq<Regex>, lo: nat, p: nat, run: LitSet)
    requires RunSoFar(sf, subs, lo, p, run)
    ensures |run| == ProductOfStrings(subs[lo..p]) >= 1
  {
    SmallAreLiteral(subs[lo..p]);
    LiteralsHaveStrings(subs[lo..p]);
    ConcatCount(sf, subs[lo..p], [[]]);
  }

  lemma RunGrows(sf: Rune -> Rune, subs: seq<Regex>, lo: nat, p: nat, run: LitSet)
    requires RunSoFar(sf, subs, lo, p, run) && p < |subs|
    requires PureLits(sf, subs[p]) != [] && |run| * |PureLits(sf, subs[p])| <= 32
    ensures RunSoFar(sf, subs, lo, p + 1, Cross(run, PureLits(sf, subs[p])))
  {
    hide Small, PureLits, ConcatLits, ProductOfStrings, Cross;
    RunSize(sf, subs, lo, p, run);
    SmallIsFound(sf, subs[p]);
    PureLitsCount(sf, subs[p]);
    assert subs[lo..p + 1] == subs[lo..p] + [subs[p]];
    OneChildMore(sf, subs[lo..p], subs[p], [[]]);
  }

  lemma NoRun(sf: Rune -> Rune, subs: seq<Regex>, p: nat)
    requires p <= |subs|
    ensures RunSoFar(sf, subs, p, p, [[]])
  {
    assert subs[p..p] == [];
  }

  lemma OneChildHasOwnSet(sf: Rune -> Rune, subs: seq<Regex>, p: nat)
    requires p < |subs| && Small(subs[p])
    ensures HasOwnSet(sf, subs, p, p + 1, [PureLits(sf, subs[p])])
  {
    assert subs[p..p + 1] == [subs[p]];
    PureLitsCount(sf, subs[p]);
    LiteralHasStrings(subs[p]);
    CrossFromOne(PureLits(sf, subs[p]));
    assert [subs[p]][1..] == [];
  }

  /** Having passed children up to p, every small child from lo on that is not the empty string is in some stretch
      that gives a set. */
  lemma {:induction false} ChildIsCovered(sf: Rune -> Rune, subs: seq<Regex>, lo: nat, p: nat, run: LitSet, i: nat)
    returns (a: nat, b: nat)
    requires AllWellFormed(subs) && p <= |subs| && AllWellFormed(subs[p..]) && RunSoFar(sf, subs, lo, p, run)
    requires lo <= i < |subs| && Small(subs[i]) && !OnlyEmpty(subs[i])
    ensures a <= i < b && HasOwnSet(sf, subs, a, b, ConcatSets(sf, subs[p..], run))
    decreases |subs| - p
  {
    if i < p {
      RunHoldsChild(sf, subs, lo, p, i);
    }
    hide Small, OnlyEmpty, HasOwnSet, Flushed, PureLits, RequiredSets, RunSoFar, Cross;
    if p == |subs| {
      a, b := lo, p;
    } else {
      var lits := PureLits(sf, subs[p]);
      assert subs[p..][0] == subs[p] && subs[p..][1..] == subs[p + 1..];
      ConcatSetsStep(sf, subs[p..], run);
      SmallIsFound(sf, subs[p]);
      if lits != [] && |run| * |lits| <= 32 {
        RunGrows(sf, subs, lo, p, run);
        a, b := ChildIsCovered(sf, subs, lo, p + 1, Cross(run, lits), i);
      } else if i < p {
        a, b := lo, p;
        OwnSetIn(sf, subs, lo, p, Flushed(run), ConcatSets(sf, subs[p..], run));
      } else if i == p {
        a, b := p, p + 1;
        OneChildHasOwnSet(sf, subs, p);
        OwnSetIn(sf, subs, p, p + 1, [lits], ConcatSets(sf, subs[p..], run));
      } else {
        NoRun(sf, subs, p + 1);
        a, b := ChildIsCovered(sf, subs, p + 1, p + 1, [[]], i);
        OwnSetIn(sf, subs, a, b, ConcatSets(sf, subs[p + 1..], [[]]), ConcatSets(sf, subs[p..], run));
      }
    }
  }

  lemma SmallIsRequired(sf: Rune -> Rune, re: Regex)
    requires WellFormed(re) && Small(re)
    ensures RequiredSets(sf, re) == [PureLits(sf, re)]
  {
    SmallIsFound(sf, re);
  }

  lemma AllAreSmall(subs: seq<Regex>)
    requires Small(Concat(subs))
    ensures AllSmall(subs)
  {
    forall i | 0 <= i < |subs| ensures Small(subs[i]) {
      SmallChildren(subs, i);
    }
  }

  /** No literal of a concatenation is lost: each small child that can match more than the empty string is part of a
      stretch of small children whose literals are a required set. */
  lemma SmallChildIsRequired(sf: Rune -> Rune, subs: seq<Regex>, i: nat) returns (a: nat, b: nat)
    requires AllWellFormed(subs) && i < |subs| && Small(subs[i]) && !OnlyEmpty(subs[i])
    ensures a <= i < b <= |subs| && AllSmall(subs[a..b])
    ensures PureLits(sf, Concat(subs[a..b])) in RequiredSets(sf, Concat(subs))
  {
    hide Small, OnlyEmpty, RequiredSets;
    SmallIsFound(sf, Concat(subs));
    if Small(Concat(subs)) {
      a, b := 0, |subs|;
      assert subs[a..b] == subs;
      AllAreSmall(subs);
      SmallIsRequired(sf, Concat(subs));
    } else {
      NoRun(sf, subs, 0);
      assert subs[0..] == subs;
      a, b := ChildIsCovered(sf, subs, 0, 0, [[]], i);
      ConcatOfMany(sf, subs);
      PureOfConcat(sf, subs[a..b]);
    }
  }

  // ---- alternations ----

  predicate IsBestAt(sets: seq<LitSet>, k: nat) {
    && k < |sets| && sets[k] != []
    && (forall i :: 0 <= i < |sets| && sets[i] != [] ==> MinLitLen(sets[i]) <= MinLitLen(sets[k]))
    && forall i :: 0 <= i < k && sets[i] != [] ==> MinLitLen(sets[i]) < MinLitLen(sets[k])
  }

  /** A set of the greatest least length, the first of those that tie. */
  predicate IsBest(lits: LitSet, sets: seq<LitSet>) {
    exists k :: 0 <= k < |sets| && IsBestAt(sets, k) && sets[k] == lits
  }

  lemma OneMoreToBeat(best: LitSet, second: LitSet, sets: seq<LitSet>, k: nat)
    requires best != [] && second != []
    requires var next := if MinLitLen(second) > MinLitLen(best) then second else best; IsBestAt([next] + sets, k)
    ensures var next := if MinLitLen(second) > MinLitLen(best) then second else best;
            IsBest(([next] + sets)[k], [best, second] + sets)
  {
    hide MinLitLen;
    var next := if MinLitLen(second) > MinLitLen(best) then second else best;
    var rest, all := [next] + sets, [best, second] + sets;
    var at := if k > 0 then k + 1 else if next == best then 0 else 1;
    assert rest[0] == next && all[at] == rest[k];
    forall i | 0 <= i < |all| && all[i] != []
      ensures MinLitLen(all[i]) <= MinLitLen(all[at]) && (i < at ==> MinLitLen(all[i]) < MinLitLen(all[at]))
    {
      if i >= 2 {
        assert rest[i - 1] == all[i];
      }
    }
    assert IsBestAt(all, at);
  }

  lemma {:induction false} BestIsBest(best: LitSet, sets: seq<LitSet>)
    requires best != [] && forall i :: 0 <= i < |sets| ==> sets[i] != []
    ensures IsBest(BestFrom(best, sets), [best] + sets)
    decreases sets
  {
    if sets == [] {
      assert IsBestAt([best], 0);
      assert [best] + sets == [best];
    } else {
      var next := if MinLitLen(sets[0]) > MinLitLen(best) then sets[0] else best;
      BestIsBest(next, sets[1..]);
      hide MinLitLen;
      var rest := [next] + sets[1..];
      var k :| 0 <= k < |rest| && IsBestAt(rest, k) && rest[k] == BestFrom(next, sets[1..]);
      OneMoreToBeat(best, sets[0], sets[1..], k);
      assert [best, sets[0]] + sets[1..] == [best] + sets;
    }
  }

  /** The literals of the branch that go into an alternation's set. */
  ghost function BestOf(sf: Rune -> Rune, re: Regex): LitSet
    requires WellFormed(re) && RequiredSets(sf, re) != []
  {
    var branch := RequiredSets(sf, re);
    BestFrom(branch[0], branch[1..])
  }

  lemma BestOfIsBest(sf: Rune -> Rune, re: Regex)
    requires WellFormed(re) && RequiredSets(sf, re) != []
    ensures IsBest(BestOf(sf, re), RequiredSets(sf, re))
  {
    var branch := RequiredSets(sf, re);
    BestIsBest(branch[0], branch[1..]);
    assert branch == [branch[0]] + branch[1..];
  }

  ghost predicate AllHaveSets(sf: Rune -> Rune, subs: seq<Regex>)
    requires AllWellFormed(subs)
    decreases subs
  {
    subs == [] || (RequiredSets(sf, subs[0]) != [] && AllHaveSets(sf, subs[1..]))
  }

  ghost function AllBest(sf: Rune -> Rune, subs: seq<Regex>): LitSet
    requires AllWellFormed(subs) && AllHaveSets(sf, subs)
    decreases subs
  {
    if subs == [] then [] else BestOf(sf, subs[0]) + AllBest(sf, subs[1..])
  }

  lemma {:induction false} AlternateIsUnion(sf: Rune -> Rune, subs: seq<Regex>, union: LitSet)
    requires AllWellFormed(subs) && (union != [] || subs != [])
    ensures AlternateSets(sf, subs, union) == if AllHaveSets(sf, subs) then [union + AllBest(sf, subs)] else []
    decreases subs
  {
    hide RequiredSets;
    if subs == [] {
      assert union + [] == union;
    } else if RequiredSets(sf, subs[0]) != [] {
      BestOfIsBest(sf, subs[0]);
      AlternateIsUnion(sf, subs[1..], union + BestOf(sf, subs[0]));
      if AllHaveSets(sf, subs[1..]) {
        Sorting.Reassociate(union, BestOf(sf, subs[0]), AllBest(sf, subs[1..]));
      }
    }
  }

  /** What of branch i gets into an alternation's literals: all of one of its sets, of the greatest least length. */
  lemma {:induction false} BranchIn(sf: Rune -> Rune, subs: seq<Regex>, i: nat) returns (best: LitSet)
    requires AllWellFormed(subs) && AllHaveSets(sf, subs) && i < |subs| && WellFormed(subs[i])
    ensures IsBest(best, RequiredSets(sf, subs[i])) && forall x :: x in best ==> x in AllBest(sf, subs)
    decreases i
  {
    hide RequiredSets, IsBest;
    if i == 0 {
      best := BestOf(sf, subs[0]);
      BestOfIsBest(sf, subs[0]);
    } else {
      best := BranchIn(sf, subs[1..], i - 1);
    }
  }

  /** And nothing gets in but from such a set of some branch. */
  lemma {:induction false} OnlyBranches(sf: Rune -> Rune, subs: seq<Regex>, x: Bytes) returns (i: nat, best: LitSet)
    requires AllWellFormed(subs) && AllHaveSets(sf, subs) && x in AllBest(sf, subs)
    ensures i < |subs| && WellFormed(subs[i]) && IsBest(best, RequiredSets(sf, subs[i])) && x in best
    decreases subs
  {
    hide RequiredSets, IsBest;
    if x in BestOf(sf, subs[0]) {
      i, best := 0, BestOf(sf, subs[0]);
      BestOfIsBest(sf, subs[0]);
    } else {
      i, best := OnlyBranches(sf, subs[1..], x);
      i := i + 1;
    }
  }

  lemma {:induction false} AllHaveSetsAt(sf: Rune -> Rune, subs: seq<Regex>)
    requires AllWellFormed(subs)
    ensures AllHaveSets(sf, subs) <==>
            forall i :: 0 <= i < |subs| ==> WellFormed(subs[i]) && RequiredSets(sf, subs[i]) != []
    decreases subs
  {
    hide RequiredSets;
    if subs != [] {
      AllHaveSetsAt(sf, subs[1..]);
      assert forall i :: 0 <= i < |subs| - 1 ==> subs[1..][i] == subs[i + 1];
    }
  }

  /** best is a required set of re, of the greatest least length. */
  ghost predicate IsBestOf(sf: Rune -> Rune, re: Regex, best: LitSet) {
    WellFormed(re) && IsBest(best, RequiredSets(sf, re))
  }

  predicate Includes(lits: LitSet, some: LitSet) { forall x :: x in some ==> x in lits }

  /** lits are made of the best sets of the branches, one of each. */
  ghost predicate MadeOfBest(sf: Rune -> Rune, subs: seq<Regex>, lits: LitSet) {
    && (forall i :: 0 <= i < |subs| ==> exists best :: IsBestOf(sf, subs[i], best) && Includes(lits, best))
    && (forall x :: x in lits ==> exists i, best :: 0 <= i < |subs| && IsBestOf(sf, subs[i], best) && x in best)
  }

  lemma BestMakeUp(sf: Rune -> Rune, subs: seq<Regex>)
    requires AllWellFormed(subs) && AllHaveSets(sf, subs)
    ensures MadeOfBest(sf, subs, AllBest(sf, subs))
  {
    hide RequiredSets, IsBest, AllHaveSets, AllBest;
    AllHaveSetsAt(sf, subs);
    forall i | 0 <= i < |subs|
      ensures exists best :: IsBestOf(sf, subs[i], best) && Includes(AllBest(sf, subs), best)
    {
      var best := BranchIn(sf, subs, i);
      assert IsBestOf(sf, subs[i], best) && Includes(AllBest(sf, subs), best);
    }
    forall x | x in AllBest(sf, subs)
      ensures exists i, best :: 0 <= i < |subs| && IsBestOf(sf, subs[i], best) && x in best
    {
      var i, best := OnlyBranches(sf, subs, x);
      assert IsBestOf(sf, subs[i], best);
    }
  }

  /** An alternation that is not small has a set exactly if each of its branches has one, and then it has one: of each
      branch a set of the greatest least length, and nothing else. */
  lemma AlternationNeedsAll(sf: Rune -> Rune, subs: seq<Regex>)
    requires WellFormed(Alternate(subs)) && !Small(Alternate(subs))
    ensures var sets := RequiredSets(sf, Alternate(subs));
            && (sets != [] <==> forall i :: 0 <= i < |subs| ==> WellFormed(subs[i]) && RequiredSets(sf, subs[i]) != [])
            && (sets != [] ==> |sets| == 1 && MadeOfBest(sf, subs, sets[0]))
  {
    SmallIsFound(sf, Alternate(subs));
    assert RequiredSets(sf, Alternate(subs)) == AlternateSets(sf, subs, []);
    hide RequiredSets, IsBest, AlternateSets, AllBest;
    AlternateIsUnion(sf, subs, []);
    AllHaveSetsAt(sf, subs);
    if AllHaveSets(sf, subs) {
      BestMakeUp(sf, subs);
      assert [] + AllBest(sf, subs) == AllBest(sf, subs);
    }
  }

  /** A capture, a plus and a repeat of at least one have the sets of their child. */
  lemma WrappersKeepSets(sf: Rune -> Rune, sub: Regex, min: int, max: int)
    requires WellFormed(sub)
    ensures RequiredSets(sf, Capture(sub)) == RequiredSets(sf, sub)
    ensures RequiredSets(sf, Plus(sub)) == RequiredSets(sf, sub)
    ensures RequiredSets(sf, Repeat(sub, min, max)) == if min >= 1 then RequiredSets(sf, sub) else []
  {
  }

  // ---- which trees have a set at all ----

  /** The tree guarantees something of every match. */
  predicate Guarantees(re: Regex)
    decreases re, 0
  {
    Small(re) ||
    match re
    case Capture(sub) => Guarantees(sub)
    case Plus(sub) => Guarantees(sub)
    case Repeat(sub, min, _) => min >= 1 && Guarantees(sub)
    case Concat(subs) => AnyGuarantees(subs)
    case Alternate(subs) => AllGuarantee(subs)
    case _ => false
  }

  /** Some child does, by more than the empty string. */
  predicate AnyGuarantees(subs: seq<Regex>)
    decreases subs, 0
  {
    subs != [] &&
    ((if Small(subs[0]) then !OnlyEmpty(subs[0]) else Guarantees(subs[0])) || AnyGuarantees(subs[1..]))
  }

  predicate AllGuarantee(subs: seq<Regex>)
    decreases subs, 0
  {
    subs == [] || (Guarantees(subs[0]) && AllGuarantee(subs[1..]))
  }

  lemma Overflows(run: LitSet, lits: LitSet)
    requires |run| * |lits| > 32 && |lits| <= 32
    ensures run != [[]]
  {
    assert |run| == 1 ==> |run| * |lits| == |lits|;
  }

  /** requiredSets finds a set exactly where the tree guarantees something. */
  lemma {:induction false} SetsIffGuaranteed(sf: Rune -> Rune, re: Regex)
    requires WellFormed(re)
    ensures RequiredSets(sf, re) != [] <==> Guarantees(re)
    decreases re, 0
  {
    SmallIsFound(sf, re);
    if !Small(re) {
      match re
      case Capture(sub) => SetsIffGuaranteed(sf, sub);
      case Plus(sub) => SetsIffGuaranteed(sf, sub);
      case Repeat(sub, min, _) => SetsIffGuaranteed(sf, sub);
      case Concat(subs) => ConcatIffGuaranteed(sf, subs, [[]]);
      case Alternate(subs) =>
        AlternateIsUnion(sf, subs, []);
        AlternateIffGuaranteed(sf, subs);
      case _ =>
    }
  }

  lemma {:induction false} AlternateIffGuaranteed(sf: Rune -> Rune, subs: seq<Regex>)
    requires AllWellFormed(subs)
    ensures AllHaveSets(sf, subs) <==> AllGuarantee(subs)
    decreases subs, 0
  {
    if subs != [] {
      SetsIffGuaranteed(sf, subs[0]);
      AlternateIffGuaranteed(sf, subs[1..]);
    }
  }

  lemma {:induction false} ConcatIffGuaranteed(sf: Rune -> Rune, subs: seq<Regex>, run: LitSet)
    requires AllWellFormed(subs) && run != []
    ensures ConcatSets(sf, subs, run) != [] <==> run != [[]] || AnyGuarantees(subs)
    decreases subs, 0
  {
    FlushedHas(run);
    if subs != [] {
      var lits := PureLits(sf, subs[0]);
      ConcatSetsStep(sf, subs, run);
      SmallIsFound(sf, subs[0]);
      SetsIffGuaranteed(sf, subs[0]);
      hide RequiredSets, PureLits, Flushed;
      if Small(subs[0]) {
        OnlyEmptyLits(sf, subs[0]);
        if |run| * |lits| <= 32 {
          CrossSize(run, lits);
          ProductGrows(|run|, |lits|);
          CrossIsEmpty(run, lits);
          ConcatIffGuaranteed(sf, subs[1..], Cross(run, lits));
        } else {
          PureLitsSize(sf, subs[0]);
          Overflows(run, lits);
        }
      } else {
        ConcatIffGuaranteed(sf, subs[1..], [[]]);
      }
    }
  }

  // ---- triggers ----

  predicate AllLong(lits: LitSet) { lits != [] && forall x :: x in lits ==> |x| >= 2 }

  lemma {:induction false} MinLitLenIsLeast(lits: LitSet)
    requires lits != []
    ensures (exists x :: x in lits && |x| == MinLitLen(lits)) && forall x :: x in lits ==> MinLitLen(lits) <= |x|
  {
    if |lits| > 1 {
      MinLitLenIsLeast(lits[1..]);
      assert lits == [lits[0]] + lits[1..];
      var x :| x in lits[1..] && |x| == MinLitLen(lits[1..]);
      assert x in lits && lits[0] in lits;
    } else {
      assert lits == [lits[0]];
    }
  }

  /** A tree has a trigger exactly if it has a required set all of whose literals are two bytes or longer. */
  lemma TriggersIffLong(sf: Rune -> Rune, re: Regex)
    requires WellFormed(re)
    ensures Triggers(sf, re) != [] <==> exists s :: s in RequiredSets(sf, re) && AllLong(s)
  {
    hide RequiredSets, SelectTriggers;
    var sets := RequiredSets(sf, re);
    TriggersAreMostSelective(sets);
    forall s | s in sets ensures Strong(s) <==> AllLong(s) {
      MinLitLenIsLeast(s);
    }
    if Triggers(sf, re) != [] {
      var t := Triggers(sf, re)[0];
      assert t in Triggers(sf, re);
      assert t in sets && AllLong(t);
    }
  }

  lemma RunIsSmall(subs: seq<Regex>, i: nat, j: nat)
    requires IsRun(subs, i, j)
    ensures Small(Concat(subs[i..j]))
  {
    SmallAreLiteral(subs[i..j]);
  }

  /** So a concatenation with a run of literals of which every match folds to two bytes or more is not scanned in vain:
      it has a trigger. */
  lemma RunGivesTrigger(sf: Rune -> Rune, subs: seq<Regex>, i: nat, j: nat)
    requires IsSimpleFold(sf) && AllWellFormed(subs) && !Small(Concat(subs)) && IsRun(subs, i, j) && i < j
    requires ScalarOnly(Concat(subs[i..j]))
    requires forall w :: AllScalar(w) && Matches(sf, Concat(subs[i..j]), w) ==> |FoldBytes(sf, w)| >= 2
    ensures Triggers(sf, Concat(subs)) != []
  {
    hide IsSimpleFold, Matches, FoldBytes, RequiredSets, PureLits, Triggers, ScalarOnly;
    var part := Concat(subs[i..j]);
    var lits := PureLits(sf, part);
    RunIsSmall(subs, i, j);
    SmallIsFound(sf, part);
    forall x | x in lits ensures |x| >= 2 {
      LitsAreFolds(sf, part, x);
    }
    OnlyEmptyLits(sf, part);
    RunIsRequired(sf, subs, i, j);
    TriggersIffLong(sf, Concat(subs));
    assert lits in RequiredSets(sf, Concat(subs)) && AllLong(lits);
  }

  lemma {:induction false} EncodeLength(w: seq<Rune>)
    ensures |Encode(w)| >= |w|
  {
    if w != [] {
      EncodeLength(w[1..]);
    }
  }

  lemma LiteralFoldsLong(sf: Rune -> Rune, runes: seq<Rune>)
    requires AllScalar(runes)
    ensures |FoldNorm(sf, Encode(runes))| >= |runes|
  {
    RunesOfEncode(runes);
    EncodeLength(FoldRunes(sf, runes));
  }

  predicate NoneShorter(lits: LitSet, n: nat) { forall x :: x in lits ==> |x| >= n }

  /** No literal of a concatenation is shorter than those of one of its children. */
  lemma {:induction false} ConcatNoShorter(sf: Rune -> Rune, subs: seq<Regex>, acc: LitSet, i: nat, n: nat)
    requires NoneShorter(acc, n) || (i < |subs| && NoneShorter(PureLits(sf, subs[i]), n))
    ensures NoneShorter(ConcatLits(sf, subs, acc), n)
    decreases subs, 0
  {
    if subs != [] {
      var lits := PureLits(sf, subs[0]);
      if lits != [] && |acc| * |lits| <= MAX_PURE_LITS {
        if NoneShorter(acc, n) || i == 0 {
          forall x | x in Cross(acc, lits) ensures |x| >= n {
            var a, b := CrossOnly(acc, lits, x);
          }
        }
        ConcatNoShorter(sf, subs[1..], Cross(acc, lits), if i == 0 then 0 else i - 1, n);
      }
    }
  }

  lemma LiteralIsSmall(re: Regex)
    requires re.Literal? && |re.runes| >= 2
    ensures Small(re) && !OnlyEmpty(re)
  {
  }

  lemma RequiredIsNotEmpty(sf: Rune -> Rune, re: Regex, lits: LitSet)
    requires WellFormed(re) && lits in RequiredSets(sf, re)
    ensures lits != []
  {
  }

  /** In particular a concatenation with a literal of two runes or more always has a trigger. */
  lemma LiteralGivesTrigger(sf: Rune -> Rune, subs: seq<Regex>, i: nat)
    requires AllWellFormed(subs) && i < |subs|
    requires subs[i].Literal? && |subs[i].runes| >= 2 && AllScalar(subs[i].runes)
    ensures Triggers(sf, Concat(subs)) != []
  {
    hide RequiredSets, Triggers, Small, FoldNorm, AllScalar;
    assert Small(subs[i]) && !OnlyEmpty(subs[i]) by { LiteralIsSmall(subs[i]); }
    var a, b := SmallChildIsRequired(sf, subs, i);
    var lits := PureLits(sf, Concat(subs[a..b]));
    LiteralFoldsLong(sf, subs[i].runes);
    assert subs[a..b][i - a] == subs[i];
    ConcatNoShorter(sf, subs[a..b], [[]], i - a, 2);
    RequiredIsNotEmpty(sf, Concat(subs), lits);
    TriggersIffLong(sf, Concat(subs));
    assert AllLong(lits);
  }

  ghost predicate AnyOccurs(text: Bytes, lits: LitSet) { exists x, i: nat :: x in lits && OccursAt(text, i, x) }

  lemma HitsIffOccurs(text: Bytes, lits: LitSet)
    ensures Hits(text, lits) <==> AnyOccurs(text, lits)
  {
    if x, i: nat :| x in lits && OccursAt(text, i, x) {
      var j :| 0 <= j < |lits| && lits[j] == x;
      assert Contains(text, lits[j]);
    }
    if Hits(text, lits) {
      var j :| 0 <= j < |lits| && Contains(text, lits[j]);
      var i: nat :| i <= |text| && OccursAt(text, i, lits[j]);
      assert lits[j] in lits;
    }
  }

  /** A text passes exactly if some literal of each trigger set occurs in it. */
  lemma PassesIffAllOccur(sf: Rune -> Rune, re: Regex, text: Bytes)
    requires WellFormed(re)
    ensures Possible(text, Triggers(sf, re)) <==> forall t :: t in Triggers(sf, re) ==> AnyOccurs(text, t)
  {
    hide Triggers, AnyOccurs, Hits;
    var sets := Triggers(sf, re);
    forall t ensures Hits(text, t) <==> AnyOccurs(text, t) {
      HitsIffOccurs(text, t);
    }
    forall t | Possible(text, sets) && t in sets ensures AnyOccurs(text, t) {
      var k :| 0 <= k < |sets| && sets[k] == t;
      assert Hits(text, sets[k]);
    }
  }
}
