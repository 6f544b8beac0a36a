/**
 Two patterns at once, one matching inside what the other matches: a token behind a marked prefix, and one
 that is recognised by a prefix made of token bytes, wherever it stands. A credential in a header that names its
 scheme, and the same credential on its own, are such a pair.
 */
module NestedTokens {
  import opened Utf8
  import opened Folding
  import opened Regex
  import opened Prefilter
  import opened Spans
  import opened Redaction
  import opened Stream
  import opened StreamRefinement
  import opened Scanner
  import opened Tokens
  import opened Wrappers

  datatype Pair = Pair(outer: Bytes, n1: nat, inner: Bytes, n2: nat, ranges: seq<Range>)

  /** The outer prefix is marked, the inner one is of the class and does not start in the outer one, and the least
      outer token is over before the least inner one in it can be. */
  predicate Nests(t: Pair) {
    && Marked(t.outer, t.ranges)
    && t.inner != [] && AllIn(t.ranges, t.inner) && t.inner[0] !in t.outer
    && t.n1 <= |t.inner| + t.n2
  }

  function PairRedactor(t: Pair, bufferSize: nat, maxOverlap: int): Redactor {
    var p := TokenPattern(t.outer, t.ranges, t.n1);
    Redactor(AsciiFold, [p, TokenPattern(t.inner, t.ranges, t.n2)], None, p, bufferSize, maxOverlap)
  }

  lemma InnerIsAscii(t: Pair)
    requires Nests(t)
    ensures AsciiToken(t.inner, t.ranges)
  {
  }

  lemma PairWorks(t: Pair, bufferSize: nat, maxOverlap: int)
    requires Nests(t)
    ensures var r := PairRedactor(t, bufferSize, maxOverlap); Valid(r) && Searches(r)
  {
    AsciiFoldIsSimpleFold();
    TokenWorks(t.outer, t.ranges, t.n1);
    InnerIsAscii(t);
    TokenWorks(t.inner, t.ranges, t.n2);
  }

  /** Where either occurs. */
  predicate PairBytes(t: Pair, d: Bytes, s: nat, e: nat) {
    TokenBytes(t.outer, t.ranges, t.n1, d, s, e) || TokenBytes(t.inner, t.ranges, t.n2, d, s, e)
  }

  lemma NoEmptyToken(prefix: Bytes, ranges: seq<Range>, n: nat, d: Bytes, s: nat, e: nat)
    requires prefix != []
    ensures TokenBytes(prefix, ranges, n, d, s, e) ==> s < e <= |d|
  {
  }

  lemma PairOccurs(t: Pair, bufferSize: nat, maxOverlap: int, d: Bytes, s: nat, e: nat)
    requires Nests(t)
    ensures Occurs(PairRedactor(t, bufferSize, maxOverlap), d, s, e) <==> PairBytes(t, d, s, e)
  {
    hide IsToken, TokenBytes;
    var r := PairRedactor(t, bufferSize, maxOverlap);
    if s < e <= |d| {
      TokenInSlice(t.outer, t.ranges, t.n1, d, s, e);
      TokenInSlice(t.inner, t.ranges, t.n2, d, s, e);
      assert r.patterns[0].word(d[s..e]) <==> IsToken(t.outer, t.ranges, t.n1, d[s..e]);
      assert r.patterns[1].word(d[s..e]) <==> IsToken(t.inner, t.ranges, t.n2, d[s..e]);
    } else {
      NoEmptyToken(t.outer, t.ranges, t.n1, d, s, e);
      NoEmptyToken(t.inner, t.ranges, t.n2, d, s, e);
    }
  }

  /** An inner token has no byte outside the class. */
  lemma InnerBytes(t: Pair, d: Bytes, s: nat, e: nat, q: nat)
    requires Nests(t) && TokenBytes(t.inner, t.ranges, t.n2, d, s, e) && s <= q < e
    ensures InClass(t.ranges, d[q])
  {
    if q < s + |t.inner| {
      assert d[q] == t.inner[q - s];
    }
  }

  /** An inner token that starts in an outer one can be read as its end. */
  lemma InnerInOuter(t: Pair, d: Bytes, s1: nat, e1: nat, s2: nat, e2: nat)
    requires Nests(t) && TokenBytes(t.outer, t.ranges, t.n1, d, s1, e1)
    requires TokenBytes(t.inner, t.ranges, t.n2, d, s2, e2) && s1 <= s2 < e1
    ensures TokenBytes(t.outer, t.ranges, t.n1, d, s1, e2)
  {
    assert d[s2] == t.inner[0];
    forall q | s1 <= q < s1 + |t.outer| ensures d[q] in t.outer {
      assert d[q] == t.outer[q - s1];
    }
    forall q | s1 + |t.outer| <= q < e2 ensures InClass(t.ranges, d[q]) {
      if q >= s2 {
        InnerBytes(t, d, s2, e2, q);
      }
    }
  }

  lemma InnerInInner(t: Pair, d: Bytes, s1: nat, e1: nat, s2: nat, e2: nat)
    requires Nests(t) && TokenBytes(t.inner, t.ranges, t.n2, d, s1, e1)
    requires TokenBytes(t.inner, t.ranges, t.n2, d, s2, e2) && s1 <= s2 < e1
    ensures TokenBytes(t.inner, t.ranges, t.n2, d, s1, e2)
  {
    forall q | s1 + |t.inner| <= q < e2 ensures InClass(t.ranges, d[q]) {
      if q >= s2 {
        InnerBytes(t, d, s2, e2, q);
      }
    }
  }

  /** An outer token starts in no inner one. */
  lemma OuterNotInInner(t: Pair, d: Bytes, s1: nat, e1: nat, s2: nat, e2: nat)
    requires Nests(t) && TokenBytes(t.inner, t.ranges, t.n2, d, s1, e1)
    requires TokenBytes(t.outer, t.ranges, t.n1, d, s2, e2)
    ensures !(s1 <= s2 < e1)
  {
    assert d[s2] == t.outer[0];
    if s1 <= s2 < e1 {
      InnerBytes(t, d, s1, e1, s2);
    }
  }

  lemma OuterIsMarked(t: Pair)
    requires Nests(t)
    ensures Marked(t.outer, t.ranges) && t.outer != [] && t.inner != []
  {
  }

  lemma PairAbsorbsOne(t: Pair, d: Bytes, s1: nat, e1: nat, s2: nat, e2: nat)
    requires Nests(t) && PairBytes(t, d, s1, e1) && PairBytes(t, d, s2, e2) && s1 <= s2 < e1
    ensures PairBytes(t, d, s1, e2)
  {
    hide TokenBytes, Nests;
    if TokenBytes(t.outer, t.ranges, t.n1, d, s2, e2) {
      if TokenBytes(t.outer, t.ranges, t.n1, d, s1, e1) {
        OuterIsMarked(t);
        TokensStandApart(t.outer, t.ranges, t.n1, d, s1, e1, s2, e2);
      } else {
        OuterNotInInner(t, d, s1, e1, s2, e2);
      }
    } else if TokenBytes(t.outer, t.ranges, t.n1, d, s1, e1) {
      InnerInOuter(t, d, s1, e1, s2, e2);
    } else {
      InnerInInner(t, d, s1, e1, s2, e2);
    }
  }

  lemma PairAbsorbs(t: Pair, bufferSize: nat, maxOverlap: int, d: Bytes)
    requires Nests(t)
    ensures Absorbs(PairRedactor(t, bufferSize, maxOverlap), d)
  {
    hide Occurs, PairRedactor, TokenBytes;
    var r := PairRedactor(t, bufferSize, maxOverlap);
    forall s1: nat, e1: nat, s2: nat, e2: nat
      | Occurs(r, d, s1, e1) && Occurs(r, d, s2, e2) && s1 <= s2 < e1
      ensures Occurs(r, d, s1, e2)
    {
      PairOccurs(t, bufferSize, maxOverlap, d, s1, e1);
      PairOccurs(t, bufferSize, maxOverlap, d, s2, e2);
      PairOccurs(t, bufferSize, maxOverlap, d, s1, e2);
      PairAbsorbsOne(t, d, s1, e1, s2, e2);
    }
  }

  /** Both kinds start apart, and each grows from its least length on. */
  lemma PairCut(t: Pair, d: Bytes, s: nat, e1: nat, e: nat, e2: nat)
    requires Nests(t) && PairBytes(t, d, s, e1) && PairBytes(t, d, s, e2) && e1 <= e <= e2
    ensures PairBytes(t, d, s, e)
  {
    hide TokenBytes, Nests;
    if TokenBytes(t.outer, t.ranges, t.n1, d, s, e2) {
      if !TokenBytes(t.outer, t.ranges, t.n1, d, s, e1) {
        OuterIsMarked(t);
        NoEmptyToken(t.inner, t.ranges, t.n2, d, s, e1);
        OuterNotInInner(t, d, s, e1, s, e2);
      }
      TokenLeast(t.outer, t.ranges, t.n1, d, s, e1);
      TokenCut(t.outer, t.ranges, t.n1, d, s, e, e2);
    } else {
      if !TokenBytes(t.inner, t.ranges, t.n2, d, s, e1) {
        OuterIsMarked(t);
        NoEmptyToken(t.inner, t.ranges, t.n2, d, s, e2);
        OuterNotInInner(t, d, s, e2, s, e1);
      }
      TokenLeast(t.inner, t.ranges, t.n2, d, s, e1);
      TokenCut(t.inner, t.ranges, t.n2, d, s, e, e2);
    }
  }

  lemma PairLeast(t: Pair, d: Bytes, s: nat, e: nat) returns (least: nat)
    requires Nests(t) && PairBytes(t, d, s, e)
    ensures PairBytes(t, d, s, least) && (least == s + |t.outer| + t.n1 || least == s + |t.inner| + t.n2)
  {
    hide TokenBytes, Nests;
    if TokenBytes(t.outer, t.ranges, t.n1, d, s, e) {
      least := s + |t.outer| + t.n1;
      TokenLeast(t.outer, t.ranges, t.n1, d, s, e);
      TokenCut(t.outer, t.ranges, t.n1, d, s, least, e);
    } else {
      least := s + |t.inner| + t.n2;
      TokenLeast(t.inner, t.ranges, t.n2, d, s, e);
      TokenCut(t.inner, t.ranges, t.n2, d, s, least, e);
    }
  }

  lemma PairGrows(t: Pair, bufferSize: nat, maxOverlap: int, d: Bytes)
    requires Nests(t) && |t.outer| + t.n1 <= Window(maxOverlap) + 1 && |t.inner| + t.n2 <= Window(maxOverlap) + 1
    ensures var r := PairRedactor(t, bufferSize, maxOverlap); Grows(r, d) && Recognisable(r, d)
  {
    hide Occurs, PairBytes, Nests;
    var r := PairRedactor(t, bufferSize, maxOverlap);
    forall m, e1: nat, e: nat | IsMax(r, d, m) && Occurs(r, d, m.start, e1) && e1 <= e <= m.end
      ensures Occurs(r, d, m.start, e)
    {
      PairOccurs(t, bufferSize, maxOverlap, d, m.start, e1);
      PairOccurs(t, bufferSize, maxOverlap, d, m.start, e);
      PairOccurs(t, bufferSize, maxOverlap, d, m.start, m.end);
      PairCut(t, d, m.start, e1, e, m.end);
    }
    forall m | IsMax(r, d, m) ensures exists e: nat :: Occurs(r, d, m.start, e) && e - m.start <= Overlap(r) + 1 {
      PairOccurs(t, bufferSize, maxOverlap, d, m.start, m.end);
      var e := PairLeast(t, d, m.start, m.end);
      PairOccurs(t, bufferSize, maxOverlap, d, m.start, e);
    }
  }

  lemma PairIsGreedy(t: Pair, bufferSize: nat, maxOverlap: int, c: Bytes)
    ensures GreedyOn(PairRedactor(t, bufferSize, maxOverlap), c)
  {
    TokenTakesLongest(t.outer, t.ranges, t.n1);
    FindFromInOrder(TokenWord(t.outer, t.ranges, t.n1), TokenAt(t.outer, t.ranges, t.n1), c, 0);
    TokenTakesLongest(t.inner, t.ranges, t.n2);
    FindFromInOrder(TokenWord(t.inner, t.ranges, t.n2), TokenAt(t.inner, t.ranges, t.n2), c, 0);
  }

  /** However the input is read, both patterns together are redacted in the stream as in the whole buffer, as long
      as no token is more than a byte longer than a held-back match may grow. */
  lemma PairStreamRefines(t: Pair, bufferSize: nat, maxOverlap: int, d: Bytes, cuts: seq<nat>)
    requires Nests(t) && |t.outer| + t.n1 <= Window(maxOverlap) + 1 && |t.inner| + t.n2 <= Window(maxOverlap) + 1
    requires forall s: nat, e: nat ::
               Occurs(PairRedactor(t, bufferSize, maxOverlap), d, s, e) ==> e - s <= MAX_PENDING_MATCH + 1
    ensures var r := PairRedactor(t, bufferSize, maxOverlap); Separable(r, d) && ReadsDoNotMatter(r, d, cuts)
  {
    hide Valid, Searches, Absorbs, Grows, Recognisable, GreedyOn, Occurs, PairRedactor, Run, FindSpans, Nests;
    var r := PairRedactor(t, bufferSize, maxOverlap);
    PairWorks(t, bufferSize, maxOverlap);
    PairAbsorbs(t, bufferSize, maxOverlap, d);
    PairGrows(t, bufferSize, maxOverlap, d);
    forall lo: nat, hi: nat | lo <= hi <= |d| ensures GreedyOn(r, d[lo..hi]) {
      PairIsGreedy(t, bufferSize, maxOverlap, d[lo..hi]);
    }
    if Cuts(0, cuts, |d|) {
      StreamRefinesWholeBuffer(r, d, cuts);
    }
  }

  /** "~" and three or more letters, and "key" and two or more, are such a pair. */
  lemma PairsExist()
    ensures Nests(Pair([0x7E], 3, [0x6B, 0x65, 0x79], 2, [Range(0x61, 0x7A)]))
  {
    var ranges := [Range(0x61, 0x7A)];
    assert forall x: Rune :: 0x61 <= x <= 0x7A ==> InClass(ranges, x) by {
      assert ranges[0].lo == 0x61 && ranges[0].hi == 0x7A;
    }
  }
}
