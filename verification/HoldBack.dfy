/**
 How long a secret the hold-back window of RedactStream is good for: exactly one byte more than
 maxOverlap, both for catching it and for replacing what the whole buffer would.
 */
module HoldBack {
  import opened Utf8
  import opened Spans
  import opened Redaction
  import opened Stream
  import opened StreamRefinement
  import opened Scanner
  import opened OneLength

  // ---- catching ----

  /** RedactStream lets the occurrence of n bytes at s go by without touching any of it. */
  ghost predicate EmitsWhole(r: Redactor, d: Bytes, cuts: seq<nat>, s: nat, n: nat) {
    && Valid(r) && Searches(r) && Cuts(0, cuts, |d|) && Occurs(r, d, s, s + n)
    && !Touches(Run(r, d, 0, cuts, true).spans, s, s + n)
  }

  lemma NoOccurrenceNoSpans(r: Redactor, c: Bytes)
    requires Valid(r) && Searches(r)
    requires forall s: nat, e: nat :: !Occurs(r, c, s, e)
    ensures FindSpans(r, c) == []
  {
    var ranges := SpansOf(r, c);
    if FindSpans(r, c) != [] {
      var m := FindSpans(r, c)[0];
      assert Holds(m, m.start);
      var i :| 0 <= i < |ranges| && Holds(ranges[i], m.start);
      FoundOccurs(r, c, ranges[i]);
    }
  }

  lemma OnlyLiteralOccurs(w: Bytes, bufferSize: nat, maxOverlap: int, d: Bytes, s: nat, e: nat)
    requires w != []
    ensures Occurs(LiteralRedactor(w, bufferSize, maxOverlap), d, s, e) <==> OccursAt(d, s, w) && e == s + |w|
  {
    OnlyWordsOccur(LiteralPattern(w), bufferSize, maxOverlap, d, s, e);
    if s < e <= |d| {
      assert |d[s..e]| == e - s;
    }
  }

  lemma NoWordInPart(w: Bytes, bufferSize: nat, maxOverlap: int, c: Bytes)
    requires w != [] && Ascii(w) && forall s: nat :: !OccursAt(c, s, w)
    ensures Valid(LiteralRedactor(w, bufferSize, maxOverlap))
    ensures FindSpans(LiteralRedactor(w, bufferSize, maxOverlap), c) == []
  {
    hide Valid, Searches, Occurs;
    var r := LiteralRedactor(w, bufferSize, maxOverlap);
    LiteralRedactorWorks(w, bufferSize, maxOverlap);
    forall s: nat, e: nat ensures !Occurs(r, c, s, e) {
      OnlyLiteralOccurs(w, bufferSize, maxOverlap, c, s, e);
    }
    NoOccurrenceNoSpans(r, c);
  }

  /** n bytes that are not the first byte of w. */
  function Filling(w: Bytes, n: nat): Bytes
    requires w != []
  {
    seq(n, _ => if w[0] == 0x78 then 0x79 else 0x78)
  }

  lemma ScanFindsNothing(r: Redactor, d: Bytes, start: nat, pos: nat, atEOF: bool)
    requires Valid(r) && start + Overlap(r) <= pos <= |d| && FindSpans(r, d[start..pos]) == []
    ensures ScanAt(r, d, start, pos, atEOF) == Emit([], if atEOF then pos else pos - Overlap(r))
  {
  }

  /** A run that scans once at cut, and again at the end, and finds nothing either time. */
  lemma RunFindsNothing(r: Redactor, d: Bytes, cut: nat)
    requires Valid(r) && ScanThreshold(r) <= cut <= |d|
    requires FindSpans(r, d[0..cut]) == [] && FindSpans(r, d[cut - Overlap(r)..|d|]) == []
    ensures Cuts(0, [cut], |d|) && Run(r, d, 0, [cut], true).spans == []
  {
    hide Valid, FindSpans, ScanAt;
    assert Cuts(cut, [], |d|);
    ScanFindsNothing(r, d, 0, cut, false);
    ScanFindsNothing(r, d, cut - Overlap(r), |d|, true);
  }

  /** Without its last byte w is nowhere behind a filling: not in it, for want of its first byte, and not after
      it, for want of room. */
  lemma NotYetThere(w: Bytes, fill: nat, s: nat)
    requires w != []
    ensures !OccursAt((Filling(w, fill) + w)[0..fill + |w| - 1], s, w)
  {
    if s < fill {
      assert (Filling(w, fill) + w)[0..fill + |w| - 1][s] == Filling(w, fill)[s];
    }
  }

  lemma EndOfFilled(w: Bytes, fill: nat)
    requires w != []
    ensures OccursAt(Filling(w, fill) + w, fill, w)
  {
  }

  lemma LiteralShape(w: Bytes, bufferSize: nat, maxOverlap: int)
    ensures var r := LiteralRedactor(w, bufferSize, maxOverlap);
            r.bufferSize == bufferSize && r.maxOverlap == maxOverlap && HasLength(r, |w|)
  {
  }

  lemma FilledLength(w: Bytes, fill: nat)
    requires w != []
    ensures |Filling(w, fill) + w| == fill + |w|
  {
  }

  /** Read up to its last byte, a secret of more than maxOverlap + 1 bytes is not yet seen, and its first
      bytes go out; what is left of it is not a secret. */
  lemma LongSecretEscapes(w: Bytes, bufferSize: nat, maxOverlap: int)
    requires Ascii(w) && |w| > Window(maxOverlap) + 1
    ensures EmitsWhole(LiteralRedactor(w, bufferSize, maxOverlap), Filling(w, bufferSize) + w,
                       [bufferSize + |w| - 1], bufferSize, |w|)
  {
    hide Valid, Searches, FindSpans, Run, Filling, LiteralRedactor, Occurs;
    var r := LiteralRedactor(w, bufferSize, maxOverlap);
    var d := Filling(w, bufferSize) + w;
    var cut := bufferSize + |w| - 1;
    LiteralShape(w, bufferSize, maxOverlap);
    LiteralRedactorWorks(w, bufferSize, maxOverlap);
    EndOfFilled(w, bufferSize);
    FilledLength(w, bufferSize);
    OnlyLiteralOccurs(w, bufferSize, maxOverlap, d, bufferSize, bufferSize + |w|);
    forall s: nat ensures !OccursAt(d[0..cut], s, w) {
      NotYetThere(w, bufferSize, s);
    }
    NoWordInPart(w, bufferSize, maxOverlap, d[0..cut]);
    NoWordInPart(w, bufferSize, maxOverlap, d[cut - Overlap(r)..|d|]);
    RunFindsNothing(r, d, cut);
  }

  lemma ShortSecretIsCaught(r: Redactor, d: Bytes, cuts: seq<nat>, s: nat, n: nat)
    requires n <= Window(r.maxOverlap) + 1
    ensures !EmitsWhole(r, d, cuts, s, n)
  {
    hide Valid, Searches, Run;
    if Valid(r) && Searches(r) && Cuts(0, cuts, |d|) && Occurs(r, d, s, s + n) {
      NoOccurrenceIsEmittedWhole(r, d, 0, cuts, true, s, s + n);
    }
  }

  /** A secret that ends in a byte of its own. */
  function Secret(k: nat): (w: Bytes)
    ensures |w| == k + 1 && Ascii(w)
  {
    seq(k, _ => 0x61) + [0x62]
  }

  /** For every buffer size and window: some secret of n bytes can go by whole exactly if n is more than one
      byte over the window. */
  lemma HoldBackIsExact(bufferSize: nat, maxOverlap: int, n: nat)
    ensures (forall r: Redactor, d, cuts, s: nat :: r.bufferSize == bufferSize && r.maxOverlap == maxOverlap ==>
                                                      !EmitsWhole(r, d, cuts, s, n))
       <==> n <= Window(maxOverlap) + 1
  {
    hide EmitsWhole, Secret;
    if n <= Window(maxOverlap) + 1 {
      forall r: Redactor, d, cuts, s: nat | r.maxOverlap == maxOverlap ensures !EmitsWhole(r, d, cuts, s, n) {
        ShortSecretIsCaught(r, d, cuts, s, n);
      }
    } else {
      LongSecretEscapes(Secret(n - 1), bufferSize, maxOverlap);
    }
  }

  // ---- replacing what the whole buffer would ----

  /** What goes by whole in the stream does not in the whole buffer. */
  lemma EscapeIsVisible(r: Redactor, d: Bytes, cuts: seq<nat>, s: nat, n: nat)
    requires EmitsWhole(r, d, cuts, s, n)
    ensures !ReadsDoNotMatter(r, d, cuts)
  {
    hide Valid, Searches, Run, FindSpans, Cuts;
    var i := OccursIsHeld(r, d, s, s + n);
    OccursNonEmpty(r, d, s, s + n);
    assert Touches(FindSpans(r, d), s, s + n);
  }

  /** A redactor of one literal treats every stream as it does the whole buffer exactly if the literal is at most
      a byte longer than the window. It may overlap itself. */
  lemma RefinementIsExact(w: Bytes, bufferSize: nat, maxOverlap: int)
    requires w != [] && Ascii(w)
    ensures (forall d, cuts :: ReadsDoNotMatter(LiteralRedactor(w, bufferSize, maxOverlap), d, cuts))
       <==> |w| <= Window(maxOverlap) + 1
  {
    hide Valid, Searches, Run, FindSpans, HasLength, EmitsWhole, LiteralRedactor;
    var r := LiteralRedactor(w, bufferSize, maxOverlap);
    LiteralShape(w, bufferSize, maxOverlap);
    LiteralRedactorWorks(w, bufferSize, maxOverlap);
    if |w| <= Window(maxOverlap) + 1 {
      forall d, cuts ensures ReadsDoNotMatter(r, d, cuts) {
        if Cuts(0, cuts, |d|) {
          OneLengthStreamRefines(r, |w|, d, cuts);
        }
      }
    } else {
      LongSecretEscapes(w, bufferSize, maxOverlap);
      EscapeIsVisible(r, Filling(w, bufferSize) + w, [bufferSize + |w| - 1], bufferSize, |w|);
    }
  }

  lemma BytesOfSecret(k: nat, d: Bytes, s: nat)
    requires OccursAt(d, s, Secret(k))
    ensures s + k < |d|
    ensures d[s + k] == 0x62 && forall p :: s <= p < s + k ==> d[p] == 0x61
  {
    assert d[s + k] == d[s..s + k + 1][k];
    assert forall p :: s <= p < s + k ==> d[p] == d[s..s + k + 1][p - s];
  }

  /** The last byte of Secret(k) is in no other place of it, so its occurrences never overlap. */
  lemma SecretsAreDisjoint(bufferSize: nat, maxOverlap: int, k: nat, d: Bytes)
    ensures DisjointWithin(LiteralRedactor(Secret(k), bufferSize, maxOverlap), d, k + 1)
  {
    hide Occurs, LiteralRedactor, Secret;
    var r := LiteralRedactor(Secret(k), bufferSize, maxOverlap);
    forall s1: nat, e1: nat, s2: nat, e2: nat
      | Occurs(r, d, s1, e1) && Occurs(r, d, s2, e2) && s1 < e2 && s2 < e1
      ensures s1 == s2 && e1 == e2
    {
      OnlyLiteralOccurs(Secret(k), bufferSize, maxOverlap, d, s1, e1);
      OnlyLiteralOccurs(Secret(k), bufferSize, maxOverlap, d, s2, e2);
      BytesOfSecret(k, d, s1);
      BytesOfSecret(k, d, s2);
    }
    forall s: nat, e: nat | Occurs(r, d, s, e) ensures e - s <= k + 1 {
      OnlyLiteralOccurs(Secret(k), bufferSize, maxOverlap, d, s, e);
    }
  }

  /** A redactor and an input of disjoint secrets of at most n bytes, read in some way. */
  ghost predicate ReadsShortSecrets(r: Redactor, bufferSize: nat, maxOverlap: int, d: Bytes, n: nat) {
    && r.bufferSize == bufferSize && r.maxOverlap == maxOverlap
    && Valid(r) && Searches(r) && DisjointWithin(r, d, n)
  }

  lemma ShortSecretsRefine(r: Redactor, bufferSize: nat, maxOverlap: int, d: Bytes, n: nat, cuts: seq<nat>)
    requires ReadsShortSecrets(r, bufferSize, maxOverlap, d, n) && n <= Window(maxOverlap) + 1
    ensures ReadsDoNotMatter(r, d, cuts)
  {
    hide Valid, Searches, DisjointWithin, Run, FindSpans;
    if Cuts(0, cuts, |d|) {
      StreamRefinesWholeBufferWhenDisjoint(r, d, n, cuts);
    }
  }

  /** For every buffer size and window: all redactors treat all streams of pairwise disjoint secrets of at most n
      bytes as they do the whole buffer, exactly if n is at most a byte more than the window. */
  lemma DisjointRefinementIsExact(bufferSize: nat, maxOverlap: int, n: nat)
    ensures (forall r, d, cuts :: ReadsShortSecrets(r, bufferSize, maxOverlap, d, n) ==> ReadsDoNotMatter(r, d, cuts))
       <==> n <= Window(maxOverlap) + 1
  {
    hide Valid, Searches, DisjointWithin, ReadsDoNotMatter, EmitsWhole, LiteralRedactor, Secret;
    if n <= Window(maxOverlap) + 1 {
      forall r, d, cuts | ReadsShortSecrets(r, bufferSize, maxOverlap, d, n) ensures ReadsDoNotMatter(r, d, cuts) {
        ShortSecretsRefine(r, bufferSize, maxOverlap, d, n, cuts);
      }
    } else {
      var w := Secret(n - 1);
      var r, d, cuts := LiteralRedactor(w, bufferSize, maxOverlap), Filling(w, bufferSize) + w, [bufferSize + n - 1];
      LiteralShape(w, bufferSize, maxOverlap);
      LiteralRedactorWorks(w, bufferSize, maxOverlap);
      SecretsAreDisjoint(bufferSize, maxOverlap, n - 1, d);
      LongSecretEscapes(w, bufferSize, maxOverlap);
      EscapeIsVisible(r, d, cuts, bufferSize, n);
      assert ReadsShortSecrets(r, bufferSize, maxOverlap, d, n);
    }
  }
}
