/**
 A pattern of two words, one of which may be inside the other: where it may stand for the stream to replace the
 outer one all the same.
 */
module TwoWords {
  import opened Utf8
  import opened Folding
  import opened Regex
  import opened Spans
  import opened Redaction
  import opened Stream
  import opened StreamRefinement
  import opened Scanner
  import opened SinglePattern

  function TwoAt(a: Bytes, b: Bytes): Bytes -> nat {
    rest => if a <= rest then |a| else if b <= rest then |b| else 0
  }

  function TwoWord(a: Bytes, b: Bytes): Bytes -> bool { x => x == a || x == b }

  function TwoTree(a: Bytes, b: Bytes): Regex { Alternate([Literal(a, false), Literal(b, false)]) }

  /** a|b */
  function TwoRedactor(a: Bytes, b: Bytes, bufferSize: nat, maxOverlap: int): Redactor {
    SingleRedactor(TwoTree(a, b), TwoWord(a, b), TwoAt(a, b), bufferSize, maxOverlap)
  }

  lemma TwoIsLongest(a: Bytes, b: Bytes, rest: Bytes)
    requires |b| <= |a|
    ensures LongestAt(TwoWord(a, b), TwoAt(a, b), rest)
  {
    if a <= rest {
      assert rest[..|a|] == a;
    } else if b <= rest {
      assert rest[..|b|] == b;
    }
  }

  lemma TwoIsScanner(a: Bytes, b: Bytes)
    requires Ascii(a) && Ascii(b) && |b| <= |a|
    ensures IsScanner(TwoTree(a, b), TwoWord(a, b), TwoAt(a, b))
  {
    var tree, word, at := TwoTree(a, b), TwoWord(a, b), TwoAt(a, b);
    TwoWellFormed(Literal(a, false), Literal(b, false));
    forall x: Bytes | word(x) ensures Ascii(x) && Matches(AsciiFold, tree, Runes(x)) {
      AsciiRunes(x);
      assert Matches(AsciiFold, tree.subs[if x == a then 0 else 1], x);
    }
    forall rest ensures LongestAt(word, at, rest) {
      TwoIsLongest(a, b, rest);
    }
  }

  /** The inner word stands nowhere in the outer one but at its end or a byte before that. */
  ghost predicate EndsWithOuter(a: Bytes, b: Bytes) {
    forall p: nat :: OccursAt(a, p, b) ==> |a| <= p + |b| + 1
  }

  lemma FoundIsInner(a: Bytes, b: Bytes, w: Bytes, j: nat, m: Span)
    requires |b| <= |a| && TwoWord(a, b)(w) && j < |w| && m in FindFrom(TwoAt(a, b), w[..j], 0)
    ensures w == a && m.end == m.start + |b| <= j && OccursAt(a, m.start, b)
  {
    var word, at := TwoWord(a, b), TwoAt(a, b);
    forall rest ensures LongestAt(word, at, rest) {
      TwoIsLongest(a, b, rest);
    }
    FindFromInOrder(word, at, w[..j], 0);
    hide TwoAt, FindFrom, InOrder;
    assert LongestWord(word, w[..j], m);
    assert w[..j][m.start..m.end] == w[m.start..m.end];
    assert |w[m.start..m.end]| == m.end - m.start;
  }

  lemma PromptIffEndsWithOuter(a: Bytes, b: Bytes)
    requires 0 < |b| <= |a|
    ensures Prompt(TwoWord(a, b), TwoAt(a, b)) <==> EndsWithOuter(a, b)
  {
    var word, at := TwoWord(a, b), TwoAt(a, b);
    forall rest ensures LongestAt(word, at, rest) {
      TwoIsLongest(a, b, rest);
    }
    hide TwoAt, FindFrom;
    if EndsWithOuter(a, b) {
      forall w, j: nat, m | word(w) && j < |w| && m in FindFrom(at, w[..j], 0) ensures m.end == j {
        FoundIsInner(a, b, w, j, m);
      }
    }
    if Prompt(word, at) {
      forall p: nat | OccursAt(a, p, b) ensures |a| <= p + |b| + 1 {
        var j := p + |b| + 1;
        if j < |a| {
          assert a[..j][p..p + |b|] == b;
          FindFromMissesNone(word, at, a[..j], 0, p, p + |b|);
          var m :| m in FindFrom(at, a[..j], 0) && Holds(m, p);
          FoundIsInner(a, b, a, j, m);
        }
      }
    }
  }

  /** For every buffer size and window that both words fit: their pattern is redacted in the stream as in the whole
      buffer, for all inputs and reads, exactly if the inner word ends at most a byte before the outer one. */
  lemma TwoWordsRefineExactly(a: Bytes, b: Bytes, bufferSize: nat, maxOverlap: int)
    requires Ascii(a) && Ascii(b) && 0 < |b| <= |a| <= Stream.Min(Window(maxOverlap), MAX_PENDING_MATCH) + 1
    ensures (forall d, cuts :: ReadsDoNotMatter(TwoRedactor(a, b, bufferSize, maxOverlap), d, cuts))
       <==> EndsWithOuter(a, b)
  {
    assert TwoRedactor(a, b, bufferSize, maxOverlap)
        == SingleRedactor(TwoTree(a, b), TwoWord(a, b), TwoAt(a, b), bufferSize, maxOverlap);
    hide ReadsDoNotMatter, Prompt, EndsWithOuter, IsScanner, SingleRedactor, Ascii;
    TwoIsScanner(a, b);
    PromptIffEndsWithOuter(a, b);
    ShortWordsRefineIffPrompt(TwoTree(a, b), TwoWord(a, b), TwoAt(a, b), bufferSize, maxOverlap);
  }

  const ABCD: Bytes := [0x61, 0x62, 0x63, 0x64]

  /** abcd|b and abcd|ab are not redacted alike in every stream, though all words fit the window; abc|b is. */
  lemma InnerWordIsTakenEarly(bufferSize: nat, maxOverlap: int)
    requires Window(maxOverlap) >= 3
    ensures exists d, cuts :: !ReadsDoNotMatter(TwoRedactor(ABCD, ABCD[1..2], bufferSize, maxOverlap), d, cuts)
    ensures exists d, cuts :: !ReadsDoNotMatter(TwoRedactor(ABCD, ABCD[..2], bufferSize, maxOverlap), d, cuts)
    ensures forall d, cuts :: ReadsDoNotMatter(TwoRedactor(ABCD[..3], ABCD[1..2], bufferSize, maxOverlap), d, cuts)
  {
    hide ReadsDoNotMatter, TwoRedactor;
    TwoWordsRefineExactly(ABCD, ABCD[1..2], bufferSize, maxOverlap);
    TwoWordsRefineExactly(ABCD, ABCD[..2], bufferSize, maxOverlap);
    TwoWordsRefineExactly(ABCD[..3], ABCD[1..2], bufferSize, maxOverlap);
    assert ABCD[..3][0..1][0] != ABCD[1..2][0];
    assert OccursAt(ABCD, 1, ABCD[1..2]) && OccursAt(ABCD, 0, ABCD[..2]);
  }
}
