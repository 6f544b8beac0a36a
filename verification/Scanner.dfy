/**
 Patterns that can be searched for as the regexp library does, leftmost first and never looking outside
 the match: literals, and tokens that are open at the end. They show that what is assumed of patterns and
 of the library can be met.
 */
module Scanner {
  import opened Utf8
  import opened Folding
  import opened Regex
  import opened Prefilter
  import opened Spans
  import opened Redaction
  import opened Stream
  import opened Wrappers
  import Sorting

  predicate Ascii(w: Bytes) { forall i :: 0 <= i < |w| ==> w[i] < RUNE_SELF }

  // ---- any matcher ----

  /** The matches from pos on, none overlapping the next; `at` says how many of the bytes ahead one takes,
      and 0 if there is none. */
  function FindFrom(at: Bytes -> nat, data: Bytes, pos: nat): seq<Span>
    decreases |data| - pos
  {
    if pos >= |data| then []
    else if 0 < at(data[pos..]) <= |data| - pos then
      [Span(pos, pos + at(data[pos..]))] + FindFrom(at, data, pos + at(data[pos..]))
    else FindFrom(at, data, pos + 1)
  }

  ghost predicate LongestAt(word: Bytes -> bool, at: Bytes -> nat, rest: Bytes) {
    && at(rest) <= |rest|
    && (at(rest) > 0 ==> word(rest[..at(rest)]))
    && forall k: nat :: 0 < k <= |rest| && word(rest[..k]) ==> k <= at(rest)
  }

  /** `at` takes the longest word that starts where it stands. */
  ghost predicate TakesLongest(word: Bytes -> bool, at: Bytes -> nat) {
    forall rest :: LongestAt(word, at, rest)
  }

  /** Words are ASCII and match the tree. */
  ghost predicate Accepts(sf: Rune -> Rune, tree: Regex, word: Bytes -> bool) {
    forall x :: word(x) ==> Ascii(x) && Matches(sf, tree, Runes(x))
  }

  function ScannerPattern(tree: Regex, word: Bytes -> bool, at: Bytes -> nat): Pattern {
    Pattern(tree, word, data => FindFrom(at, data, 0))
  }

  lemma TailSlice(data: Bytes, pos: nat, k: nat)
    requires pos + k <= |data|
    ensures data[pos..][..k] == data[pos..pos + k]
  {
  }

  /** data[start..end] is the longest word that starts there. */
  ghost predicate LongestWord(word: Bytes -> bool, data: Bytes, m: Span) {
    && m.start < m.end <= |data| && word(data[m.start..m.end])
    && forall e: nat :: m.start < e <= |data| && word(data[m.start..e]) ==> e <= m.end
  }

  lemma TakenIsLongest(word: Bytes -> bool, at: Bytes -> nat, data: Bytes, pos: nat)
    requires pos < |data| && LongestAt(word, at, data[pos..]) && at(data[pos..]) > 0
    ensures LongestWord(word, data, Span(pos, pos + at(data[pos..])))
  {
    var n := at(data[pos..]);
    TailSlice(data, pos, n);
    forall e: nat | pos < e <= |data| && word(data[pos..e]) ensures e <= pos + n {
      TailSlice(data, pos, e - pos);
    }
  }

  lemma {:induction false} FindFromInOrder(word: Bytes -> bool, at: Bytes -> nat, data: Bytes, pos: nat)
    requires TakesLongest(word, at) && pos <= |data|
    ensures InOrder(FindFrom(at, data, pos), pos, |data|)
    ensures forall m :: m in FindFrom(at, data, pos) ==> LongestWord(word, data, m)
    decreases |data| - pos
  {
    if pos < |data| {
      var n := at(data[pos..]);
      assert LongestAt(word, at, data[pos..]);
      hide LongestWord, TakesLongest;
      if n > 0 {
        TakenIsLongest(word, at, data, pos);
        FindFromInOrder(word, at, data, pos + n);
      } else {
        FindFromInOrder(word, at, data, pos + 1);
      }
    }
  }

  lemma {:induction false} FindFromMissesNone(word: Bytes -> bool, at: Bytes -> nat, data: Bytes, pos: nat,
                                              s: nat, e: nat)
    requires TakesLongest(word, at) && pos <= s < e <= |data| && word(data[s..e])
    ensures exists m :: m in FindFrom(at, data, pos) && Holds(m, s)
    decreases |data| - pos
  {
    var n := at(data[pos..]);
    assert LongestAt(word, at, data[pos..]);
    if n == 0 {
      TailSlice(data, pos, e - pos);
      FindFromMissesNone(word, at, data, pos + 1, s, e);
    } else if s < pos + n {
      var m := Span(pos, pos + n);
      assert m == FindFrom(at, data, pos)[0];
      assert m in FindFrom(at, data, pos) && Holds(m, s);
    } else {
      FindFromMissesNone(word, at, data, pos + n, s, e);
      var m :| m in FindFrom(at, data, pos + n) && Holds(m, s);
      assert m in FindFrom(at, data, pos);
    }
  }

  lemma DecodeBeforeAscii(a: Bytes, b: Bytes)
    requires a != [] && (b == [] || b[0] < RUNE_SELF)
    ensures DecodeRune(a + b) == DecodeRune(a)
  {
    assert forall i :: 0 <= i < |a| ==> (a + b)[i] == a[i];
  }

  lemma DropOfSum(a: Bytes, b: Bytes, k: nat)
    requires k <= |a|
    ensures (a + b)[k..] == a[k..] + b
  {
  }

  lemma {:induction false} RunesSplitAtAscii(a: Bytes, b: Bytes)
    requires b == [] || b[0] < RUNE_SELF
    ensures Runes(a + b) == Runes(a) + Runes(b)
    decreases |a|
  {
    if a == [] {
      assert a + b == b;
    } else {
      hide DecodeRune;
      DecodeBeforeAscii(a, b);
      assert a + b != [];
      var k := DecodeRune(a).width;
      DropOfSum(a, b, k);
      RunesSplitAtAscii(a[k..], b);
      Sorting.Reassociate([DecodeRune(a).rune], Runes(a[k..]), Runes(b));
    }
  }

  lemma {:induction false} RunesSplitAfterAscii(a: Bytes, b: Bytes)
    requires Ascii(a)
    ensures Runes(a + b) == Runes(a) + Runes(b)
  {
    if a == [] {
      assert a + b == b;
    } else {
      assert (a + b)[1..] == a[1..] + b;
      RunesSplitAfterAscii(a[1..], b);
    }
  }

  /** ASCII words stand on rune boundaries wherever they occur. */
  lemma WordIsMatch(sf: Rune -> Rune, p: Pattern, data: Bytes, m: Span)
    requires Accepts(sf, p.tree, p.word)
    requires m.start < m.end <= |data| && p.word(data[m.start..m.end])
    ensures IsMatchOf(sf, p, data, m)
  {
    hide Runes, Matches;
    var a, w, b := data[..m.start], data[m.start..m.end], data[m.end..];
    assert data == a + (w + b);
    RunesSplitAtAscii(a, w + b);
    RunesSplitAfterAscii(w, b);
    Sorting.Reassociate(Runes(a), Runes(w), Runes(b));
  }

  lemma ScannerIsValid(sf: Rune -> Rune, tree: Regex, word: Bytes -> bool, at: Bytes -> nat)
    requires WellFormed(tree) && Accepts(sf, tree, word) && TakesLongest(word, at)
    ensures ValidPattern(sf, ScannerPattern(tree, word, at))
  {
    var p := ScannerPattern(tree, word, at);
    forall data: Bytes ensures Sequential(p.find(data), 0, |data|) {
      FindFromInOrder(word, at, data, 0);
    }
    forall data: Bytes, m | m in p.find(data) ensures IsMatchOf(sf, p, data, m) {
      FindFromInOrder(word, at, data, 0);
      WordIsMatch(sf, p, data, m);
    }
  }

  lemma ScannerSearches(tree: Regex, word: Bytes -> bool, at: Bytes -> nat, data: Bytes)
    requires TakesLongest(word, at)
    ensures SearchOk(ScannerPattern(tree, word, at), data)
  {
    var p := ScannerPattern(tree, word, at);
    FindFromInOrder(word, at, data, 0);
    forall s: nat, e: nat | s < e <= |data| && p.word(data[s..e])
      ensures exists m :: m in p.find(data) && Holds(m, s)
    {
      FindFromMissesNone(word, at, data, 0, s, e);
    }
  }

  /** A redactor of one pattern, without a prefilter. */
  function OnePattern(p: Pattern, bufferSize: nat, maxOverlap: int): Redactor {
    Redactor(AsciiFold, [p], None, p, bufferSize, maxOverlap)
  }

  lemma ScannerWorks(tree: Regex, word: Bytes -> bool, at: Bytes -> nat, bufferSize: nat, maxOverlap: int)
    requires WellFormed(tree) && Accepts(AsciiFold, tree, word) && TakesLongest(word, at)
    ensures var r := OnePattern(ScannerPattern(tree, word, at), bufferSize, maxOverlap); Valid(r) && Searches(r)
  {
    AsciiFoldIsSimpleFold();
    ScannerIsValid(AsciiFold, tree, word, at);
    forall data ensures SearchOk(ScannerPattern(tree, word, at), data) {
      ScannerSearches(tree, word, at, data);
    }
  }

  lemma TwoWellFormed(a: Regex, b: Regex)
    requires WellFormed(a) && WellFormed(b)
    ensures AllWellFormed([a, b])
  {
    assert [a, b][1..] == [b] && [b][1..] == [];
    assert AllWellFormed([b][1..]);
    assert AllWellFormed([a, b][1..]);
  }

  lemma OnlyWordsOccur(p: Pattern, bufferSize: nat, maxOverlap: int, d: Bytes, s: nat, e: nat)
    ensures Occurs(OnePattern(p, bufferSize, maxOverlap), d, s, e) <==> s < e <= |d| && p.word(d[s..e])
  {
    if s < e <= |d| && p.word(d[s..e]) {
      assert OnePattern(p, bufferSize, maxOverlap).patterns[0].word(d[s..e]);
    }
  }

  // ---- a literal ----

  function LiteralAt(w: Bytes): Bytes -> nat { rest => if w <= rest then |w| else 0 }

  function LiteralPattern(w: Bytes): Pattern {
    ScannerPattern(Literal(w, false), x => x == w, LiteralAt(w))
  }

  function LiteralRedactor(w: Bytes, bufferSize: nat, maxOverlap: int): Redactor {
    OnePattern(LiteralPattern(w), bufferSize, maxOverlap)
  }

  /** What is assumed of patterns and of the regexp library can be met. */
  lemma LiteralRedactorWorks(w: Bytes, bufferSize: nat, maxOverlap: int)
    requires w != [] && Ascii(w)
    ensures Valid(LiteralRedactor(w, bufferSize, maxOverlap)) && Searches(LiteralRedactor(w, bufferSize, maxOverlap))
  {
    var p, at := LiteralPattern(w), LiteralAt(w);
    AsciiRunes(w);
    forall rest ensures LongestAt(p.word, at, rest) {
    }
    ScannerWorks(p.tree, p.word, at, bufferSize, maxOverlap);
  }
}
