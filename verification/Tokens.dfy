/**
 A token that is open at the end: a prefix, then n or more bytes of a class. How long the least and the longest
 token may be for the stream to replace what the whole buffer would.
 */
module Tokens {
  import opened Utf8
  import opened Folding
  import opened Regex
  import opened Prefilter
  import opened Spans
  import opened Redaction
  import opened Stream
  import opened StreamRefinement
  import opened Scanner
  import opened SinglePattern

  // ---- a prefix, then n or more bytes of a class ----

  predicate AllIn(ranges: seq<Range>, s: Bytes) { forall i :: 0 <= i < |s| ==> InClass(ranges, s[i]) }

  predicate IsToken(prefix: Bytes, ranges: seq<Range>, n: nat, x: Bytes) {
    |prefix| + n <= |x| && prefix <= x && AllIn(ranges, x[|prefix|..])
  }

  /** How many bytes at the head of s are in the class. */
  function RunLength(ranges: seq<Range>, s: Bytes): (k: nat)
    ensures k <= |s| && AllIn(ranges, s[..k]) && (k < |s| ==> !InClass(ranges, s[k]))
  {
    if s == [] || !InClass(ranges, s[0]) then 0 else 1 + RunLength(ranges, s[1..])
  }

  lemma {:induction false} RunIsLongest(ranges: seq<Range>, s: Bytes, k: nat)
    requires k <= |s| && AllIn(ranges, s[..k])
    ensures k <= RunLength(ranges, s)
  {
    if k > 0 {
      assert s[..k][0] == s[0];
      assert s[1..][..k - 1] == s[..k][1..];
      RunIsLongest(ranges, s[1..], k - 1);
    }
  }

  function TokenWord(prefix: Bytes, ranges: seq<Range>, n: nat): Bytes -> bool { x => IsToken(prefix, ranges, n, x) }

  function TokenAt(prefix: Bytes, ranges: seq<Range>, n: nat): Bytes -> nat {
    rest => if prefix <= rest && RunLength(ranges, rest[|prefix|..]) >= n
            then |prefix| + RunLength(ranges, rest[|prefix|..]) else 0
  }

  function TokenPattern(prefix: Bytes, ranges: seq<Range>, n: nat): Pattern {
    ScannerPattern(Concat([Literal(prefix, false), Repeat(CharClass(ranges), n, -1)]),
                   TokenWord(prefix, ranges, n), TokenAt(prefix, ranges, n))
  }

  predicate AsciiToken(prefix: Bytes, ranges: seq<Range>) {
    prefix != [] && Ascii(prefix) && forall i :: 0 <= i < |ranges| ==> ranges[i].hi < RUNE_SELF
  }

  /** The first byte of the prefix is neither in the class nor again in the prefix. */
  predicate Marked(prefix: Bytes, ranges: seq<Range>) {
    && AsciiToken(prefix, ranges) && !InClass(ranges, prefix[0])
    && (forall i :: 0 < i < |prefix| ==> prefix[i] != prefix[0])
  }

  lemma {:induction false} LettersRepeat(sf: Rune -> Rune, ranges: seq<Range>, w: seq<Rune>)
    requires forall i :: 0 <= i < |w| ==> InClass(ranges, w[i])
    ensures Repeats(sf, CharClass(ranges), |w|, w)
  {
    if w != [] {
      LettersRepeat(sf, ranges, w[1..]);
      assert w[..1] == [w[0]];
      assert Matches(sf, CharClass(ranges), w[..1]);
    }
  }

  lemma RepeatMatches(sf: Rune -> Rune, ranges: seq<Range>, n: nat, w: seq<Rune>)
    requires n <= |w| && forall i :: 0 <= i < |w| ==> InClass(ranges, w[i])
    ensures MatchesAll(sf, [Repeat(CharClass(ranges), n, -1)], w)
  {
    LettersRepeat(sf, ranges, w);
    var re := Repeat(CharClass(ranges), n, -1);
    assert Matches(sf, re, w);
    assert w[..|w|] == w && w[|w|..] == [];
    assert MatchesAll(sf, [re][1..], w[|w|..]);
  }

  lemma TokenMatches(sf: Rune -> Rune, prefix: Bytes, ranges: seq<Range>, n: nat, x: Bytes)
    requires AsciiToken(prefix, ranges) && IsToken(prefix, ranges, n, x)
    ensures Ascii(x) && Matches(sf, TokenPattern(prefix, ranges, n).tree, Runes(x))
  {
    forall i | 0 <= i < |x| ensures x[i] < RUNE_SELF {
      if i < |prefix| {
        assert x[i] == prefix[i];
      } else {
        assert x[i] == x[|prefix|..][i - |prefix|];
      }
    }
    AsciiRunes(x);
    var letters := Repeat(CharClass(ranges), n, -1);
    RepeatMatches(sf, ranges, n, x[|prefix|..]);
    assert x[..|prefix|] == prefix;
    assert Matches(sf, Literal(prefix, false), x[..|prefix|]);
    assert [Literal(prefix, false), letters][1..] == [letters];
  }

  lemma TokenIsTaken(prefix: Bytes, ranges: seq<Range>, n: nat, rest: Bytes)
    requires TokenAt(prefix, ranges, n)(rest) > 0
    ensures TokenAt(prefix, ranges, n)(rest) <= |rest|
    ensures IsToken(prefix, ranges, n, rest[..TokenAt(prefix, ranges, n)(rest)])
  {
    hide AllIn;
    var tail := rest[|prefix|..];
    var k := RunLength(ranges, tail);
    assert rest[..|prefix| + k][|prefix|..] == tail[..k];
  }

  lemma NoLongerToken(prefix: Bytes, ranges: seq<Range>, n: nat, rest: Bytes, k: nat)
    requires k <= |rest| && IsToken(prefix, ranges, n, rest[..k])
    ensures k <= TokenAt(prefix, ranges, n)(rest)
  {
    hide AllIn;
    var tail := rest[|prefix|..];
    assert rest[..|prefix|] == rest[..k][..|prefix|];
    assert rest[..k][|prefix|..] == tail[..k - |prefix|];
    RunIsLongest(ranges, tail, k - |prefix|);
  }

  lemma TokenIsLongest(prefix: Bytes, ranges: seq<Range>, n: nat, rest: Bytes)
    ensures LongestAt(TokenWord(prefix, ranges, n), TokenAt(prefix, ranges, n), rest)
  {
    hide IsToken, RunLength;
    if TokenAt(prefix, ranges, n)(rest) > 0 {
      TokenIsTaken(prefix, ranges, n, rest);
    }
    forall k: nat | 0 < k <= |rest| && IsToken(prefix, ranges, n, rest[..k])
      ensures k <= TokenAt(prefix, ranges, n)(rest)
    {
      NoLongerToken(prefix, ranges, n, rest, k);
    }
  }

  function TokenRedactor(prefix: Bytes, ranges: seq<Range>, n: nat, bufferSize: nat, maxOverlap: int): Redactor {
    OnePattern(TokenPattern(prefix, ranges, n), bufferSize, maxOverlap)
  }

  lemma TokenTakesLongest(prefix: Bytes, ranges: seq<Range>, n: nat)
    ensures TakesLongest(TokenWord(prefix, ranges, n), TokenAt(prefix, ranges, n))
  {
    var word, at := TokenWord(prefix, ranges, n), TokenAt(prefix, ranges, n);
    forall rest ensures LongestAt(word, at, rest) {
      TokenIsLongest(prefix, ranges, n, rest);
    }
  }

  lemma TokenAccepts(sf: Rune -> Rune, prefix: Bytes, ranges: seq<Range>, n: nat)
    requires AsciiToken(prefix, ranges)
    ensures WellFormed(TokenPattern(prefix, ranges, n).tree)
    ensures Accepts(sf, TokenPattern(prefix, ranges, n).tree, TokenWord(prefix, ranges, n))
  {
    forall x | TokenWord(prefix, ranges, n)(x)
      ensures Ascii(x) && Matches(sf, TokenPattern(prefix, ranges, n).tree, Runes(x))
    {
      TokenMatches(sf, prefix, ranges, n, x);
    }
    TwoWellFormed(Literal(prefix, false), Repeat(CharClass(ranges), n, -1));
  }

  /** What is assumed of a pattern and of its search. */
  lemma TokenWorks(prefix: Bytes, ranges: seq<Range>, n: nat)
    requires AsciiToken(prefix, ranges)
    ensures ValidPattern(AsciiFold, TokenPattern(prefix, ranges, n))
    ensures forall data :: SearchOk(TokenPattern(prefix, ranges, n), data)
  {
    var p, at := TokenPattern(prefix, ranges, n), TokenAt(prefix, ranges, n);
    TokenTakesLongest(prefix, ranges, n);
    TokenAccepts(AsciiFold, prefix, ranges, n);
    ScannerIsValid(AsciiFold, p.tree, p.word, at);
    forall data ensures SearchOk(p, data) {
      ScannerSearches(p.tree, p.word, at, data);
    }
  }

  lemma TokenRedactorWorks(prefix: Bytes, ranges: seq<Range>, n: nat, bufferSize: nat, maxOverlap: int)
    requires AsciiToken(prefix, ranges)
    ensures var r := TokenRedactor(prefix, ranges, n, bufferSize, maxOverlap); Valid(r) && Searches(r)
  {
    AsciiFoldIsSimpleFold();
    TokenWorks(prefix, ranges, n);
  }

  lemma TokenScans(prefix: Bytes, ranges: seq<Range>, n: nat, bufferSize: nat, maxOverlap: int)
    requires AsciiToken(prefix, ranges)
    ensures var r := TokenRedactor(prefix, ranges, n, bufferSize, maxOverlap);
            Overlap(r) == Window(maxOverlap) && ScansFor(r, TokenWord(prefix, ranges, n), TokenAt(prefix, ranges, n))
    ensures forall x :: TokenWord(prefix, ranges, n)(x) ==> Ascii(x)
  {
    var p := TokenPattern(prefix, ranges, n);
    TokenAccepts(AsciiFold, prefix, ranges, n);
    TokenTakesLongest(prefix, ranges, n);
    SingleScans(p.tree, p.word, TokenAt(prefix, ranges, n), bufferSize, maxOverlap);
  }

  /** Where a token occurs, byte by byte. */
  predicate TokenBytes(prefix: Bytes, ranges: seq<Range>, n: nat, d: Bytes, s: nat, e: nat) {
    && s + |prefix| + n <= e <= |d|
    && (forall q :: s <= q < s + |prefix| ==> d[q] == prefix[q - s])
    && forall q :: s + |prefix| <= q < e ==> InClass(ranges, d[q])
  }

  lemma TokenInSlice(prefix: Bytes, ranges: seq<Range>, n: nat, d: Bytes, s: nat, e: nat)
    requires s < e <= |d|
    ensures IsToken(prefix, ranges, n, d[s..e]) <==> TokenBytes(prefix, ranges, n, d, s, e)
  {
    var x := d[s..e];
    if |prefix| + n <= |x| {
      forall q | s <= q < e ensures d[q] == x[q - s] {
      }
      assert prefix <= x <==> forall i :: 0 <= i < |prefix| ==> prefix[i] == x[i];
      forall q | s + |prefix| <= q < e ensures d[q] == x[|prefix|..][q - s - |prefix|] {
      }
      forall i | 0 <= i < |x[|prefix|..]| ensures x[|prefix|..][i] == d[s + |prefix| + i] {
      }
    }
  }

  lemma TokenOccurs(prefix: Bytes, ranges: seq<Range>, n: nat, bufferSize: nat, maxOverlap: int, d: Bytes,
                    s: nat, e: nat)
    requires prefix != []
    ensures Occurs(TokenRedactor(prefix, ranges, n, bufferSize, maxOverlap), d, s, e) <==>
            TokenBytes(prefix, ranges, n, d, s, e)
  {
    OnlyWordsOccur(TokenPattern(prefix, ranges, n), bufferSize, maxOverlap, d, s, e);
    if s < e <= |d| {
      TokenInSlice(prefix, ranges, n, d, s, e);
    }
  }

  /** Two tokens never overlap unless they start together. */
  lemma TokensStandApart(prefix: Bytes, ranges: seq<Range>, n: nat, d: Bytes, s1: nat, e1: nat, s2: nat, e2: nat)
    requires Marked(prefix, ranges)
    requires TokenBytes(prefix, ranges, n, d, s1, e1) && TokenBytes(prefix, ranges, n, d, s2, e2) && s1 <= s2 < e1
    ensures s1 == s2
  {
    assert d[s2] == prefix[0];
    assert s2 < s1 + |prefix| ==> d[s2] == prefix[s2 - s1];
  }

  lemma MarkedPrefix(prefix: Bytes, ranges: seq<Range>)
    requires Marked(prefix, ranges)
    ensures prefix != []
  {
  }

  lemma TokensAbsorb(prefix: Bytes, ranges: seq<Range>, n: nat, bufferSize: nat, maxOverlap: int, d: Bytes)
    requires Marked(prefix, ranges)
    ensures Absorbs(TokenRedactor(prefix, ranges, n, bufferSize, maxOverlap), d)
  {
    hide Occurs, TokenRedactor, TokenBytes, Marked;
    var r := TokenRedactor(prefix, ranges, n, bufferSize, maxOverlap);
    MarkedPrefix(prefix, ranges);
    forall s1: nat, e1: nat, s2: nat, e2: nat
      | Occurs(r, d, s1, e1) && Occurs(r, d, s2, e2) && s1 <= s2 < e1
      ensures Occurs(r, d, s1, e2)
    {
      TokenOccurs(prefix, ranges, n, bufferSize, maxOverlap, d, s1, e1);
      TokenOccurs(prefix, ranges, n, bufferSize, maxOverlap, d, s2, e2);
      TokensStandApart(prefix, ranges, n, d, s1, e1, s2, e2);
    }
  }

  lemma TokenCut(prefix: Bytes, ranges: seq<Range>, n: nat, d: Bytes, s: nat, e: nat, e2: nat)
    requires TokenBytes(prefix, ranges, n, d, s, e2) && s + |prefix| + n <= e <= e2
    ensures TokenBytes(prefix, ranges, n, d, s, e)
  {
  }

  lemma TokenLeast(prefix: Bytes, ranges: seq<Range>, n: nat, d: Bytes, s: nat, e: nat)
    requires TokenBytes(prefix, ranges, n, d, s, e)
    ensures s + |prefix| + n <= e
  {
  }

  lemma TokensGrow(prefix: Bytes, ranges: seq<Range>, n: nat, bufferSize: nat, maxOverlap: int, d: Bytes)
    requires prefix != [] && |prefix| + n <= Window(maxOverlap) + 1
    ensures var r := TokenRedactor(prefix, ranges, n, bufferSize, maxOverlap); Grows(r, d) && Recognisable(r, d)
  {
    hide Occurs, TokenBytes;
    var r := TokenRedactor(prefix, ranges, n, bufferSize, maxOverlap);
    forall m, e1: nat, e: nat | IsMax(r, d, m) && Occurs(r, d, m.start, e1) && e1 <= e <= m.end
      ensures Occurs(r, d, m.start, e)
    {
      TokenOccurs(prefix, ranges, n, bufferSize, maxOverlap, d, m.start, e1);
      TokenOccurs(prefix, ranges, n, bufferSize, maxOverlap, d, m.start, e);
      TokenOccurs(prefix, ranges, n, bufferSize, maxOverlap, d, m.start, m.end);
      TokenLeast(prefix, ranges, n, d, m.start, e1);
      TokenCut(prefix, ranges, n, d, m.start, e, m.end);
    }
    forall m | IsMax(r, d, m) ensures exists e: nat :: Occurs(r, d, m.start, e) && e - m.start <= Overlap(r) + 1 {
      var e := m.start + |prefix| + n;
      TokenOccurs(prefix, ranges, n, bufferSize, maxOverlap, d, m.start, m.end);
      TokenLeast(prefix, ranges, n, d, m.start, m.end);
      TokenCut(prefix, ranges, n, d, m.start, e, m.end);
      TokenOccurs(prefix, ranges, n, bufferSize, maxOverlap, d, m.start, e);
    }
  }

  lemma ScannerIsGreedy(tree: Regex, word: Bytes -> bool, at: Bytes -> nat, bufferSize: nat, maxOverlap: int, c: Bytes)
    requires TakesLongest(word, at)
    ensures GreedyOn(OnePattern(ScannerPattern(tree, word, at), bufferSize, maxOverlap), c)
  {
    FindFromInOrder(word, at, c, 0);
  }

  /** Marked tokens whose least one fits the window, and none longer than a held-back match may grow, can be told
      apart in time. */
  lemma TokensAreSeparable(prefix: Bytes, ranges: seq<Range>, n: nat, bufferSize: nat, maxOverlap: int, d: Bytes)
    requires Marked(prefix, ranges) && |prefix| + n <= Window(maxOverlap) + 1
    requires var r := TokenRedactor(prefix, ranges, n, bufferSize, maxOverlap);
             forall s: nat, e: nat :: Occurs(r, d, s, e) ==> e - s <= MAX_PENDING_MATCH + 1
    ensures Separable(TokenRedactor(prefix, ranges, n, bufferSize, maxOverlap), d)
  {
    var r := TokenRedactor(prefix, ranges, n, bufferSize, maxOverlap);
    var p := TokenPattern(prefix, ranges, n);
    TokensAbsorb(prefix, ranges, n, bufferSize, maxOverlap, d);
    TokensGrow(prefix, ranges, n, bufferSize, maxOverlap, d);
    TokenTakesLongest(prefix, ranges, n);
    forall lo: nat, hi: nat | lo <= hi <= |d| ensures GreedyOn(r, d[lo..hi]) {
      ScannerIsGreedy(p.tree, p.word, TokenAt(prefix, ranges, n), bufferSize, maxOverlap, d[lo..hi]);
    }
    hide Absorbs, Grows, Recognisable, GreedyOn, Occurs, TokenRedactor;
  }

  // ---- how long a token may be ----

  /** No token of d is longer than k bytes. */
  ghost predicate TokensWithin(prefix: Bytes, ranges: seq<Range>, n: nat, d: Bytes, k: nat) {
    forall s: nat, e: nat :: s <= e <= |d| && IsToken(prefix, ranges, n, d[s..e]) ==> e - s <= k
  }

  lemma TokenIsShort(prefix: Bytes, ranges: seq<Range>, n: nat, u: Bytes, s: nat, e: nat)
    requires s <= e <= |u| && IsToken(prefix, ranges, n, u[s..e])
    ensures |prefix| + n <= |u|
  {
  }

  lemma NoTokenYet(prefix: Bytes, ranges: seq<Range>, n: nat, u: Bytes)
    requires |u| < |prefix| + n
    ensures FindFrom(TokenAt(prefix, ranges, n), u, 0) == [] && TokenAt(prefix, ranges, n)(u) == 0
  {
    TokenTakesLongest(prefix, ranges, n);
    hide TakesLongest, TokenAt;
    NothingFound(TokenWord(prefix, ranges, n), TokenAt(prefix, ranges, n), u);
  }

  lemma PartOfToken(prefix: Bytes, ranges: seq<Range>, n: nat, w: Bytes, j: nat)
    requires IsToken(prefix, ranges, n, w) && |prefix| + n <= j <= |w|
    ensures IsToken(prefix, ranges, n, w[..j])
  {
    assert w[..j][|prefix|..] == w[|prefix|..][..j - |prefix|];
  }

  lemma TokenIsFound(prefix: Bytes, ranges: seq<Range>, n: nat, u: Bytes)
    requires prefix != [] && IsToken(prefix, ranges, n, u)
    ensures FindFrom(TokenAt(prefix, ranges, n), u, 0) == [Span(0, |u|)] && TokenAt(prefix, ranges, n)(u) == |u|
  {
    TokenTakesLongest(prefix, ranges, n);
    WordIsFound(TokenWord(prefix, ranges, n), TokenAt(prefix, ranges, n), u);
    FoundWhole(TokenWord(prefix, ranges, n), TokenAt(prefix, ranges, n), u);
  }

  /** The first j bytes of a token are in time exactly if they are few enough: below the least token, for the window,
      and from there on, for being held back. */
  lemma PartIsInTime(prefix: Bytes, ranges: seq<Range>, n: nat, window: nat, w: Bytes, j: nat)
    requires prefix != [] && IsToken(prefix, ranges, n, w) && j < |w|
    ensures InTime(TokenAt(prefix, ranges, n), window, w[..j]) <==>
            if j < |prefix| + n then j <= window else j <= MAX_PENDING_MATCH
  {
    hide IsToken, TokenAt;
    if j < |prefix| + n {
      NoTokenYet(prefix, ranges, n, w[..j]);
    } else {
      PartOfToken(prefix, ranges, n, w, j);
      TokenIsFound(prefix, ranges, n, w[..j]);
      assert Span(0, j) in FindFrom(TokenAt(prefix, ranges, n), w[..j], 0);
    }
  }

  /** How long the tokens of an input may be, whichever way it is read. */
  function LongestToken(least: nat): nat { Max(MAX_PENDING_MATCH + 1, least) }

  lemma TokensAreTimely(prefix: Bytes, ranges: seq<Range>, n: nat, window: nat, d: Bytes, k: nat)
    requires prefix != [] && TokensWithin(prefix, ranges, n, d, k)
    requires k < |prefix| + n || (|prefix| + n <= window + 1 && k <= LongestToken(|prefix| + n))
    ensures TimelyIn(TokenWord(prefix, ranges, n), TokenAt(prefix, ranges, n), window, d)
  {
    hide IsToken, TokenAt, InTime;
    forall s: nat, j: nat, e: nat | s <= j < e <= |d| && IsToken(prefix, ranges, n, d[s..e])
      ensures InTime(TokenAt(prefix, ranges, n), window, d[s..j])
    {
      TokenIsShort(prefix, ranges, n, d[s..e], 0, e - s) by { assert d[s..e][0..e - s] == d[s..e]; }
      PartIsInTime(prefix, ranges, n, window, d[s..e], j - s);
      assert d[s..e][..j - s] == d[s..j];
    }
  }

  /** However the input is read, a token pattern whose least token fits the window is redacted in the stream as in
      the whole buffer, as long as no token is longer than a held-back match may grow. */
  lemma TokenStreamRefines(prefix: Bytes, ranges: seq<Range>, n: nat, bufferSize: nat, maxOverlap: int, d: Bytes,
                           cuts: seq<nat>)
    requires AsciiToken(prefix, ranges) && |prefix| + n <= Window(maxOverlap) + 1
    requires TokensWithin(prefix, ranges, n, d, LongestToken(|prefix| + n))
    ensures ReadsDoNotMatter(TokenRedactor(prefix, ranges, n, bufferSize, maxOverlap), d, cuts)
  {
    TokensAreTimely(prefix, ranges, n, Window(maxOverlap), d, LongestToken(|prefix| + n));
    TokenScans(prefix, ranges, n, bufferSize, maxOverlap);
    TimelyInputRefines(TokenRedactor(prefix, ranges, n, bufferSize, maxOverlap), TokenWord(prefix, ranges, n),
                       TokenAt(prefix, ranges, n), d, cuts);
  }

  function TokenOf(prefix: Bytes, letter: Byte, len: nat): Bytes
    requires |prefix| <= len
  {
    prefix + seq(len - |prefix|, _ => letter)
  }

  lemma TokenOfIsToken(prefix: Bytes, ranges: seq<Range>, n: nat, letter: Byte, len: nat)
    requires |prefix| + n <= len && InClass(ranges, letter)
    ensures |TokenOf(prefix, letter, len)| == len && IsToken(prefix, ranges, n, TokenOf(prefix, letter, len))
  {
    var x := TokenOf(prefix, letter, len);
    assert x[|prefix|..] == seq(len - |prefix|, _ => letter);
  }

  /** Behind a filling there are no tokens but those of w. */
  lemma TokensBehindBlank(prefix: Bytes, ranges: seq<Range>, n: nat, fill: nat, w: Bytes)
    requires AsciiToken(prefix, ranges)
    ensures TokensWithin(prefix, ranges, n, Blank(fill) + w, |w|)
  {
    var d := Blank(fill) + w;
    TokenAccepts(AsciiFold, prefix, ranges, n);
    hide IsToken, Matches, WellFormed, Ascii;
    forall s: nat, e: nat | s <= e <= |d| && IsToken(prefix, ranges, n, d[s..e]) ensures e - s <= |w| {
      assert TokenWord(prefix, ranges, n)(d[s..e]);
      if s < e && s < fill {
        BlankIsNoWord(TokenWord(prefix, ranges, n), d[s..e]);
      }
    }
  }

  lemma WithinMore(prefix: Bytes, ranges: seq<Range>, n: nat, d: Bytes, k: nat, more: nat)
    requires TokensWithin(prefix, ranges, n, d, k) && k <= more
    ensures TokensWithin(prefix, ranges, n, d, more)
  {
  }

  /** A token of that many bytes, read up to its byte j, is treated otherwise in the stream. */
  lemma LongTokenShows(prefix: Bytes, ranges: seq<Range>, n: nat, bufferSize: nat, maxOverlap: int, w: Bytes, j: nat)
    requires AsciiToken(prefix, ranges) && IsToken(prefix, ranges, n, w) && j < |w|
    requires if j < |prefix| + n then j > Window(maxOverlap) else j > MAX_PENDING_MATCH
    ensures var r := TokenRedactor(prefix, ranges, n, bufferSize, maxOverlap);
            !ReadsDoNotMatter(r, Blank(ScanThreshold(r)) + w, [ScanThreshold(r) + j])
  {
    var r := TokenRedactor(prefix, ranges, n, bufferSize, maxOverlap);
    hide IsToken, TokenAt, InTime, Blank, ReadsDoNotMatter, ScansFor, TokenRedactor, Ascii;
    TokenScans(prefix, ranges, n, bufferSize, maxOverlap);
    PartIsInTime(prefix, ranges, n, Window(maxOverlap), w, j);
    LateWordShows(r, TokenWord(prefix, ranges, n), TokenAt(prefix, ranges, n), w, j);
  }

  /** For every token pattern, buffer size and window: all inputs whose tokens have at most k bytes are redacted
      alike however they are read, exactly if there is no such token, or the least token is at most a byte longer
      than the window and k bytes are at most a byte more than may be held back, or than the least token. */
  lemma TokenRefinementIsExact(prefix: Bytes, ranges: seq<Range>, n: nat, letter: Byte, bufferSize: nat,
                               maxOverlap: int, k: nat)
    requires AsciiToken(prefix, ranges) && InClass(ranges, letter)
    ensures (forall d, cuts :: TokensWithin(prefix, ranges, n, d, k) ==>
                                 ReadsDoNotMatter(TokenRedactor(prefix, ranges, n, bufferSize, maxOverlap), d, cuts))
       <==> k < |prefix| + n || (|prefix| + n <= Window(maxOverlap) + 1 && k <= LongestToken(|prefix| + n))
  {
    var r, least := TokenRedactor(prefix, ranges, n, bufferSize, maxOverlap), |prefix| + n;
    hide TokensWithin, ReadsDoNotMatter, TokenRedactor, IsToken, TokenAt, TokenOf, Blank, ScansFor;
    if k < least || (least <= Window(maxOverlap) + 1 && k <= LongestToken(least)) {
      TokenScans(prefix, ranges, n, bufferSize, maxOverlap);
      forall d, cuts | TokensWithin(prefix, ranges, n, d, k) ensures ReadsDoNotMatter(r, d, cuts) {
        TokensAreTimely(prefix, ranges, n, Window(maxOverlap), d, k);
        TimelyInputRefines(r, TokenWord(prefix, ranges, n), TokenAt(prefix, ranges, n), d, cuts);
      }
    } else {
      var len := if least > Window(maxOverlap) + 1 then least else LongestToken(least) + 1;
      var w := TokenOf(prefix, letter, len);
      TokenOfIsToken(prefix, ranges, n, letter, len);
      TokensBehindBlank(prefix, ranges, n, ScanThreshold(r), w);
      WithinMore(prefix, ranges, n, Blank(ScanThreshold(r)) + w, len, k);
      LongTokenShows(prefix, ranges, n, bufferSize, maxOverlap, w, len - 1);
    }
  }

  // ---- the tail of a token that is too long ----

  lemma TokenHead(prefix: Bytes, ranges: seq<Range>, n: nat, u: Bytes, m: Span)
    requires prefix != [] && LongestWord(TokenWord(prefix, ranges, n), u, m)
    ensures m.start < |u| && u[m.start] == prefix[0]
  {
    assert u[m.start..m.end][0] == prefix[0];
  }

  lemma LetterStartsNone(prefix: Bytes, ranges: seq<Range>, n: nat, u: Bytes, m: Span)
    requires Marked(prefix, ranges) && AllIn(ranges, u)
    ensures !LongestWord(TokenWord(prefix, ranges, n), u, m)
  {
    hide LongestWord;
    if LongestWord(TokenWord(prefix, ranges, n), u, m) {
      TokenHead(prefix, ranges, n, u, m);
    }
  }

  lemma NoTokenInLetters(prefix: Bytes, ranges: seq<Range>, n: nat, u: Bytes)
    requires Marked(prefix, ranges) && AllIn(ranges, u)
    ensures FindFrom(TokenAt(prefix, ranges, n), u, 0) == []
  {
    var at := TokenAt(prefix, ranges, n);
    TokenTakesLongest(prefix, ranges, n);
    FindFromInOrder(TokenWord(prefix, ranges, n), at, u, 0);
    hide FindFrom, LongestWord, InOrder, AllIn, Marked, TokenAt;
    if FindFrom(at, u, 0) != [] {
      LetterStartsNone(prefix, ranges, n, u, FindFrom(at, u, 0)[0]);
    }
  }

  /** A match that touches the end of the carry and is too long to be held back is replaced, and all of the carry
      is emitted. */
  lemma TooLongIsReplaced(r: Redactor, d: Bytes, cut: nat, x: Span)
    requires Valid(r) && ScanThreshold(r) <= cut <= |d| && FindSpans(r, d[0..cut]) == [x] && x.end == cut
    requires cut - x.start > MAX_PENDING_MATCH && FindSpans(r, d[cut..|d|]) == []
    ensures Cuts(0, [cut], |d|) && Run(r, d, 0, [cut], true).spans == [x]
  {
    hide Valid, FindSpans;
    assert Cuts(cut, [], |d|);
    assert ScanAt(r, d, 0, cut, false) == Emit([x], cut);
    assert ScanAt(r, d, cut, |d|, true).spans == [];
  }

  lemma BlankThenRest(fill: nat, w: Bytes, j: nat)
    requires j <= |w|
    ensures (Blank(fill) + w)[fill + j..|Blank(fill) + w|] == w[j..]
  {
  }

  lemma LettersAfter(prefix: Bytes, ranges: seq<Range>, n: nat, w: Bytes, j: nat)
    requires IsToken(prefix, ranges, n, w) && |prefix| <= j <= |w|
    ensures AllIn(ranges, w[j..])
  {
    assert forall i :: 0 <= i < |w| - j ==> w[j..][i] == w[|prefix|..][j - |prefix| + i];
  }

  /** Such a token is replaced up to there, and what comes after goes out as it is. */
  lemma LongTokenLosesItsTail(prefix: Bytes, ranges: seq<Range>, n: nat, bufferSize: nat, maxOverlap: int, w: Bytes)
    requires Marked(prefix, ranges) && IsToken(prefix, ranges, n, w)
    requires |prefix| + n <= MAX_PENDING_MATCH + 1 < |w|
    ensures var r := TokenRedactor(prefix, ranges, n, bufferSize, maxOverlap);
            var fill := ScanThreshold(r);
            var cut := fill + MAX_PENDING_MATCH + 1;
            && Valid(r) && Cuts(0, [cut], |Blank(fill) + w|)
            && FindSpans(r, Blank(fill) + w) == [Span(fill, fill + |w|)]
            && Run(r, Blank(fill) + w, 0, [cut], true).spans == [Span(fill, cut)]
  {
    var r := TokenRedactor(prefix, ranges, n, bufferSize, maxOverlap);
    var fill, j, at := ScanThreshold(r), MAX_PENDING_MATCH + 1, TokenAt(prefix, ranges, n);
    hide IsToken, TokenAt, Blank, Valid, TokenRedactor, FindSpans, FindFrom, Run, Ascii;
    TokenScans(prefix, ranges, n, bufferSize, maxOverlap);
    PartOfToken(prefix, ranges, n, w, j);
    TokenIsFound(prefix, ranges, n, w[..j]);
    FoundBehindBlank(r, TokenWord(prefix, ranges, n), at, fill, w, j);
    BlankThenRest(fill, w, j);
    LettersAfter(prefix, ranges, n, w, j);
    NoTokenInLetters(prefix, ranges, n, w[j..]);
    TooLongIsReplaced(r, Blank(fill) + w, fill + j, Span(fill, fill + j));
  }
}
