/**
 The syntax tree that regexp/syntax.Parse returns, and the rune strings each node matches.
 Parsing is not part of this model; the tree is taken as given.
 */
module Regex {
  import opened Utf8
  import opened Folding

  datatype Range = Range(lo: Rune, hi: Rune)

  datatype Regex =
    | NoMatch
    | EmptyMatch
    | Literal(runes: seq<Rune>, foldCase: bool)
    | CharClass(ranges: seq<Range>)
    | AnyChar
    | Assertion // any zero-width test: ^, $, \b, \B, \A, \z
    | Capture(sub: Regex)
    | Star(sub: Regex)
    | Plus(sub: Regex)
    | Quest(sub: Regex)
    | Repeat(sub: Regex, min: int, max: int) // max < 0: unbounded
    | Concat(subs: seq<Regex>)
    | Alternate(subs: seq<Regex>)

  predicate InClass(ranges: seq<Range>, r: Rune) {
    exists i :: 0 <= i < |ranges| && ranges[i].lo <= r <= ranges[i].hi
  }

  /** An assertion is let through wherever it stands, so Matches holds of at least the real matches. */
  ghost predicate Matches(sf: Rune -> Rune, re: Regex, w: seq<Rune>)
    decreases re, 0
  {
    match re
    case NoMatch => false
    case EmptyMatch => w == []
    case Literal(runes, foldCase) =>
      && |w| == |runes|
      && forall i :: 0 <= i < |w| ==> w[i] == runes[i] || (foldCase && InOrbit(sf, runes[i], w[i]))
    case CharClass(ranges) => |w| == 1 && InClass(ranges, w[0])
    case AnyChar => |w| == 1
    case Assertion => w == []
    case Capture(sub) => Matches(sf, sub, w)
    case Star(sub) => exists n: nat :: Repeats(sf, sub, n, w)
    case Plus(sub) => exists n: nat :: n >= 1 && Repeats(sf, sub, n, w)
    case Quest(sub) => w == [] || Matches(sf, sub, w)
    case Repeat(sub, min, max) => exists n: nat :: min <= n && (max < 0 || n <= max) && Repeats(sf, sub, n, w)
    case Concat(subs) => MatchesAll(sf, subs, w)
    case Alternate(subs) => exists i :: 0 <= i < |subs| && Matches(sf, subs[i], w)
  }

  /** w is n matches of re, one after the other. */
  ghost predicate Repeats(sf: Rune -> Rune, re: Regex, n: nat, w: seq<Rune>)
    decreases re, n + 1
  {
    if n == 0 then w == []
    else exists i :: 0 <= i <= |w| && Matches(sf, re, w[..i]) && Repeats(sf, re, n - 1, w[i..])
  }

  /** w is a match of each of subs, one after the other. */
  ghost predicate MatchesAll(sf: Rune -> Rune, subs: seq<Regex>, w: seq<Rune>)
    decreases subs, 0
  {
    if subs == [] then w == []
    else exists i :: 0 <= i <= |w| && Matches(sf, subs[0], w[..i]) && MatchesAll(sf, subs[1..], w[i..])
  }

  /** The parser gives every alternation at least one branch. */
  predicate WellFormed(re: Regex)
    decreases re, 0
  {
    match re
    case Capture(sub) => WellFormed(sub)
    case Star(sub) => WellFormed(sub)
    case Plus(sub) => WellFormed(sub)
    case Quest(sub) => WellFormed(sub)
    case Repeat(sub, _, _) => WellFormed(sub)
    case Concat(subs) => AllWellFormed(subs)
    case Alternate(subs) => subs != [] && AllWellFormed(subs)
    case _ => true
  }

  predicate AllWellFormed(subs: seq<Regex>)
    decreases subs, 0
  {
    subs == [] || (WellFormed(subs[0]) && AllWellFormed(subs[1..]))
  }

  /** No literal or class of the tree names a surrogate, which no decoded text contains. */
  predicate ScalarOnly(re: Regex)
    decreases re, 0
  {
    match re
    case Literal(runes, _) => AllScalar(runes)
    case CharClass(ranges) =>
      forall i :: 0 <= i < |ranges| ==> ranges[i].hi < 0xD800 || 0xDFFF < ranges[i].lo
    case Capture(sub) => ScalarOnly(sub)
    case Star(sub) => ScalarOnly(sub)
    case Plus(sub) => ScalarOnly(sub)
    case Quest(sub) => ScalarOnly(sub)
    case Repeat(sub, _, _) => ScalarOnly(sub)
    case Concat(subs) => AllScalarOnly(subs)
    case Alternate(subs) => AllScalarOnly(subs)
    case _ => true
  }

  predicate AllScalarOnly(subs: seq<Regex>)
    decreases subs, 0
  {
    subs == [] || (ScalarOnly(subs[0]) && AllScalarOnly(subs[1..]))
  }
}
