/**
 Case folding. unicode.SimpleFold is a table of the Go library: it is a parameter `sf` here, and
 IsSimpleFold lists all that is used of it. Iterating it from a rune walks that rune's orbit, the
 class of runes that (?i) does not tell apart.
 */
module Folding {
  import opened Utf8
  import Sorting

  ghost function Iter(sf: Rune -> Rune, r: Rune, n: nat): Rune {
    if n == 0 then r else sf(Iter(sf, r, n - 1))
  }

  ghost predicate InOrbit(sf: Rune -> Rune, r: Rune, x: Rune) {
    exists n: nat :: Iter(sf, r, n) == x
  }

  ghost predicate Returns(sf: Rune -> Rune, r: Rune, n: nat) {
    n > 0 && Iter(sf, r, n) == r
  }

  ghost predicate Periodic(sf: Rune -> Rune, r: Rune) {
    exists n: nat :: Returns(sf, r, n)
  }

  ghost predicate FiniteOrbits(sf: Rune -> Rune) {
    forall r: Rune :: Periodic(sf, r)
  }

  ghost predicate IsOrbitMin(sf: Rune -> Rune, r: Rune, m: Rune) {
    InOrbit(sf, r, m) && forall x: Rune :: InOrbit(sf, r, x) ==> m <= x
  }

  function AsciiUpper(c: Rune): Rune {
    if 0x61 <= c <= 0x7A then c - 0x20 else c
  }

  ghost predicate IsSimpleFold(sf: Rune -> Rune) {
    && FiniteOrbits(sf)
    && (forall r: Rune :: Scalar(r) ==> Scalar(sf(r)))
    && (forall c: Rune :: c < RUNE_SELF ==> IsOrbitMin(sf, c, AsciiUpper(c)))
  }

  lemma {:induction false} IterAdd(sf: Rune -> Rune, r: Rune, m: nat, n: nat)
    ensures Iter(sf, Iter(sf, r, m), n) == Iter(sf, r, m + n)
  {
    if n > 0 {
      IterAdd(sf, r, m, n - 1);
    }
  }

  lemma {:induction false} IterPeriod(sf: Rune -> Rune, r: Rune, n: nat, k: nat)
    requires Iter(sf, r, n) == r
    ensures Iter(sf, r, k * n) == r
  {
    if k > 0 {
      IterPeriod(sf, r, n, k - 1);
      IterAdd(sf, r, (k - 1) * n, n);
      assert (k - 1) * n + n == k * n;
    }
  }

  lemma OrbitTransitive(sf: Rune -> Rune, a: Rune, b: Rune, c: Rune)
    requires InOrbit(sf, a, b) && InOrbit(sf, b, c)
    ensures InOrbit(sf, a, c)
  {
    var m: nat :| Iter(sf, a, m) == b;
    var n: nat :| Iter(sf, b, n) == c;
    IterAdd(sf, a, m, n);
  }

  lemma OrbitSymmetric(sf: Rune -> Rune, a: Rune, b: Rune)
    requires FiniteOrbits(sf) && InOrbit(sf, a, b)
    ensures InOrbit(sf, b, a)
  {
    var k: nat :| Iter(sf, a, k) == b;
    assert Periodic(sf, a);
    var n: nat :| Returns(sf, a, n);
    IterPeriod(sf, a, n, k);
    assert k * n >= k by { assert k * n >= k * 1; }
    IterAdd(sf, a, k, k * n - k);
  }

  lemma {:induction false} OrbitScalar(sf: Rune -> Rune, r: Rune, n: nat)
    requires IsSimpleFold(sf) && Scalar(r)
    ensures Scalar(Iter(sf, r, n))
  {
    if n > 0 {
      OrbitScalar(sf, r, n - 1);
    }
  }

  lemma {:induction false} OrbitMinExists(sf: Rune -> Rune, r: Rune, bound: Rune)
    requires InOrbit(sf, r, bound)
    ensures exists m: Rune :: IsOrbitMin(sf, r, m)
    decreases bound
  {
    if x: Rune :| InOrbit(sf, r, x) && x < bound {
      OrbitMinExists(sf, r, x);
    } else {
      assert IsOrbitMin(sf, r, bound);
    }
  }

  /** The canonical representative of r's case class. */
  ghost function MinFold(sf: Rune -> Rune, r: Rune): (m: Rune)
    ensures IsOrbitMin(sf, r, m)
  {
    assert Iter(sf, r, 0) == r;
    OrbitMinExists(sf, r, r);
    var m: Rune :| IsOrbitMin(sf, r, m);
    m
  }

  /** Two runes have the same representative exactly when (?i) does not tell them apart. */
  lemma MinFoldClassifies(sf: Rune -> Rune, a: Rune, b: Rune)
    requires FiniteOrbits(sf)
    ensures MinFold(sf, a) == MinFold(sf, b) <==> InOrbit(sf, a, b)
  {
    var ma, mb := MinFold(sf, a), MinFold(sf, b);
    if ma == mb {
      OrbitSymmetric(sf, b, mb);
      OrbitTransitive(sf, a, ma, b);
    }
    if InOrbit(sf, a, b) {
      OrbitSymmetric(sf, a, b);
      OrbitTransitive(sf, a, b, mb);
      OrbitTransitive(sf, b, a, ma);
    }
  }

  lemma {:induction false} IterReduce(sf: Rune -> Rune, r: Rune, period: nat, n: nat) returns (k: nat)
    requires Returns(sf, r, period)
    ensures k < period && Iter(sf, r, n) == Iter(sf, r, k)
  {
    if n < period {
      k := n;
    } else {
      IterAdd(sf, r, period, n - period);
      k := IterReduce(sf, r, period, n - period);
    }
  }

  /** minFold: walk the orbit once around, keeping the least rune seen. */
  method ComputeMinFold(sf: Rune -> Rune, r: Rune) returns (m: Rune)
    requires FiniteOrbits(sf)
    ensures m == MinFold(sf, r)
  {
    assert Periodic(sf, r);
    ghost var period: nat :| Returns(sf, r, period);
    ghost var i: nat := 1;
    m := r;
    var f := sf(r);
    assert Iter(sf, r, 0) == r && Iter(sf, r, 1) == f;
    while f != r
      invariant 1 <= i <= period && f == Iter(sf, r, i)
      invariant exists k: nat :: k < i && Iter(sf, r, k) == m
      invariant forall k: nat :: k < i ==> m <= Iter(sf, r, k)
      decreases period - i
    {
      if f < m {
        m := f;
      }
      f := sf(f);
      i := i + 1;
    }
    assert InOrbit(sf, r, m);
    forall x: Rune | InOrbit(sf, r, x) ensures m <= x {
      var n: nat :| Iter(sf, r, n) == x;
      var k := IterReduce(sf, r, i, n);
    }
  }

  ghost function FoldRunes(sf: Rune -> Rune, rs: seq<Rune>): (f: seq<Rune>)
    ensures |f| == |rs| && forall i :: 0 <= i < |rs| ==> f[i] == MinFold(sf, rs[i])
  {
    if rs == [] then [] else [MinFold(sf, rs[0])] + FoldRunes(sf, rs[1..])
  }

  /** The fold-normal form of a rune string, as the bytes that foldNorm emits for it. */
  ghost function FoldBytes(sf: Rune -> Rune, rs: seq<Rune>): Bytes {
    Encode(FoldRunes(sf, rs))
  }

  lemma FoldRunesConcat(sf: Rune -> Rune, a: seq<Rune>, b: seq<Rune>)
    ensures FoldRunes(sf, a + b) == FoldRunes(sf, a) + FoldRunes(sf, b)
  {
    hide FoldRunes;
  }

  lemma FoldBytesConcat(sf: Rune -> Rune, a: seq<Rune>, b: seq<Rune>)
    ensures FoldBytes(sf, a + b) == FoldBytes(sf, a) + FoldBytes(sf, b)
  {
    hide Encode, FoldRunes;
    FoldRunesConcat(sf, a, b);
    EncodeConcat(FoldRunes(sf, a), FoldRunes(sf, b));
  }

  ghost function FoldNorm(sf: Rune -> Rune, data: Bytes): Bytes {
    FoldBytes(sf, Runes(data))
  }

  lemma MinFoldAscii(sf: Rune -> Rune, c: Rune)
    requires IsSimpleFold(sf) && c < RUNE_SELF
    ensures MinFold(sf, c) == AsciiUpper(c)
  {
  }

  lemma FoldNormStep(sf: Rune -> Rune, s: Bytes)
    requires s != []
    ensures FoldNorm(sf, s) == EncodeRune(MinFold(sf, DecodeRune(s).rune)) + FoldNorm(sf, s[DecodeRune(s).width..])
  {
    var d := DecodeRune(s);
    var rest := Runes(s[d.width..]);
    FoldBytesConcat(sf, [d.rune], rest);
    assert FoldRunes(sf, [d.rune]) == [MinFold(sf, d.rune)];
    assert Encode([MinFold(sf, d.rune)]) == EncodeRune(MinFold(sf, d.rune)) + Encode([]);
  }

  lemma FoldNormAscii(sf: Rune -> Rune, s: Bytes)
    requires IsSimpleFold(sf) && s != [] && s[0] < RUNE_SELF
    ensures FoldNorm(sf, s) == [AsciiUpper(s[0])] + FoldNorm(sf, s[1..])
  {
    FoldNormStep(sf, s);
    MinFoldAscii(sf, s[0]);
  }

  /** One iteration of foldNorm's loop: what it appends, and how far it moves. */
  method FoldNormHead(sf: Rune -> Rune, s: Bytes) returns (step: Bytes, width: nat)
    requires IsSimpleFold(sf) && s != []
    ensures 1 <= width <= |s| && FoldNorm(sf, s) == step + FoldNorm(sf, s[width..])
  {
    var c := s[0];
    if c < RUNE_SELF {
      FoldNormAscii(sf, s);
      step, width := [if 0x61 <= c <= 0x7A then c - 0x20 else c], 1;
    } else {
      FoldNormStep(sf, s);
      var d := DecodeRune(s);
      var m := ComputeMinFold(sf, d.rune);
      step, width := EncodeRune(m), d.width;
    }
  }

  lemma FoldNormNothing(sf: Rune -> Rune)
    ensures FoldNorm(sf, []) == []
  {
  }

  /** foldNorm, with its ASCII fast path. */
  method ComputeFoldNorm(sf: Rune -> Rune, data: Bytes) returns (out: Bytes)
    requires IsSimpleFold(sf)
    ensures out == FoldNorm(sf, data)
  {
    hide IsSimpleFold, FoldNorm;
    out := [];
    var i := 0;
    assert data[0..] == data && [] + FoldNorm(sf, data) == FoldNorm(sf, data);
    while i < |data|
      invariant i <= |data|
      invariant out + FoldNorm(sf, data[i..]) == FoldNorm(sf, data)
    {
      var step, width := FoldNormHead(sf, data[i..]);
      assert data[i..][width..] == data[i + width..];
      Sorting.Reassociate(out, step, FoldNorm(sf, data[i + width..]));
      out, i := out + step, i + width;
    }
    FoldNormNothing(sf);
    assert data[i..] == [] && out + [] == out;
  }

  /** The ASCII part of the real table, with its two three-rune orbits. */
  function AsciiFold(r: Rune): Rune {
    if r == 0x6B then 0x212A else if r == 0x212A then 0x4B
    else if r == 0x73 then 0x17F else if r == 0x17F then 0x53
    else if 0x41 <= r <= 0x5A then r + 0x20
    else if 0x61 <= r <= 0x7A then r - 0x20
    else r
  }

  lemma IterSmall(sf: Rune -> Rune, r: Rune)
    ensures Iter(sf, r, 0) == r && Iter(sf, r, 1) == sf(r) && Iter(sf, r, 2) == sf(sf(r))
    ensures Iter(sf, r, 3) == sf(sf(sf(r))) && Iter(sf, r, 4) == sf(sf(sf(sf(r))))
    ensures Iter(sf, r, 5) == sf(sf(sf(sf(sf(r))))) && Iter(sf, r, 6) == sf(sf(sf(sf(sf(sf(r))))))
  {
  }

  lemma AsciiFoldSix(r: Rune)
    ensures Returns(AsciiFold, r, 6)
  {
    IterSmall(AsciiFold, r);
  }

  /** IsSimpleFold can be met. */
  lemma AsciiFoldIsSimpleFold()
    ensures IsSimpleFold(AsciiFold)
  {
    forall r: Rune ensures Periodic(AsciiFold, r) {
      AsciiFoldSix(r);
    }
    forall r: Rune | Scalar(r) ensures Scalar(AsciiFold(r)) {
    }
    forall c: Rune | c < RUNE_SELF ensures IsOrbitMin(AsciiFold, c, AsciiUpper(c)) {
      AsciiFoldSix(c);
      assert AsciiUpper(c) in [Iter(AsciiFold, c, 0), Iter(AsciiFold, c, 1), Iter(AsciiFold, c, 2)] by {
        IterSmall(AsciiFold, c);
      }
      forall x: Rune | InOrbit(AsciiFold, c, x) ensures AsciiUpper(c) <= x {
        var n: nat :| Iter(AsciiFold, c, n) == x;
        var k := IterReduce(AsciiFold, c, 6, n);
        IterSmall(AsciiFold, c);
      }
    }
  }
}
