/**
 Byte strings and UTF-8 as Go's unicode/utf8 package reads and writes them
 (section 3 of RFC 3629; an ill-formed byte decodes to U+FFFD with width 1).
 */
module Utf8 {
  type Byte = b: int | 0 <= b < 0x100
  type Bytes = seq<Byte>
  type Rune = r: int | 0 <= r <= 0x10FFFF

  const RUNE_ERROR: Rune := 0xFFFD
  const RUNE_SELF := 0x80

  /** A Unicode scalar value: anything but a surrogate. */
  predicate Scalar(r: Rune) { r < 0xD800 || 0xDFFF < r }

  predicate Continuation(b: Byte) { 0x80 <= b < 0xC0 }

  /** utf8.RuneStart. */
  predicate RuneStart(b: Byte) { !Continuation(b) }

  /** utf8.AppendRune: a surrogate is written as U+FFFD. */
  function EncodeRune(r: Rune): (s: Bytes)
    ensures 1 <= |s| <= 4
    ensures RuneStart(s[0]) && forall i :: 1 <= i < |s| ==> Continuation(s[i])
  {
    if r < 0x80 then [r]
    else if r < 0x800 then [0xC0 + r / 0x40, 0x80 + r % 0x40]
    else if !Scalar(r) then [0xEF, 0xBF, 0xBD]
    else if r < 0x10000 then [0xE0 + r / 0x1000, 0x80 + r / 0x40 % 0x40, 0x80 + r % 0x40]
    else [0xF0 + r / 0x40000, 0x80 + r / 0x1000 % 0x40, 0x80 + r / 0x40 % 0x40, 0x80 + r % 0x40]
  }

  /** The least and greatest second byte that may follow the lead byte b. */
  function SecondRange(b: Byte): (int, int) {
    if b == 0xE0 then (0xA0, 0xBF)
    else if b == 0xED then (0x80, 0x9F)
    else if b == 0xF0 then (0x90, 0xBF)
    else if b == 0xF4 then (0x80, 0x8F)
    else (0x80, 0xBF)
  }

  datatype Decoded = Decoded(rune: Rune, width: nat)

  const ILL_FORMED := Decoded(RUNE_ERROR, 1)

  /** utf8.DecodeRune on a non-empty string. */
  function DecodeRune(s: Bytes): (d: Decoded)
    requires s != []
    ensures 1 <= d.width <= |s| && d.width <= 4
    ensures Scalar(d.rune)
  {
    var b: int := s[0];
    if b < 0x80 then Decoded(b, 1)
    else if b < 0xC2 || 0xF4 < b || |s| < 2 then ILL_FORMED
    else if !(SecondRange(b).0 <= s[1] <= SecondRange(b).1) then ILL_FORMED
    else if b < 0xE0 then Decoded((b - 0xC0) * 0x40 + (s[1] as int - 0x80), 2)
    else if |s| < 3 || !Continuation(s[2]) then ILL_FORMED
    else if b < 0xF0 then Decoded((b - 0xE0) * 0x1000 + (s[1] as int - 0x80) * 0x40 + (s[2] as int - 0x80), 3)
    else if |s| < 4 || !Continuation(s[3]) then ILL_FORMED
    else
      Decoded((b - 0xF0) * 0x40000 + (s[1] as int - 0x80) * 0x1000 + (s[2] as int - 0x80) * 0x40
              + (s[3] as int - 0x80), 4)
  }

  /** The runes a `for range` over s visits. */
  function Runes(s: Bytes): (rs: seq<Rune>)
    ensures forall i :: 0 <= i < |rs| ==> Scalar(rs[i])
  {
    if s == [] then [] else [DecodeRune(s).rune] + Runes(s[DecodeRune(s).width..])
  }

  function Encode(rs: seq<Rune>): Bytes {
    if rs == [] then [] else EncodeRune(rs[0]) + Encode(rs[1..])
  }

  predicate AllScalar(rs: seq<Rune>) { forall i :: 0 <= i < |rs| ==> Scalar(rs[i]) }

  lemma DecodeEncodedRune(r: Rune, rest: Bytes)
    requires Scalar(r)
    ensures DecodeRune(EncodeRune(r) + rest) == Decoded(r, |EncodeRune(r)|)
  {
    var s := EncodeRune(r) + rest;
    forall i | 0 <= i < |EncodeRune(r)| ensures s[i] == EncodeRune(r)[i] {
    }
    var high, mid, low := r / 0x1000, r / 0x40 % 0x40, r % 0x40;
    assert r == high * 0x1000 + mid * 0x40 + low by { assert r / 0x1000 == r / 0x40 / 0x40; }
    assert high == high / 0x40 * 0x40 + high % 0x40;
    assert r / 0x40000 == high / 0x40;
  }

  /** Decoding undoes encoding on every string of scalar values. */
  lemma {:induction false} RunesOfEncode(rs: seq<Rune>)
    requires AllScalar(rs)
    ensures Runes(Encode(rs)) == rs
  {
    if rs != [] {
      var rest := Encode(rs[1..]);
      DecodeEncodedRune(rs[0], rest);
      assert (EncodeRune(rs[0]) + rest)[|EncodeRune(rs[0])|..] == rest;
      RunesOfEncode(rs[1..]);
    }
  }

  lemma {:induction false} EncodeConcat(a: seq<Rune>, b: seq<Rune>)
    ensures Encode(a + b) == Encode(a) + Encode(b)
  {
    if a == [] {
      assert a + b == b;
    } else {
      assert (a + b)[1..] == a[1..] + b;
      EncodeConcat(a[1..], b);
    }
  }

  /** s is well-formed UTF-8: no byte decodes as ill-formed. */
  predicate WellFormedUtf8(s: Bytes) {
    s == [] || (DecodeRune(s) != ILL_FORMED && WellFormedUtf8(s[DecodeRune(s).width..]))
  }

  lemma DivideBy64(q: int, r: int)
    requires 0 <= q && 0 <= r < 0x40
    ensures (q * 0x40 + r) / 0x40 == q && (q * 0x40 + r) % 0x40 == r
  {
  }

  /** The three or four bytes of a rune, from its digits to the base of 64. */
  lemma EncodeThree(high: int, mid: int, low: int)
    requires 0 <= high < 0x10 && 0 <= mid < 0x40 && 0 <= low < 0x40
    requires 0x800 <= (high * 0x40 + mid) * 0x40 + low && Scalar((high * 0x40 + mid) * 0x40 + low)
    ensures EncodeRune((high * 0x40 + mid) * 0x40 + low) == [0xE0 + high, 0x80 + mid, 0x80 + low]
  {
    var r := (high * 0x40 + mid) * 0x40 + low;
    DivideBy64(high * 0x40 + mid, low);
    DivideBy64(high, mid);
    assert r / 0x1000 == r / 0x40 / 0x40;
  }

  lemma EncodeFour(top: int, high: int, mid: int, low: int)
    requires 0 <= top <= 4 && 0 <= high < 0x40 && 0 <= mid < 0x40 && 0 <= low < 0x40
    requires 0x10000 <= ((top * 0x40 + high) * 0x40 + mid) * 0x40 + low <= 0x10FFFF
    ensures EncodeRune(((top * 0x40 + high) * 0x40 + mid) * 0x40 + low)
         == [0xF0 + top, 0x80 + high, 0x80 + mid, 0x80 + low]
  {
    var r := ((top * 0x40 + high) * 0x40 + mid) * 0x40 + low;
    DivideBy64((top * 0x40 + high) * 0x40 + mid, low);
    DivideBy64(top * 0x40 + high, mid);
    DivideBy64(top, high);
    assert r / 0x1000 == r / 0x40 / 0x40 && r / 0x40000 == r / 0x1000 / 0x40;
  }

  lemma EncodeOne(b: int)
    requires 0 <= b < 0x80
    ensures EncodeRune(b) == [b]
  {
  }

  lemma EncodeTwo(high: int, low: int)
    requires 2 <= high < 0x20 && 0 <= low < 0x40
    ensures EncodeRune(high * 0x40 + low) == [0xC0 + high, 0x80 + low]
  {
    DivideBy64(high, low);
  }

  lemma EncodeDecodedRune(s: Bytes)
    requires s != [] && DecodeRune(s) != ILL_FORMED
    ensures EncodeRune(DecodeRune(s).rune) == s[..DecodeRune(s).width]
  {
    var w := DecodeRune(s).width;
    hide EncodeRune;
    if w == 1 {
      EncodeOne(s[0]);
    } else if w == 2 {
      EncodeTwo(s[0] as int - 0xC0, s[1] as int - 0x80);
    } else if w == 3 {
      EncodeThree(s[0] as int - 0xE0, s[1] as int - 0x80, s[2] as int - 0x80);
    } else {
      EncodeFour(s[0] as int - 0xF0, s[1] as int - 0x80, s[2] as int - 0x80, s[3] as int - 0x80);
    }
  }

  /** Encoding undoes decoding on well-formed text. */
  lemma {:induction false} EncodeOfRunes(s: Bytes)
    requires WellFormedUtf8(s)
    ensures Encode(Runes(s)) == s
  {
    hide DecodeRune, EncodeRune;
    if s != [] {
      var w := DecodeRune(s).width;
      EncodeDecodedRune(s);
      EncodeOfRunes(s[w..]);
      assert s == s[..w] + s[w..];
    }
  }

  /** i is a boundary between two runes of s. */
  predicate Boundary(s: Bytes, i: nat)
    requires i <= |s|
  {
    i == 0 || (s != [] && DecodeRune(s).width <= i && Boundary(s[DecodeRune(s).width..], i - DecodeRune(s).width))
  }

  predicate OccursAt(text: Bytes, i: nat, lit: Bytes) {
    i + |lit| <= |text| && text[i..i + |lit|] == lit
  }

  /** strings.Contains and bytes.Contains. */
  predicate Contains(text: Bytes, lit: Bytes) {
    exists i :: 0 <= i <= |text| && OccursAt(text, i, lit)
  }

  lemma ContainsIn(text: Bytes, pre: Bytes, post: Bytes, lit: Bytes)
    requires Contains(text, lit)
    ensures Contains(pre + text + post, lit)
  {
    var i :| 0 <= i <= |text| && OccursAt(text, i, lit);
    assert (pre + text + post)[|pre| + i..|pre| + i + |lit|] == text[i..i + |lit|];
    assert OccursAt(pre + text + post, |pre| + i, lit);
  }
}
