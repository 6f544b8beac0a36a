/**
 Capping the text of a tool result (truncateToolResultTracked in pkg/mcp/caps.go). Decoded strings are
 byte strings; JSON itself is not modelled beyond the length of a string literal.
 */
module Truncation {
  import opened Utf8
  import opened Wrappers
  import Sorting

  const TRUNCATION_MARKER_SLACK := 100

  datatype Note = TextCut(shown: nat, total: nat) | StructuredOmitted(length: nat)

  /** A content block: one with a string under "text", or any other; `rest` stands for its other fields. */
  datatype Block =
    | Text(text: Bytes, rest: int)
    | Other(rest: int)
    | Marker(notes: seq<Note>, raise: bool)

  /** The payload as it came, or the rewritten envelope. */
  datatype Output = Raw | Rewritten(blocks: seq<Block>, keepsStructured: bool)

  function AllText(blocks: seq<Block>): Bytes {
    if blocks == [] then []
    else (if blocks[0].Text? then blocks[0].text else []) + AllText(blocks[1..])
  }

  function NonText(blocks: seq<Block>): seq<Block> {
    if blocks == [] then [] else (if blocks[0].Text? then [] else [blocks[0]]) + NonText(blocks[1..])
  }

  /** Back up from cut to a byte that may start a rune. */
  function BackUp(text: Bytes, cut: nat): (c: nat)
    requires cut < |text|
    ensures c <= cut && (c > 0 ==> RuneStart(text[c]))
    ensures forall i :: c < i <= cut ==> !RuneStart(text[i])
  {
    if cut > 0 && !RuneStart(text[cut]) then BackUp(text, cut - 1) else cut
  }

  /** The blocks kept under a budget of text bytes. */
  function Kept(blocks: seq<Block>, budget: nat): seq<Block> {
    if blocks == [] then []
    else
      var b := blocks[0];
      if !b.Text? then [b] + Kept(blocks[1..], budget)
      else if budget == 0 then Kept(blocks[1..], 0)
      else if |b.text| > budget then [b.(text := b.text[..BackUp(b.text, budget)])] + Kept(blocks[1..], 0)
      else [b] + Kept(blocks[1..], budget - |b.text|)
  }

  predicate Over(length: nat, maxChars: nat) { length > maxChars + TRUNCATION_MARKER_SLACK }

  /** What the full path answers for a parsed result. */
  function FullPath(blocks: seq<Block>, structuredLen: nat, maxChars: nat, explicitCap: bool): Output {
    var total := |AllText(blocks)|;
    var textOver, structuredOver := Over(total, maxChars), Over(structuredLen, maxChars);
    if blocks == [] || (!textOver && !structuredOver) then Raw
    else
      var notes := (if textOver then [TextCut(maxChars, total)] else [])
                   + (if structuredOver then [StructuredOmitted(structuredLen)] else []);
      Rewritten((if textOver then Kept(blocks, maxChars) else blocks) + [Marker(notes, explicitCap)], !structuredOver)
  }

  // ---- the loops ----

  method KeepWithin(blocks: seq<Block>, maxChars: nat) returns (kept: seq<Block>)
    ensures kept == Kept(blocks, maxChars)
  {
    kept := [];
    var budget: nat := maxChars;
    for i := 0 to |blocks|
      invariant kept + Kept(blocks[i..], budget) == Kept(blocks, maxChars)
    {
      var b, rest := blocks[i], blocks[i + 1..];
      assert blocks[i..][0] == b && blocks[i..][1..] == rest;
      if !b.Text? {
        Sorting.Reassociate(kept, [b], Kept(rest, budget));
        kept := kept + [b];
      } else if budget > 0 {
        if |b.text| > budget {
          var cut := budget;
          while cut > 0 && !RuneStart(b.text[cut])
            invariant cut <= budget && BackUp(b.text, cut) == BackUp(b.text, budget)
          {
            cut := cut - 1;
          }
          var nb := b.(text := b.text[..cut]);
          Sorting.Reassociate(kept, [nb], Kept(rest, 0));
          kept := kept + [nb];
          budget := 0;
        } else {
          Sorting.Reassociate(kept, [b], Kept(rest, budget - |b.text|));
          budget := budget - |b.text|;
          kept := kept + [b];
        }
      }
    }
    assert kept + [] == kept;
  }

  // ---- runes ----

  lemma DecodeHead(s: Bytes, t: Bytes)
    requires s != [] && DecodeRune(s) != ILL_FORMED
    requires t <= s && DecodeRune(s).width <= |t|
    ensures DecodeRune(t) == DecodeRune(s)
  {
  }

  lemma WellFormedHead(s: Bytes)
    requires s != [] && DecodeRune(s) != ILL_FORMED
    ensures RuneStart(s[0]) && forall i :: 1 <= i < DecodeRune(s).width ==> Continuation(s[i])
  {
  }

  /** In well-formed text a rune starts exactly where utf8.RuneStart says so. */
  lemma {:induction false} BoundaryIsRuneStart(s: Bytes, i: nat)
    requires WellFormedUtf8(s) && i < |s|
    ensures Boundary(s, i) <==> RuneStart(s[i])
    decreases i
  {
    WellFormedHead(s);
    var w := DecodeRune(s).width;
    if i >= w {
      BoundaryIsRuneStart(s[w..], i - w);
    }
  }

  /** No rune is longer than four bytes, so a boundary is never more than three away. */
  lemma {:induction false} BoundaryNearby(s: Bytes, i: nat) returns (j: nat)
    requires WellFormedUtf8(s) && i < |s|
    ensures j <= i <= j + 3 && Boundary(s, j)
    decreases i
  {
    var w := DecodeRune(s).width;
    if i < w {
      j := 0;
    } else {
      j := BoundaryNearby(s[w..], i - w);
      j := j + w;
    }
  }

  lemma {:induction false} PrefixWellFormed(s: Bytes, i: nat)
    requires WellFormedUtf8(s) && i <= |s| && Boundary(s, i)
    ensures WellFormedUtf8(s[..i])
    decreases i
  {
    if i > 0 {
      var w := DecodeRune(s).width;
      DecodeHead(s, s[..i]);
      PrefixWellFormed(s[w..], i - w);
      assert s[..i][w..] == s[w..][..i - w];
    }
  }

  lemma DecodeExtends(a: Bytes, b: Bytes)
    requires a != [] && DecodeRune(a) != ILL_FORMED
    ensures DecodeRune(a + b) == DecodeRune(a)
  {
  }

  lemma {:induction false} WellFormedSum(a: Bytes, b: Bytes)
    requires WellFormedUtf8(a) && WellFormedUtf8(b)
    ensures WellFormedUtf8(a + b)
    decreases |a|
  {
    hide DecodeRune;
    if a == [] {
      assert a + b == b;
    } else {
      var w := DecodeRune(a).width;
      DecodeExtends(a, b);
      WellFormedSum(a[w..], b);
      assert (a + b)[w..] == a[w..] + b;
    }
  }

  /** The cut is the greatest rune boundary within the budget, and at most three bytes short of it. */
  lemma BackUpFindsBoundary(text: Bytes, budget: nat)
    requires WellFormedUtf8(text) && budget < |text|
    ensures Boundary(text, BackUp(text, budget)) && budget <= BackUp(text, budget) + 3
    ensures forall i: nat :: i <= budget && Boundary(text, i) ==> i <= BackUp(text, budget)
  {
    var c := BackUp(text, budget);
    var j := BoundaryNearby(text, budget);
    BoundaryIsRuneStart(text, j);
    BoundaryIsRuneStart(text, c);
    forall i: nat | i <= budget && Boundary(text, i) ensures i <= c {
      BoundaryIsRuneStart(text, i);
    }
  }

  // ---- what truncation keeps ----

  predicate AllWellFormed(blocks: seq<Block>) {
    forall i :: 0 <= i < |blocks| && blocks[i].Text? ==> WellFormedUtf8(blocks[i].text)
  }

  lemma {:induction false} KeptNothing(blocks: seq<Block>)
    ensures AllText(Kept(blocks, 0)) == [] && Kept(blocks, 0) == NonText(blocks)
  {
    if blocks != [] {
      KeptNothing(blocks[1..]);
    }
  }

  /** Blocks without text survive, all of them and in order. */
  lemma {:induction false} NonTextSurvives(blocks: seq<Block>, budget: nat)
    ensures NonText(Kept(blocks, budget)) == NonText(blocks)
  {
    if blocks != [] {
      var b, rest := blocks[0], blocks[1..];
      if !b.Text? {
        NonTextSurvives(rest, budget);
        assert Kept(blocks, budget)[1..] == Kept(rest, budget);
      } else if budget == 0 {
        NonTextSurvives(rest, 0);
      } else if |b.text| > budget {
        NonTextSurvives(rest, 0);
        assert Kept(blocks, budget)[1..] == Kept(rest, 0);
      } else {
        NonTextSurvives(rest, budget - |b.text|);
        assert Kept(blocks, budget)[1..] == Kept(rest, budget - |b.text|);
      }
    }
  }

  /** The text that is kept is a prefix of all the text; under the budget it is all of it. */
  lemma {:induction false} KeptTextIsPrefix(blocks: seq<Block>, budget: nat)
    ensures AllText(Kept(blocks, budget)) <= AllText(blocks)
    ensures |AllText(Kept(blocks, budget))| <= budget
    ensures |AllText(blocks)| <= budget ==> AllText(Kept(blocks, budget)) == AllText(blocks)
  {
    if blocks != [] {
      var b, rest := blocks[0], blocks[1..];
      var kept := Kept(blocks, budget);
      if !b.Text? {
        KeptTextIsPrefix(rest, budget);
        assert kept[1..] == Kept(rest, budget);
        assert AllText(kept) == AllText(Kept(rest, budget));
      } else if budget == 0 {
        KeptNothing(rest);
      } else if |b.text| > budget {
        KeptNothing(rest);
        assert kept[1..] == Kept(rest, 0);
        assert AllText(kept) == b.text[..BackUp(b.text, budget)];
      } else {
        KeptTextIsPrefix(rest, budget - |b.text|);
        assert kept[1..] == Kept(rest, budget - |b.text|);
        assert AllText(kept) == b.text + AllText(Kept(rest, budget - |b.text|));
      }
    }
  }

  lemma EmptyWellFormed()
    ensures WellFormedUtf8([])
  {
  }

  /** Over the budget, what is kept ends on a rune boundary at most three bytes short of it. */
  lemma {:induction false} KeptTextFillsBudget(blocks: seq<Block>, budget: nat)
    requires AllWellFormed(blocks)
    ensures WellFormedUtf8(AllText(Kept(blocks, budget)))
    ensures |AllText(blocks)| > budget ==> budget <= |AllText(Kept(blocks, budget))| + 3
  {
    hide WellFormedUtf8;
    if blocks == [] {
      EmptyWellFormed();
    } else {
      var b, rest := blocks[0], blocks[1..];
      var kept := Kept(blocks, budget);
      assert AllWellFormed(rest);
      if !b.Text? {
        KeptTextFillsBudget(rest, budget);
        assert kept[1..] == Kept(rest, budget);
        assert AllText(kept) == AllText(Kept(rest, budget));
      } else if budget == 0 {
        KeptNothing(rest);
        EmptyWellFormed();
      } else if |b.text| > budget {
        KeptNothing(rest);
        BackUpFindsBoundary(b.text, budget);
        PrefixWellFormed(b.text, BackUp(b.text, budget));
        assert kept[1..] == Kept(rest, 0);
        assert AllText(kept) == b.text[..BackUp(b.text, budget)];
      } else {
        KeptTextFillsBudget(rest, budget - |b.text|);
        WellFormedSum(b.text, AllText(Kept(rest, budget - |b.text|)));
        assert kept[1..] == Kept(rest, budget - |b.text|);
        assert AllText(kept) == b.text + AllText(Kept(rest, budget - |b.text|));
      }
    }
  }

  // ---- what truncateToolResultTracked answers ----

  predicate MayCut(text: Bytes, budget: nat, c: nat) { c <= budget < |text| && (c == 0 || RuneStart(text[c])) }

  /** The last place at or before the budget where a rune may start. */
  ghost predicate CutsLast(text: Bytes, budget: nat, c: nat) {
    MayCut(text, budget, c) && forall i: nat :: MayCut(text, budget, i) ==> i <= c
  }

  /** The first i blocks as they are, what fits of the next one, and of the rest those without text. */
  ghost predicate CutAt(blocks: seq<Block>, budget: nat, kept: seq<Block>, i: nat, c: nat) {
    && i < |blocks| && blocks[i].Text? && |AllText(blocks[..i])| < budget
    && CutsLast(blocks[i].text, budget - |AllText(blocks[..i])|, c)
    && kept == blocks[..i] + [blocks[i].(text := blocks[i].text[..c])] + NonText(blocks[i + 1..])
  }

  /** The first i blocks use up the budget to the byte. */
  predicate EndsAt(blocks: seq<Block>, budget: nat, kept: seq<Block>, i: nat) {
    i <= |blocks| && |AllText(blocks[..i])| == budget && kept == blocks[..i] + NonText(blocks[i..])
  }

  ghost predicate CutOnce(blocks: seq<Block>, budget: nat, kept: seq<Block>) {
    || (exists i: nat, c: nat :: CutAt(blocks, budget, kept, i, c))
    || (exists i: nat :: EndsAt(blocks, budget, kept, i))
  }

  lemma {:induction false} AllTextSum(a: seq<Block>, b: seq<Block>)
    ensures AllText(a + b) == AllText(a) + AllText(b)
  {
    if a == [] {
      assert a + b == b;
    } else {
      assert (a + b)[1..] == a[1..] + b;
      AllTextSum(a[1..], b);
    }
  }

  lemma HeadCut(text: Bytes, budget: nat)
    requires budget < |text|
    ensures CutsLast(text, budget, BackUp(text, budget))
  {
  }

  lemma HeadAndPart(b: Block, rest: seq<Block>, i: nat)
    requires i <= |rest|
    ensures ([b] + rest)[..i + 1] == [b] + rest[..i] && ([b] + rest)[i + 1..] == rest[i..]
    ensures |AllText(([b] + rest)[..i + 1])| == |AllText([b])| + |AllText(rest[..i])|
  {
    assert ([b] + rest)[..i + 1] == [b] + rest[..i];
    AllTextSum([b], rest[..i]);
  }

  lemma CutFurther(b: Block, rest: seq<Block>, used: nat, budget: nat, kept: seq<Block>, i: nat, c: nat)
    requires used == |AllText([b])| <= budget && CutAt(rest, budget - used, kept, i, c)
    ensures CutAt([b] + rest, budget, [b] + kept, i + 1, c)
  {
    hide AllText, NonText;
    HeadAndPart(b, rest, i);
    assert ([b] + rest)[i + 1] == rest[i] && ([b] + rest)[i + 2..] == rest[i + 1..];
    var nb := rest[i].(text := rest[i].text[..c]);
    assert [b] + (rest[..i] + [nb] + NonText(rest[i + 1..])) == [b] + rest[..i] + [nb] + NonText(rest[i + 1..]);
  }

  lemma EndFurther(b: Block, rest: seq<Block>, used: nat, budget: nat, kept: seq<Block>, i: nat)
    requires used == |AllText([b])| <= budget && EndsAt(rest, budget - used, kept, i)
    ensures EndsAt([b] + rest, budget, [b] + kept, i + 1)
  {
    hide AllText, NonText;
    HeadAndPart(b, rest, i);
    Sorting.Reassociate([b], rest[..i], NonText(rest[i..]));
  }

  lemma CutOnceFurther(b: Block, rest: seq<Block>, used: nat, budget: nat, kept: seq<Block>)
    requires used == |AllText([b])| <= budget && CutOnce(rest, budget - used, kept)
    ensures CutOnce([b] + rest, budget, [b] + kept)
  {
    hide CutAt, EndsAt;
    var left: nat := budget - used;
    if i: nat, c: nat :| CutAt(rest, left, kept, i, c) {
      CutFurther(b, rest, used, budget, kept, i, c);
    } else {
      var i: nat :| EndsAt(rest, left, kept, i);
      EndFurther(b, rest, used, budget, kept, i);
    }
  }

  lemma HeadFits(b: Block, rest: seq<Block>, budget: nat)
    requires budget > 0 && |AllText([b])| <= budget
    ensures Kept([b] + rest, budget) == [b] + Kept(rest, budget - |AllText([b])|)
  {
    assert ([b] + rest)[1..] == rest;
  }

  /** Over the budget the blocks are cut in one place: either inside one block's text or between two. */
  lemma {:induction false} KeptIsCutOnce(blocks: seq<Block>, budget: nat)
    requires |AllText(blocks)| > budget
    ensures CutOnce(blocks, budget, Kept(blocks, budget))
  {
    var b, rest := blocks[0], blocks[1..];
    assert blocks == [b] + rest;
    AllTextSum([b], rest);
    if budget == 0 {
      KeptNothing(blocks);
      assert EndsAt(blocks, 0, Kept(blocks, 0), 0);
    } else if |AllText([b])| > budget {
      KeptNothing(rest);
      HeadCut(b.text, budget);
      assert CutAt(blocks, budget, Kept(blocks, budget), 0, BackUp(b.text, budget));
    } else {
      hide AllText, CutOnce, Kept;
      var used := |AllText([b])|;
      KeptIsCutOnce(rest, budget - used);
      CutOnceFurther(b, rest, used, budget, Kept(rest, budget - used));
      HeadFits(b, rest, budget);
    }
  }

  /** What is kept of the blocks under a cap that their text is over: all that is not text, and of the text a
      prefix within the cap, cut in one place; if the text is well-formed, no more than three bytes are wasted. */
  ghost predicate KeepsUpTo(blocks: seq<Block>, maxChars: nat, kept: seq<Block>) {
    && NonText(kept) == NonText(blocks)
    && AllText(kept) <= AllText(blocks) && |AllText(kept)| <= maxChars
    && (AllWellFormed(blocks) ==> WellFormedUtf8(AllText(kept)) && maxChars <= |AllText(kept)| + 3)
    && CutOnce(blocks, maxChars, kept)
  }

  lemma KeptKeepsUpTo(blocks: seq<Block>, maxChars: nat)
    requires |AllText(blocks)| > maxChars
    ensures KeepsUpTo(blocks, maxChars, Kept(blocks, maxChars))
  {
    hide AllText, NonText, Kept, WellFormedUtf8, CutOnce;
    NonTextSurvives(blocks, maxChars);
    KeptTextIsPrefix(blocks, maxChars);
    KeptIsCutOnce(blocks, maxChars);
    if AllWellFormed(blocks) {
      KeptTextFillsBudget(blocks, maxChars);
    }
  }

  /** What a parsed result is to become, beyond the fast path. */
  ghost predicate Capped(blocks: seq<Block>, structuredLen: nat, maxChars: nat, explicitCap: bool, out: Output) {
    var total := |AllText(blocks)|;
    && (out.Rewritten? <==> blocks != [] && (total > maxChars + 100 || structuredLen > maxChars + 100))
    && (out.Rewritten? ==>
          && (out.keepsStructured <==> structuredLen <= maxChars + 100)
          && out.blocks != []
          && var kept, marker := out.blocks[..|out.blocks| - 1], out.blocks[|out.blocks| - 1];
             && (if total > maxChars + 100 then KeepsUpTo(blocks, maxChars, kept) else kept == blocks)
             && marker.Marker? && marker.raise == explicitCap
             && Sorting.Distinct(marker.notes) && (|marker.notes| == 2 ==> marker.notes[0].TextCut?)
             && forall note :: note in marker.notes <==>
                  || (note == TextCut(maxChars, total) && total > maxChars + 100)
                  || (note == StructuredOmitted(structuredLen) && structuredLen > maxChars + 100))
  }

  lemma FullPathCaps(blocks: seq<Block>, structuredLen: nat, maxChars: nat, explicitCap: bool)
    ensures Capped(blocks, structuredLen, maxChars, explicitCap, FullPath(blocks, structuredLen, maxChars, explicitCap))
  {
    hide KeepsUpTo, Kept, AllText;
    var out := FullPath(blocks, structuredLen, maxChars, explicitCap);
    if out.Rewritten? {
      var kept := if |AllText(blocks)| > maxChars + 100 then Kept(blocks, maxChars) else blocks;
      assert out.blocks[..|out.blocks| - 1] == kept;
      if |AllText(blocks)| > maxChars + 100 {
        KeptKeepsUpTo(blocks, maxChars);
      }
    }
  }

  /** truncateToolResultTracked; blocks is None when the payload or its content does not parse. */
  method TruncateToolResult(rawLen: nat, blocks: Option<seq<Block>>, structuredLen: nat, maxChars: nat,
          explicitCap: bool)
    returns (out: Output, truncated: bool)
    ensures out == if rawLen <= maxChars + TRUNCATION_MARKER_SLACK || blocks.None? then Raw
                   else FullPath(blocks.value, structuredLen, maxChars, explicitCap)
    ensures rawLen > maxChars + TRUNCATION_MARKER_SLACK && blocks.Some? ==>
              Capped(blocks.value, structuredLen, maxChars, explicitCap, out)
    ensures truncated == out.Rewritten?
  {
    hide Capped, Kept, NonText;
    if rawLen <= maxChars + TRUNCATION_MARKER_SLACK {
      return Raw, false;
    }
    if blocks.None? {
      return Raw, false;
    }
    FullPathCaps(blocks.value, structuredLen, maxChars, explicitCap);
    if |blocks.value| == 0 {
      return Raw, false;
    }
    var total := 0;
    for i := 0 to |blocks.value|
      invariant total + |AllText(blocks.value[i..])| == |AllText(blocks.value)|
    {
      assert blocks.value[i..][1..] == blocks.value[i + 1..];
      if blocks.value[i].Text? {
        total := total + |blocks.value[i].text|;
      }
    }
    assert AllText(blocks.value[|blocks.value|..]) == [];
    var textOver := total > maxChars + TRUNCATION_MARKER_SLACK;
    var structuredOver := structuredLen > maxChars + TRUNCATION_MARKER_SLACK;
    if !textOver && !structuredOver {
      return Raw, false;
    }
    var kept := blocks.value;
    if textOver {
      kept := KeepWithin(blocks.value, maxChars);
    }
    var notes: seq<Note> := [];
    if textOver {
      notes := notes + [TextCut(maxChars, total)];
    }
    if structuredOver {
      notes := notes + [StructuredOmitted(structuredLen)];
    }
    assert notes == (if textOver then [TextCut(maxChars, total)] else [])
                    + (if structuredOver then [StructuredOmitted(structuredLen)] else []);
    out, truncated := Rewritten(kept + [Marker(notes, explicitCap)], !structuredOver), true;
  }

  // ---- the fast path ----

  /** A piece of a JSON string literal: the raw bytes it takes and the text it stands for. */
  datatype Piece =
    | Plain(bytes: Bytes)      // well-formed UTF-8, as it stands
    | IllFormed(byte: Byte)    // a stray byte: decodes to U+FFFD
    | Short(byte: Byte)        // \n, \" and the like
    | Unicode(rune: Rune)      // \uXXXX
    | Surrogates(rune: Rune)   // \uXXXX\uXXXX

  predicate ValidPiece(p: Piece) {
    match p
    case Unicode(rune) => rune < 0x10000
    case Surrogates(rune) => 0x10000 <= rune
    case _ => true
  }

  function RawLen(p: Piece): nat {
    match p
    case Plain(bytes) => |bytes|
    case IllFormed(_) => 1
    case Short(_) => 2
    case Unicode(_) => 6
    case Surrogates(_) => 12
  }

  function Unquoted(p: Piece): Bytes {
    match p
    case Plain(bytes) => bytes
    case IllFormed(_) => EncodeRune(RUNE_ERROR)
    case Short(byte) => [byte]
    case Unicode(rune) => EncodeRune(rune)
    case Surrogates(rune) => EncodeRune(rune)
  }

  function LiteralLen(pieces: seq<Piece>): nat {
    if pieces == [] then 0 else RawLen(pieces[0]) + LiteralLen(pieces[1..])
  }

  function LiteralText(pieces: seq<Piece>): Bytes {
    if pieces == [] then [] else Unquoted(pieces[0]) + LiteralText(pieces[1..])
  }

  /** A raw result: the literals of its text blocks, its structuredContent, and `frame` bytes of anything else. */
  datatype Document = Document(texts: seq<seq<Piece>>, structuredLen: nat, frame: nat)

  function TextsLen(texts: seq<seq<Piece>>): nat {
    if texts == [] then 0 else LiteralLen(texts[0]) + TextsLen(texts[1..])
  }

  function TextsTotal(texts: seq<seq<Piece>>): nat {
    if texts == [] then 0 else |LiteralText(texts[0])| + TextsTotal(texts[1..])
  }

  function DocumentLen(d: Document): nat { d.frame + d.structuredLen + TextsLen(d.texts) }

  /** The stray bytes of a literal. */
  function Strays(pieces: seq<Piece>): nat {
    if pieces == [] then 0 else Strays(pieces[1..]) + if pieces[0].IllFormed? then 1 else 0
  }

  function StraysIn(texts: seq<seq<Piece>>): nat {
    if texts == [] then 0 else Strays(texts[0]) + StraysIn(texts[1..])
  }

  /** The length of {"content":[{"text":""}]}, the least there is around a text. */
  const MIN_FRAME := 25

  /** A document, and the blocks that it decodes to. */
  ghost predicate Decodes(d: Document, blocks: seq<Block>) {
    && |AllText(blocks)| == TextsTotal(d.texts)
    && (d.texts != [] ==> d.frame >= MIN_FRAME)
    && forall i, j :: 0 <= i < |d.texts| && 0 <= j < |d.texts[i]| ==> ValidPiece(d.texts[i][j])
  }

  /** Decoding a literal shortens it, but for its stray bytes: each becomes the three of U+FFFD. */
  lemma {:induction false} LiteralGrowth(pieces: seq<Piece>)
    requires forall i :: 0 <= i < |pieces| ==> ValidPiece(pieces[i])
    ensures |LiteralText(pieces)| <= LiteralLen(pieces) + 2 * Strays(pieces)
  {
    if pieces != [] {
      LiteralGrowth(pieces[1..]);
    }
  }

  lemma {:induction false} TextsGrowth(texts: seq<seq<Piece>>)
    requires forall i, j :: 0 <= i < |texts| && 0 <= j < |texts[i]| ==> ValidPiece(texts[i][j])
    ensures TextsTotal(texts) <= TextsLen(texts) + 2 * StraysIn(texts)
  {
    if texts != [] {
      LiteralGrowth(texts[0]);
      TextsGrowth(texts[1..]);
    }
  }

  /** The size test lets a document of at most k stray bytes through that the full path would cut. */
  ghost predicate SlipsPast(d: Document, blocks: seq<Block>, maxChars: nat, explicitCap: bool, k: nat) {
    && Decodes(d, blocks) && StraysIn(d.texts) <= k && DocumentLen(d) <= maxChars + TRUNCATION_MARKER_SLACK
    && FullPath(blocks, d.structuredLen, maxChars, explicitCap) != Raw
  }

  function Letters(n: nat): Bytes { seq(n, _ => 0x61) }

  function Bad(n: nat): seq<Piece> {
    if n == 0 then [] else [IllFormed(0xFF)] + Bad(n - 1)
  }

  lemma {:induction false} BadGrows(n: nat)
    ensures LiteralLen(Bad(n)) == n == Strays(Bad(n)) && |LiteralText(Bad(n))| == 3 * n
    ensures forall i :: 0 <= i < |Bad(n)| ==> ValidPiece(Bad(n)[i])
  {
    if n > 0 {
      BadGrows(n - 1);
    }
  }

  /** Thirteen stray bytes are enough, under any cap. */
  lemma ThirteenSlipPast(maxChars: nat, explicitCap: bool) returns (d: Document, blocks: seq<Block>)
    ensures SlipsPast(d, blocks, maxChars, explicitCap, 13)
  {
    var letters := Letters(maxChars + TRUNCATION_MARKER_SLACK - MIN_FRAME - 13);
    var pieces := [Plain(letters)] + Bad(13);
    BadGrows(13);
    assert pieces[1..] == Bad(13);
    d := Document([pieces], 0, MIN_FRAME);
    blocks := [Text(LiteralText(pieces), 0)];
    assert TextsLen(d.texts) == LiteralLen(pieces) + TextsLen([]);
    assert TextsTotal(d.texts) == |LiteralText(pieces)| + TextsTotal([]);
    assert StraysIn(d.texts) == Strays(pieces) + StraysIn([]);
    assert AllText(blocks) == LiteralText(pieces) + AllText([]);
  }

  /** Under every cap the size test answers Raw only when the full path would, for all documents of at most k
      bytes of ill-formed UTF-8, exactly if k is at most twelve. For valid UTF-8 it always does. */
  lemma FastPathIsExact(maxChars: nat, explicitCap: bool, k: nat)
    ensures (forall d, blocks :: !SlipsPast(d, blocks, maxChars, explicitCap, k)) <==> k <= 12
  {
    if k <= 12 {
      forall d, blocks ensures !SlipsPast(d, blocks, maxChars, explicitCap, k) {
        if Decodes(d, blocks) {
          TextsGrowth(d.texts);
        }
      }
    } else {
      var d, blocks := ThirteenSlipPast(maxChars, explicitCap);
      assert SlipsPast(d, blocks, maxChars, explicitCap, k);
    }
  }
}
