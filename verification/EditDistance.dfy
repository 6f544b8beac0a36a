/**
 Edit distance and name suggestions (pkg/migrate/installer.go). Strings are byte strings: the code
 indexes bytes.
 */
module EditDistance {
  import opened Utf8
  import Sorting

  function Min3(a: nat, b: nat, c: nat): nat {
    var m := if b < a then b else a;
    if c < m then c else m
  }

  function Cost(x: Byte, y: Byte): nat { if x == y then 0 else 1 }

  /** The distance of the first i bytes of a and the first j of b: a cell of levenshtein's table. */
  function Cell(a: Bytes, b: Bytes, i: nat, j: nat): nat
    requires i <= |a| && j <= |b|
  {
    if i == 0 then j
    else if j == 0 then i
    else
      Min3(Cell(a, b, i, j - 1) + 1, Cell(a, b, i - 1, j) + 1, Cell(a, b, i - 1, j - 1) + Cost(a[i - 1], b[j - 1]))
  }

  function Dist(a: Bytes, b: Bytes): nat { Cell(a, b, |a|, |b|) }

  lemma CellStep(a: Bytes, b: Bytes, i: nat, j: nat)
    requires 0 < i <= |a| && 0 < j <= |b|
    ensures Cell(a, b, i, j) ==
              Min3(Cell(a, b, i, j - 1) + 1, Cell(a, b, i - 1, j) + 1,
                   Cell(a, b, i - 1, j - 1) + Cost(a[i - 1], b[j - 1]))
  {
  }

  lemma CellEdge(a: Bytes, b: Bytes, i: nat, j: nat)
    requires i <= |a| && j <= |b| && (i == 0 || j == 0)
    ensures Cell(a, b, i, j) == if i == 0 then j else i
  {
  }

  // ---- the loops ----

  lemma {:induction false} CellZero(a: Bytes, i: nat)
    requires i <= |a|
    ensures Cell(a, a, i, i) == 0
  {
    if i > 0 {
      CellZero(a, i - 1);
    }
  }

  lemma {:induction false} CellSymmetric(a: Bytes, b: Bytes, i: nat, j: nat)
    requires i <= |a| && j <= |b|
    ensures Cell(a, b, i, j) == Cell(b, a, j, i)
  {
    hide Cell;
    if i == 0 || j == 0 {
      CellEdge(a, b, i, j);
      CellEdge(b, a, j, i);
    } else {
      CellStep(a, b, i, j);
      CellStep(b, a, j, i);
      CellSymmetric(a, b, i, j - 1);
      CellSymmetric(a, b, i - 1, j);
      CellSymmetric(a, b, i - 1, j - 1);
    }
  }

  lemma Symmetric(a: Bytes, b: Bytes)
    ensures Dist(a, b) == Dist(b, a)
  {
    CellSymmetric(a, b, |a|, |b|);
  }

  /** levenshtein: two rows, swapped after each line of the table, the shorter string across. */
  method Levenshtein(a0: Bytes, b0: Bytes) returns (d: nat)
    ensures d == Dist(a0, b0)
  {
    hide Cell;
    if a0 == b0 {
      CellZero(a0, |a0|);
      return 0;
    }
    if |a0| == 0 {
      CellEdge(a0, b0, 0, |b0|);
      return |b0|;
    }
    if |b0| == 0 {
      CellEdge(a0, b0, |a0|, 0);
      return |a0|;
    }
    var a, b := a0, b0;
    if |a| < |b| {
      a, b := b, a;
      Symmetric(a0, b0);
    }
    var prev, curr := new nat[|b| + 1], new nat[|b| + 1];
    for i := 0 to |b| + 1
      invariant forall j :: 0 <= j < i ==> prev[j] == Cell(a, b, 0, j)
    {
      CellEdge(a, b, 0, i);
      prev[i] := i;
    }
    for i := 1 to |a| + 1
      invariant prev != curr && prev.Length == curr.Length == |b| + 1
      invariant fresh(prev) && fresh(curr)
      invariant forall j :: 0 <= j <= |b| ==> prev[j] == Cell(a, b, i - 1, j)
    {
      CellEdge(a, b, i, 0);
      curr[0] := i;
      for j := 1 to |b| + 1
        invariant forall k :: 0 <= k <= |b| ==> prev[k] == Cell(a, b, i - 1, k)
        invariant forall k :: 0 <= k < j ==> curr[k] == Cell(a, b, i, k)
      {
        var cost := 1;
        if a[i - 1] == b[j - 1] {
          cost := 0;
        }
        CellStep(a, b, i, j);
        curr[j] := Min3(curr[j - 1] + 1, prev[j] + 1, prev[j - 1] + cost);
      }
      prev, curr := curr, prev;
    }
    d := prev[|b|];
  }

  // ---- a metric ----

  lemma {:induction false} CellZeroOnly(a: Bytes, b: Bytes, i: nat, j: nat)
    requires i <= |a| && j <= |b| && Cell(a, b, i, j) == 0
    ensures i == j && a[..i] == b[..j]
  {
    if i > 0 && j > 0 {
      CellZeroOnly(a, b, i - 1, j - 1);
      assert a[..i] == a[..i - 1] + [a[i - 1]] && b[..j] == b[..j - 1] + [b[j - 1]];
    }
  }

  /** The distance is zero exactly between equal strings. */
  lemma ZeroMeansEqual(a: Bytes, b: Bytes)
    ensures Dist(a, b) == 0 <==> a == b
  {
    if Dist(a, b) == 0 {
      CellZeroOnly(a, b, |a|, |b|);
      assert a[..|a|] == a && b[..|b|] == b;
    }
    if a == b {
      CellZero(a, |a|);
    }
  }

  lemma {:induction false} CellBounds(a: Bytes, b: Bytes, i: nat, j: nat)
    requires i <= |a| && j <= |b|
    ensures j <= i + Cell(a, b, i, j) && i <= j + Cell(a, b, i, j)
    ensures Cell(a, b, i, j) <= i + j
  {
    hide Cell;
    if i == 0 || j == 0 {
      CellEdge(a, b, i, j);
    } else {
      CellStep(a, b, i, j);
      CellBounds(a, b, i, j - 1);
      CellBounds(a, b, i - 1, j);
      CellBounds(a, b, i - 1, j - 1);
    }
  }

  lemma CellEdges(a: Bytes, b: Bytes, c: Bytes, i: nat, j: nat, k: nat)
    requires i <= |a| && j <= |b| && k <= |c| && (i == 0 || j == 0 || k == 0)
    ensures i == 0 ==> Cell(a, b, i, j) == j && Cell(a, c, i, k) == k
    ensures j == 0 ==> Cell(a, b, i, j) == i && Cell(b, c, j, k) == k
    ensures k == 0 ==> Cell(b, c, j, k) == j && Cell(a, c, i, k) == i
  {
  }

  lemma {:induction false} CellTriangle(a: Bytes, b: Bytes, c: Bytes, i: nat, j: nat, k: nat)
    requires i <= |a| && j <= |b| && k <= |c|
    ensures Cell(a, c, i, k) <= Cell(a, b, i, j) + Cell(b, c, j, k)
  {
    hide Cell;
    if i == 0 || j == 0 || k == 0 {
      CellEdges(a, b, c, i, j, k);
      CellBounds(a, b, i, j);
      CellBounds(b, c, j, k);
      CellBounds(a, c, i, k);
    } else {
      CellStep(a, b, i, j);
      CellStep(b, c, j, k);
      CellStep(a, c, i, k);
      CellTriangle(a, b, c, i - 1, j, k);
      CellTriangle(a, b, c, i, j, k - 1);
      CellTriangle(a, b, c, i, j - 1, k);
      CellTriangle(a, b, c, i - 1, j - 1, k);
      CellTriangle(a, b, c, i, j - 1, k - 1);
      CellTriangle(a, b, c, i - 1, j - 1, k - 1);
    }
  }

  lemma Triangle(a: Bytes, b: Bytes, c: Bytes)
    ensures Dist(a, c) <= Dist(a, b) + Dist(b, c)
  {
    CellTriangle(a, b, c, |a|, |b|, |c|);
  }

  // ---- shortest scripts ----

  datatype Edit =
    | Insert(at: nat, byte: Byte)
    | Delete(at: nat)
    | Substitute(at: nat, byte: Byte)

  /** The edit can be made to s. */
  predicate Fits(e: Edit, s: Bytes) {
    match e
    case Insert(at, _) => at <= |s|
    case Delete(at) => at < |s|
    case Substitute(at, _) => at < |s|
  }

  function Make(e: Edit, s: Bytes): Bytes
    requires Fits(e, s)
  {
    match e
    case Insert(at, byte) => s[..at] + [byte] + s[at..]
    case Delete(at) => s[..at] + s[at + 1..]
    case Substitute(at, byte) => s[..at] + [byte] + s[at + 1..]
  }

  /** Making the edits one after the other, anywhere in the string, turns a into b. */
  predicate Script(edits: seq<Edit>, a: Bytes, b: Bytes)
    decreases edits
  {
    if edits == [] then a == b
    else Fits(edits[0], a) && Script(edits[1..], Make(edits[0], a), b)
  }

  lemma {:induction false} CellIsLocal(a: Bytes, b: Bytes, a2: Bytes, b2: Bytes, i: nat, j: nat)
    requires i <= |a| && j <= |b| && i <= |a2| && j <= |b2|
    requires forall k :: 0 <= k < i ==> a[k] == a2[k]
    requires forall k :: 0 <= k < j ==> b[k] == b2[k]
    ensures Cell(a, b, i, j) == Cell(a2, b2, i, j)
  {
    hide Cell;
    if i == 0 || j == 0 {
      CellEdge(a, b, i, j);
      CellEdge(a2, b2, i, j);
    } else {
      CellStep(a, b, i, j);
      CellStep(a2, b2, i, j);
      CellIsLocal(a, b, a2, b2, i, j - 1);
      CellIsLocal(a, b, a2, b2, i - 1, j);
      CellIsLocal(a, b, a2, b2, i - 1, j - 1);
    }
  }

  lemma {:induction false} CellSuffix(a: Bytes, b: Bytes, t: Bytes, n: nat)
    requires n <= |t|
    ensures Cell(a + t, b + t, |a| + n, |b| + n) <= Dist(a, b)
  {
    if n == 0 {
      CellIsLocal(a + t, b + t, a, b, |a|, |b|);
    } else {
      CellSuffix(a, b, t, n - 1);
      assert (a + t)[|a| + n - 1] == (b + t)[|b| + n - 1];
    }
  }

  lemma SuffixBound(a: Bytes, b: Bytes, t: Bytes)
    ensures Dist(a + t, b + t) <= Dist(a, b)
  {
    CellSuffix(a, b, t, |t|);
  }

  lemma EndBound(p: Bytes, x: Byte, y: Byte)
    ensures Dist(p, p + [x]) <= 1 && Dist(p + [x], p) <= 1 && Dist(p + [x], p + [y]) <= 1
  {
    var n := |p|;
    CellZero(p, n);
    CellIsLocal(p, p + [x], p, p, n, n);
    CellIsLocal(p + [x], p + [y], p, p, n, n);
    Symmetric(p + [x], p);
  }

  lemma InsertBound(p: Bytes, x: Byte, t: Bytes)
    ensures Dist(p + t, p + [x] + t) <= 1 && Dist(p + [x] + t, p + t) <= 1
  {
    EndBound(p, x, x);
    SuffixBound(p, p + [x], t);
    SuffixBound(p + [x], p, t);
  }

  lemma SubstituteBound(p: Bytes, x: Byte, y: Byte, t: Bytes)
    ensures Dist(p + [x] + t, p + [y] + t) <= 1
  {
    EndBound(p, x, y);
    SuffixBound(p + [x], p + [y], t);
  }

  lemma SplitAt(s: Bytes, k: nat)
    requires k <= |s|
    ensures s == s[..k] + s[k..]
    ensures k < |s| ==> s == s[..k] + [s[k]] + s[k + 1..]
  {
  }

  /** No single edit moves a string by more than one. */
  lemma EditBound(e: Edit, s: Bytes)
    requires Fits(e, s)
    ensures Dist(s, Make(e, s)) <= 1
  {
    hide Dist;
    SplitAt(s, e.at);
    match e
    case Insert(at, byte) => InsertBound(s[..at], byte, s[at..]);
    case Delete(at) => InsertBound(s[..at], s[at], s[at + 1..]);
    case Substitute(at, byte) => SubstituteBound(s[..at], s[at], byte, s[at + 1..]);
  }

  /** No script from a to b is shorter than the distance. */
  lemma {:induction false} NoShorterScript(edits: seq<Edit>, a: Bytes, b: Bytes)
    requires Script(edits, a, b)
    ensures Dist(a, b) <= |edits|
    decreases edits
  {
    if edits == [] {
      CellZero(a, |a|);
    } else {
      NoShorterScript(edits[1..], Make(edits[0], a), b);
      EditBound(edits[0], a);
      Triangle(a, Make(edits[0], a), b);
    }
  }

  lemma NoEdits(a: Bytes, b: Bytes)
    ensures Script([], a[..0], b[..0])
  {
  }

  lemma LastByte(s: Bytes, i: nat)
    requires 0 < i <= |s|
    ensures s[..i] == s[..i - 1] + [s[i - 1]]
  {
  }

  lemma {:induction false} ScriptExtends(edits: seq<Edit>, a: Bytes, b: Bytes, e: Edit)
    requires Script(edits, a, b) && Fits(e, b)
    ensures Script(edits + [e], a, Make(e, b))
    decreases edits
  {
    if edits == [] {
      assert (edits + [e])[1..] == [];
    } else {
      ScriptExtends(edits[1..], Make(edits[0], a), b, e);
      assert (edits + [e])[1..] == edits[1..] + [e];
    }
  }

  lemma ThenInsert(rest: seq<Edit>, a: Bytes, b: Bytes, j: nat) returns (edits: seq<Edit>)
    requires 0 < j <= |b| && Script(rest, a, b[..j - 1])
    ensures Script(edits, a, b[..j]) && |edits| == |rest| + 1
  {
    var e := Insert(j - 1, b[j - 1]);
    edits := rest + [e];
    ScriptExtends(rest, a, b[..j - 1], e);
    LastByte(b, j);
    assert Make(e, b[..j - 1]) == b[..j];
  }

  lemma DeleteThen(rest: seq<Edit>, a: Bytes, i: nat, b: Bytes) returns (edits: seq<Edit>)
    requires 0 < i <= |a| && Script(rest, a[..i - 1], b)
    ensures Script(edits, a[..i], b) && |edits| == |rest| + 1
  {
    edits := [Delete(i - 1)] + rest;
    assert Make(edits[0], a[..i]) == a[..i - 1] && edits[1..] == rest;
  }

  lemma SlicesOfSum(s: Bytes, t: Bytes, k: nat)
    requires k <= |s|
    ensures (s + t)[..k] == s[..k] && (s + t)[k..] == s[k..] + t
  {
  }

  lemma MakeWithTail(e: Edit, s: Bytes, t: Bytes)
    requires Fits(e, s)
    ensures Fits(e, s + t) && Make(e, s + t) == Make(e, s) + t
  {
    SlicesOfSum(s, t, e.at);
    match e
    case Insert(at, byte) => Sorting.Reassociate(s[..at] + [byte], s[at..], t);
    case Delete(at) =>
      SlicesOfSum(s, t, at + 1);
      Sorting.Reassociate(s[..at], s[at + 1..], t);
    case Substitute(at, byte) =>
      SlicesOfSum(s, t, at + 1);
      Sorting.Reassociate(s[..at] + [byte], s[at + 1..], t);
  }

  lemma {:induction false} ScriptWithTail(edits: seq<Edit>, a: Bytes, b: Bytes, t: Bytes)
    requires Script(edits, a, b)
    ensures Script(edits, a + t, b + t)
    decreases edits
  {
    if edits != [] {
      MakeWithTail(edits[0], a, t);
      ScriptWithTail(edits[1..], Make(edits[0], a), b, t);
    }
  }

  lemma ThenMatch(rest: seq<Edit>, a: Bytes, b: Bytes, i: nat, j: nat) returns (edits: seq<Edit>)
    requires 0 < i <= |a| && 0 < j <= |b| && Script(rest, a[..i - 1], b[..j - 1])
    ensures Script(edits, a[..i], b[..j]) && |edits| == |rest| + Cost(a[i - 1], b[j - 1])
  {
    var x, y := a[i - 1], b[j - 1];
    ScriptWithTail(rest, a[..i - 1], b[..j - 1], [x]);
    LastByte(a, i);
    LastByte(b, j);
    edits := rest;
    if x != y {
      var e := Substitute(j - 1, y);
      edits := rest + [e];
      ScriptExtends(rest, a[..i], b[..j - 1] + [x], e);
      assert Make(e, b[..j - 1] + [x]) == b[..j];
    }
  }

  lemma {:induction false} ScriptForCell(a: Bytes, b: Bytes, i: nat, j: nat) returns (edits: seq<Edit>)
    requires i <= |a| && j <= |b|
    ensures Script(edits, a[..i], b[..j]) && |edits| == Cell(a, b, i, j)
    decreases i + j
  {
    hide Cell, Script;
    if i == 0 || j == 0 {
      CellEdge(a, b, i, j);
    } else {
      CellStep(a, b, i, j);
    }
    if i == 0 && j == 0 {
      edits := [];
      NoEdits(a, b);
    } else if i == 0 || (j > 0 && Cell(a, b, i, j) == Cell(a, b, i, j - 1) + 1) {
      if i == 0 { CellEdge(a, b, 0, j - 1); }
      var rest := ScriptForCell(a, b, i, j - 1);
      edits := ThenInsert(rest, a[..i], b, j);
    } else if j == 0 || Cell(a, b, i, j) == Cell(a, b, i - 1, j) + 1 {
      if j == 0 { CellEdge(a, b, i - 1, 0); }
      var rest := ScriptForCell(a, b, i - 1, j);
      edits := DeleteThen(rest, a, i, b[..j]);
    } else {
      var rest := ScriptForCell(a, b, i - 1, j - 1);
      edits := ThenMatch(rest, a, b, i, j);
    }
  }

  /** A script of exactly that length. */
  lemma ShortestScript(a: Bytes, b: Bytes) returns (edits: seq<Edit>)
    ensures Script(edits, a, b) && |edits| == Dist(a, b)
  {
    edits := ScriptForCell(a, b, |a|, |b|);
    assert a[..|a|] == a && b[..|b|] == b;
  }

  // ---- suggestions ----

  datatype Scored = Scored(name: Bytes, score: nat)

  predicate Closer(a: Scored, b: Scored) { a.score <= b.score }

  /** A name that may be suggested: not empty and, lower-cased, not what was asked for. */
  predicate Eligible(lower: Bytes -> Bytes, want: Bytes, name: Bytes) {
    name != [] && lower(name) != want
  }

  function ScoreOf(lower: Bytes -> Bytes, want: Bytes, name: Bytes): nat { Dist(want, lower(name)) }

  function Candidates(lower: Bytes -> Bytes, want: Bytes, names: seq<Bytes>): seq<Scored> {
    if names == [] then []
    else
      (if Eligible(lower, want, names[0]) then [Scored(names[0], ScoreOf(lower, want, names[0]))] else [])
      + Candidates(lower, want, names[1..])
  }

  /** SuggestSimilar's whole ranking, before the limit. */
  function Ranking(lower: Bytes -> Bytes, want: Bytes, names: seq<Bytes>): seq<Scored> {
    Sorting.Sort(Closer, Candidates(lower, want, names))
  }

  function Limited(ranking: seq<Scored>, limit: int): seq<Scored> {
    if limit > 0 && |ranking| > limit then ranking[..limit] else ranking
  }

  function Names(ranking: seq<Scored>): (names: seq<Bytes>)
    ensures |names| == |ranking| && forall i :: 0 <= i < |ranking| ==> names[i] == ranking[i].name
  {
    seq(|ranking|, i requires 0 <= i < |ranking| => ranking[i].name)
  }

  /** SuggestSimilar; `lower` is strings.ToLower. */
  method SuggestSimilar(lower: Bytes -> Bytes, needle: Bytes, names: seq<Bytes>, limit: int) returns (out: seq<Bytes>)
    ensures out == Names(Limited(Ranking(lower, lower(needle), names), limit))
  {
    var want := lower(needle);
    var scored: seq<Scored> := [];
    for i := 0 to |names|
      invariant scored + Candidates(lower, want, names[i..]) == Candidates(lower, want, names)
    {
      assert names[i..][1..] == names[i + 1..];
      ghost var rest := Candidates(lower, want, names[i + 1..]);
      var entry: seq<Scored> := [];
      if names[i] != [] {
        var low := lower(names[i]);
        if low != want {
          var score := Levenshtein(want, low);
          entry := [Scored(names[i], score)];
        }
      }
      Sorting.Reassociate(scored, entry, rest);
      scored := scored + entry;
    }
    assert names[|names|..] == [] && scored + [] == scored;
    scored := Sorting.Sort(Closer, scored);
    if limit > 0 && |scored| > limit {
      scored := scored[..limit];
    }
    out := Names(scored);
  }

  lemma {:induction false} CandidateMembers(lower: Bytes -> Bytes, want: Bytes, names: seq<Bytes>, c: Scored)
    ensures c in Candidates(lower, want, names) <==>
            c.name in names && Eligible(lower, want, c.name) && c.score == ScoreOf(lower, want, c.name)
  {
    if names != [] {
      CandidateMembers(lower, want, names[1..], c);
      assert names == [names[0]] + names[1..];
    }
  }

  /** How many entries of the catalogue can be suggested: named, and not what was asked for. */
  function Others(lower: Bytes -> Bytes, want: Bytes, names: seq<Bytes>): nat {
    if names == [] then 0
    else (if names[0] != [] && lower(names[0]) != want then 1 else 0) + Others(lower, want, names[1..])
  }

  lemma {:induction false} CandidatesCount(lower: Bytes -> Bytes, want: Bytes, names: seq<Bytes>)
    ensures |Candidates(lower, want, names)| == Others(lower, want, names)
  {
    hide Dist;
    if names != [] {
      CandidatesCount(lower, want, names[1..]);
    }
  }

  /** As many are suggested as can be, up to the limit if there is one. */
  lemma SuggestsUpToLimit(lower: Bytes -> Bytes, want: Bytes, names: seq<Bytes>, limit: int)
    ensures var n := Others(lower, want, names);
            |Names(Limited(Ranking(lower, want, names), limit))| == if 0 < limit < n then limit else n
  {
    CandidatesCount(lower, want, names);
    Sorting.SortMembers(Closer, Candidates(lower, want, names));
  }

  lemma RankingSorted(lower: Bytes -> Bytes, want: Bytes, names: seq<Bytes>)
    ensures Sorting.Sorted(Closer, Ranking(lower, want, names))
  {
    Sorting.SortSorts(Closer, Candidates(lower, want, names));
  }

  lemma InRankingOrder(ranking: seq<Scored>, i: nat, j: nat)
    requires Sorting.Sorted(Closer, ranking) && i < j < |ranking|
    ensures ranking[i].score <= ranking[j].score
  {
    assert Closer(ranking[i], ranking[j]);
  }

  lemma RankedAt(lower: Bytes -> Bytes, want: Bytes, names: seq<Bytes>, i: nat)
    requires i < |Ranking(lower, want, names)|
    ensures var c := Ranking(lower, want, names)[i];
            c.name in names && c.name != [] && lower(c.name) != want && c.score == Dist(want, lower(c.name))
  {
    hide Dist, Candidates;
    var c := Ranking(lower, want, names)[i];
    Sorting.SortMembers(Closer, Candidates(lower, want, names));
    assert c in Ranking(lower, want, names);
    CandidateMembers(lower, want, names, c);
  }

  lemma RankOf(lower: Bytes -> Bytes, want: Bytes, names: seq<Bytes>, n: Bytes) returns (k: nat)
    requires n in names && n != [] && lower(n) != want
    ensures k < |Ranking(lower, want, names)|
    ensures Ranking(lower, want, names)[k] == Scored(n, Dist(want, lower(n)))
  {
    hide Dist, Candidates;
    var c := Scored(n, Dist(want, lower(n)));
    CandidateMembers(lower, want, names, c);
    Sorting.SortMembers(Closer, Candidates(lower, want, names));
    assert c in Ranking(lower, want, names);
    k :| 0 <= k < |Ranking(lower, want, names)| && Ranking(lower, want, names)[k] == c;
  }

  /** A ranked name that is not given comes behind the limit. */
  lemma LeftOut(ranking: seq<Scored>, limit: int, k: nat)
    requires k < |ranking| && ranking[k].name !in Names(Limited(ranking, limit))
    ensures limit > 0 && |Names(Limited(ranking, limit))| == limit <= k
  {
    var out := Names(Limited(ranking, limit));
    assert forall i :: 0 <= i < |out| ==> out[i] in out;
  }

  /** Every suggestion is a name of the catalogue other than what was asked for, no such name left out is strictly
      closer than one given, and with room under the limit, or none set, nothing is left out. */
  lemma SuggestionsAreClosest(lower: Bytes -> Bytes, want: Bytes, names: seq<Bytes>, limit: int, out: seq<Bytes>)
    requires out == Names(Limited(Ranking(lower, want, names), limit))
    ensures forall n :: n in out ==> n in names && n != [] && lower(n) != want
    ensures forall n, o :: n in names && n != [] && lower(n) != want && n !in out && o in out ==>
                             Dist(want, lower(o)) <= Dist(want, lower(n))
    ensures forall n :: n in names && n != [] && lower(n) != want && n !in out ==> limit > 0 && |out| == limit
    ensures forall i, j :: 0 <= i < j < |out| ==> Dist(want, lower(out[i])) <= Dist(want, lower(out[j]))
  {
    var ranking := Ranking(lower, want, names);
    RankingSorted(lower, want, names);
    hide Dist, Ranking, Sorting.Sorted;
    forall i | 0 <= i < |ranking|
      ensures var n := ranking[i].name;
              n in names && n != [] && lower(n) != want && ranking[i].score == Dist(want, lower(n))
    {
      RankedAt(lower, want, names, i);
    }
    forall n | n in names && n != [] && lower(n) != want && n !in out
      ensures limit > 0 && |out| == limit
      ensures forall o :: o in out ==> Dist(want, lower(o)) <= Dist(want, lower(n))
    {
      var k := RankOf(lower, want, names, n);
      LeftOut(ranking, limit, k);
      forall o | o in out ensures Dist(want, lower(o)) <= Dist(want, lower(n)) {
        var i :| 0 <= i < |out| && out[i] == o;
        InRankingOrder(ranking, i, k);
      }
    }
    forall i, j | 0 <= i < j < |out| ensures Dist(want, lower(out[i])) <= Dist(want, lower(out[j])) {
      InRankingOrder(ranking, i, j);
    }
  }

  /** Names at the same distance keep the order of the catalogue. */
  lemma TiesKeepOrder(lower: Bytes -> Bytes, want: Bytes, names: seq<Bytes>, score: nat)
    ensures var tie := (c: Scored) => c.score == score;
            Sorting.Filter(tie, Ranking(lower, want, names)) == Sorting.Filter(tie, Candidates(lower, want, names))
  {
    Sorting.SortStable(Closer, (c: Scored) => c.score == score, Candidates(lower, want, names));
  }
}
