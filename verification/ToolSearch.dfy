/**
 Ranked tool search (searchToolCacheFiltered in pkg/mcp/search.go). The tool cache is listed in whatever
 order its map is iterated; `lower` is strings.ToLower and the query comes as its words.
 */
module ToolSearch {
  import opened Utf8
  import Sorting

  const FULL_COVERAGE_BONUS := 1000
  const NEAR_MISS_MIN_QUERY_WORDS := 3
  const NAME_HIT := 10
  const DESC_HIT := 3

  datatype Tool = Tool(server: Bytes, name: Bytes, desc: Bytes, schema: Bytes)

  datatype Match = Match(tool: Tool, score: nat, hits: nat)

  // ---- scoring ----

  datatype Tally = Tally(score: nat, hits: nat)

  function TallyOf(words: seq<Bytes>, name: Bytes, desc: Bytes): (t: Tally)
    ensures t.hits <= |words|
    ensures DESC_HIT * t.hits <= t.score <= NAME_HIT * t.hits
  {
    if words == [] then Tally(0, 0)
    else
      var t := TallyOf(words[1..], name, desc);
      if Contains(name, words[0]) then Tally(t.score + NAME_HIT, t.hits + 1)
      else if Contains(desc, words[0]) then Tally(t.score + DESC_HIT, t.hits + 1)
      else t
  }

  /** The text that names are matched in: server_tool, lower-cased. */
  function NameText(lower: Bytes -> Bytes, tool: Tool): Bytes { lower(tool.server + [0x5F] + tool.name) }

  /** The match of one tool, if it has any. */
  function MatchOf(lower: Bytes -> Bytes, words: seq<Bytes>, tool: Tool): seq<Match> {
    if words == [] then [Match(tool, 0, 0)]
    else
      var t := TallyOf(words, NameText(lower, tool), lower(tool.desc));
      if t.hits == 0 then []
      else [Match(tool, t.score + (if t.hits == |words| then FULL_COVERAGE_BONUS else 0), t.hits)]
  }

  predicate Listed(filter: Bytes, tool: Tool) { filter == [] || tool.server == filter }

  function Matches(lower: Bytes -> Bytes, words: seq<Bytes>, filter: Bytes, tools: seq<Tool>): seq<Match> {
    if tools == [] then []
    else
      (if Listed(filter, tools[0]) then MatchOf(lower, words, tools[0]) else [])
      + Matches(lower, words, filter, tools[1..])
  }

  // ---- the order ----

  /** Go's string order. */
  predicate StringLe(a: Bytes, b: Bytes) {
    a == [] || (b != [] && (a[0] < b[0] || (a[0] == b[0] && StringLe(a[1..], b[1..]))))
  }

  lemma {:induction false} StringLeTotal(a: Bytes, b: Bytes)
    ensures StringLe(a, b) || StringLe(b, a)
  {
    if a != [] && b != [] {
      StringLeTotal(a[1..], b[1..]);
    }
  }

  lemma {:induction false} StringLeTransitive(a: Bytes, b: Bytes, c: Bytes)
    requires StringLe(a, b) && StringLe(b, c)
    ensures StringLe(a, c)
  {
    if a != [] && b[0] == a[0] == c[0] {
      StringLeTransitive(a[1..], b[1..], c[1..]);
    }
  }

  lemma {:induction false} StringLeAntisymmetric(a: Bytes, b: Bytes)
    requires StringLe(a, b) && StringLe(b, a)
    ensures a == b
  {
    if a != [] && b != [] {
      StringLeAntisymmetric(a[1..], b[1..]);
      assert a == [a[0]] + a[1..] && b == [b[0]] + b[1..];
    }
  }

  predicate DiffersAt(a: Bytes, b: Bytes, i: nat) { i < |a| && i < |b| && a[..i] == b[..i] && a[i] < b[i] }

  lemma FirstDiffers(a: Bytes, b: Bytes, i: nat)
    requires DiffersAt(a, b, i)
    ensures i == 0 || a[0] == b[0]
  {
    assert i > 0 ==> a[..i][0] == a[0] && b[..i][0] == b[0];
  }

  /** A prefix comes first, and else the one with the smaller byte where they differ. */
  lemma {:induction false} StringLeIsLexicographic(a: Bytes, b: Bytes)
    ensures StringLe(a, b) <==> a <= b || exists i: nat :: DiffersAt(a, b, i)
  {
    if a != [] && b != [] && a[0] == b[0] {
      StringLeIsLexicographic(a[1..], b[1..]);
      assert a == [a[0]] + a[1..] && b == [b[0]] + b[1..];
      if i: nat :| DiffersAt(a, b, i) {
        assert a[..i][1..] == a[1..][..i - 1] && b[..i][1..] == b[1..][..i - 1];
        assert DiffersAt(a[1..], b[1..], i - 1);
      }
      if i: nat :| DiffersAt(a[1..], b[1..], i) {
        assert a[..i + 1] == [a[0]] + a[1..][..i] && b[..i + 1] == [b[0]] + b[1..][..i];
        assert DiffersAt(a, b, i + 1);
      }
    } else if a != [] && b != [] {
      if a[0] < b[0] {
        assert DiffersAt(a, b, 0);
      }
      if i: nat :| DiffersAt(a, b, i) {
        FirstDiffers(a, b, i);
      }
    }
  }

  /** Score descending, then server, then tool name. */
  predicate RanksBefore(a: Match, b: Match) {
    if a.score != b.score then a.score > b.score
    else if a.tool.server != b.tool.server then StringLe(a.tool.server, b.tool.server)
    else StringLe(a.tool.name, b.tool.name)
  }

  lemma RanksBeforeTransitive(a: Match, b: Match, c: Match)
    requires RanksBefore(a, b) && RanksBefore(b, c)
    ensures RanksBefore(a, c)
  {
    if a.score == b.score == c.score {
      if a.tool.server == b.tool.server == c.tool.server {
        StringLeTransitive(a.tool.name, b.tool.name, c.tool.name);
      } else if a.tool.server != b.tool.server && b.tool.server != c.tool.server {
        StringLeTransitive(a.tool.server, b.tool.server, c.tool.server);
        if a.tool.server == c.tool.server {
          StringLeAntisymmetric(a.tool.server, b.tool.server);
        }
      }
    }
  }

  lemma RanksBeforeIsPreorder()
    ensures Sorting.TotalPreorder(RanksBefore)
  {
    forall a, b ensures RanksBefore(a, b) || RanksBefore(b, a) {
      StringLeTotal(a.tool.server, b.tool.server);
      StringLeTotal(a.tool.name, b.tool.name);
    }
    forall a, b, c | RanksBefore(a, b) && RanksBefore(b, c) ensures RanksBefore(a, c) {
      RanksBeforeTransitive(a, b, c);
    }
  }

  function Ranked(lower: Bytes -> Bytes, words: seq<Bytes>, filter: Bytes, tools: seq<Tool>): seq<Match> {
    Sorting.Sort(RanksBefore, Matches(lower, words, filter, tools))
  }

  // ---- the precision guard ----

  predicate CountsAsFull(m: Match) { m.score >= FULL_COVERAGE_BONUS }

  function FullCount(matches: seq<Match>): (n: nat)
    ensures n <= |matches|
  {
    if matches == [] then 0 else FullCount(matches[1..]) + if CountsAsFull(matches[0]) then 1 else 0
  }

  function WithHits(matches: seq<Match>, hits: int): seq<Match> {
    Sorting.Filter((m: Match) => m.hits == hits, matches)
  }

  function Guarded(words: seq<Bytes>, matches: seq<Match>): seq<Match> {
    var full := FullCount(matches);
    if full == 0 then matches
    else if |words| < NEAR_MISS_MIN_QUERY_WORDS then matches[..full]
    else matches[..full] + WithHits(matches[full..], |words| - 1)
  }

  // ---- the loops ----

  method Score(words: seq<Bytes>, name: Bytes, desc: Bytes) returns (score: nat, hits: nat)
    ensures Tally(score, hits) == TallyOf(words, name, desc)
  {
    score, hits := 0, 0;
    for i := 0 to |words|
      invariant score + TallyOf(words[i..], name, desc).score == TallyOf(words, name, desc).score
      invariant hits + TallyOf(words[i..], name, desc).hits == TallyOf(words, name, desc).hits
    {
      assert words[i..][0] == words[i] && words[i..][1..] == words[i + 1..];
      if Contains(name, words[i]) {
        score := score + NAME_HIT;
        hits := hits + 1;
      } else if Contains(desc, words[i]) {
        score := score + DESC_HIT;
        hits := hits + 1;
      }
    }
  }

  lemma MatchesStep(lower: Bytes -> Bytes, words: seq<Bytes>, filter: Bytes, tools: seq<Tool>, i: nat)
    requires i < |tools|
    ensures Matches(lower, words, filter, tools[i..]) ==
            (if Listed(filter, tools[i]) then MatchOf(lower, words, tools[i]) else [])
            + Matches(lower, words, filter, tools[i + 1..])
  {
    assert tools[i..][0] == tools[i] && tools[i..][1..] == tools[i + 1..];
  }

  lemma NoMatches(lower: Bytes -> Bytes, words: seq<Bytes>, filter: Bytes)
    ensures Matches(lower, words, filter, []) == []
  {
  }

  /** The body of the loop over the tools of one server. */
  method FindMatch(lower: Bytes -> Bytes, words: seq<Bytes>, tool: Tool) returns (found: seq<Match>)
    ensures found == MatchOf(lower, words, tool)
  {
    hide TallyOf;
    if |words| == 0 {
      return [Match(tool, 0, 0)];
    }
    var score, hits := Score(words, NameText(lower, tool), lower(tool.desc));
    if hits == 0 {
      return [];
    }
    if hits == |words| {
      score := score + FULL_COVERAGE_BONUS;
    }
    return [Match(tool, score, hits)];
  }

  method CollectMatches(lower: Bytes -> Bytes, words: seq<Bytes>, filter: Bytes, tools: seq<Tool>)
    returns (matches: seq<Match>)
    ensures matches == Matches(lower, words, filter, tools)
  {
    hide Matches, MatchOf;
    matches := [];
    assert tools[0..] == tools && [] + Matches(lower, words, filter, tools) == Matches(lower, words, filter, tools);
    for i := 0 to |tools|
      invariant matches + Matches(lower, words, filter, tools[i..]) == Matches(lower, words, filter, tools)
    {
      MatchesStep(lower, words, filter, tools, i);
      var found: seq<Match> := [];
      if filter == [] || tools[i].server == filter {
        found := FindMatch(lower, words, tools[i]);
      }
      Sorting.Reassociate(matches, found, Matches(lower, words, filter, tools[i + 1..]));
      matches := matches + found;
    }
    NoMatches(lower, words, filter);
    assert tools[|tools|..] == [] && matches + [] == matches;
  }

  method CountFull(matches: seq<Match>) returns (full: nat)
    ensures full == FullCount(matches)
  {
    full := 0;
    for i := 0 to |matches|
      invariant full + FullCount(matches[i..]) == FullCount(matches)
    {
      assert matches[i..][0] == matches[i] && matches[i..][1..] == matches[i + 1..];
      if matches[i].score >= FULL_COVERAGE_BONUS {
        full := full + 1;
      }
    }
    assert matches[|matches|..] == [];
  }

  /** The precision guard. */
  method Guard(words: seq<Bytes>, matches: seq<Match>) returns (out: seq<Match>)
    ensures out == Guarded(words, matches)
  {
    var full := CountFull(matches);
    if full == 0 {
      return matches;
    }
    if |words| < NEAR_MISS_MIN_QUERY_WORDS {
      return matches[..full];
    }
    out := matches[..full];
    for i := full to |matches|
      invariant out + WithHits(matches[i..], |words| - 1) == Guarded(words, matches)
    {
      assert matches[i..][0] == matches[i] && matches[i..][1..] == matches[i + 1..];
      var near: seq<Match> := [];
      if matches[i].hits == |words| - 1 {
        near := [matches[i]];
      }
      Sorting.Reassociate(out, near, WithHits(matches[i + 1..], |words| - 1));
      out := out + near;
    }
    assert out + [] == out;
  }

  /** What sort.Slice may leave in matches: it is not stable, so ties can come in any order. */
  ghost predicate IsRanking(ranked: seq<Match>, matches: seq<Match>) {
    Sorting.Sorted(RanksBefore, ranked) && multiset(ranked) == multiset(matches)
  }

  lemma RankedIsRanking(lower: Bytes -> Bytes, words: seq<Bytes>, filter: Bytes, tools: seq<Tool>)
    ensures IsRanking(Ranked(lower, words, filter, tools), Matches(lower, words, filter, tools))
  {
    RanksBeforeIsPreorder();
    Sorting.SortSorts(RanksBefore, Matches(lower, words, filter, tools));
    Sorting.SortPermutes(RanksBefore, Matches(lower, words, filter, tools));
  }

  /** searchToolCacheFiltered, up to the rendering of each match. */
  method Search(lower: Bytes -> Bytes, words: seq<Bytes>, filter: Bytes, tools: seq<Tool>) returns (out: seq<Match>)
    ensures out == Guarded(words, Ranked(lower, words, filter, tools))
    ensures IsRanking(Ranked(lower, words, filter, tools), Matches(lower, words, filter, tools))
  {
    var matches := CollectMatches(lower, words, filter, tools);
    out := Guard(words, Sorting.Sort(RanksBefore, matches));
    RankedIsRanking(lower, words, filter, tools);
  }

  // ---- full coverage first ----

  lemma {:induction false} MatchesMembers(lower: Bytes -> Bytes, words: seq<Bytes>, filter: Bytes,
          tools: seq<Tool>, m: Match)
    ensures m in Matches(lower, words, filter, tools) <==>
            m.tool in tools && Listed(filter, m.tool) && MatchOf(lower, words, m.tool) == [m]
  {
    if tools != [] {
      MatchesMembers(lower, words, filter, tools[1..], m);
      assert tools == [tools[0]] + tools[1..];
      if m in MatchOf(lower, words, tools[0]) {
        assert MatchOf(lower, words, tools[0]) == [m];
      }
    }
  }

  /** The bonus tells full coverage from partial in every query of n words. */
  ghost predicate Separates(n: nat) {
    forall lower: Bytes -> Bytes, words: seq<Bytes>, tool: Tool ::
      |words| == n && MatchOf(lower, words, tool) != [] ==>
        (CountsAsFull(MatchOf(lower, words, tool)[0]) <==> MatchOf(lower, words, tool)[0].hits == n)
  }

  function Copies(word: Bytes, n: nat): seq<Bytes> {
    if n == 0 then [] else [word] + Copies(word, n - 1)
  }

  lemma {:induction false} CopiesTally(n: nat, rest: seq<Bytes>, name: Bytes, desc: Bytes, word: Bytes)
    requires Contains(name, word)
    ensures |Copies(word, n) + rest| == n + |rest|
    ensures TallyOf(Copies(word, n) + rest, name, desc) ==
            Tally(NAME_HIT * n + TallyOf(rest, name, desc).score, n + TallyOf(rest, name, desc).hits)
  {
    if n == 0 {
      assert Copies(word, 0) + rest == rest;
    } else {
      CopiesTally(n - 1, rest, name, desc, word);
      assert Copies(word, n) + rest == [word] + (Copies(word, n - 1) + rest);
    }
  }

  /** It does so exactly for queries of at most a hundred words: on any longer query a tool that misses one
      word can score the bonus on hits alone. */
  lemma BonusSeparatesUpTo100(n: nat)
    requires n > 0
    ensures Separates(n) <==> n <= 100
  {
    if n > 100 {
      var word, miss: Bytes := [0x61], [0x62];
      var lower: Bytes -> Bytes := s => s;
      var tool := Tool([], word, [], []);
      var words := Copies(word, n - 1) + [miss];
      var name := NameText(lower, tool);
      assert name == [0x5F, 0x61];
      assert OccursAt(name, 1, word);
      assert !Contains(name, miss) && !Contains([], miss);
      CopiesTally(n - 1, [miss], name, [], word);
      assert TallyOf([miss], name, []) == Tally(0, 0);
      var m := MatchOf(lower, words, tool)[0];
      assert m.hits == n - 1 && CountsAsFull(m);
      assert !Separates(n);
    }
  }

  /** Sorted matches have those that score the bonus in front. */
  lemma {:induction false} FullFirst(matches: seq<Match>)
    requires Sorting.Sorted(RanksBefore, matches)
    ensures forall i :: 0 <= i < |matches| ==> (CountsAsFull(matches[i]) <==> i < FullCount(matches))
  {
    if matches != [] {
      FullFirst(matches[1..]);
      forall i | 0 <= i < |matches| ensures CountsAsFull(matches[i]) <==> i < FullCount(matches) {
        if i > 0 {
          assert matches[1..][i - 1] == matches[i];
          assert RanksBefore(matches[0], matches[i]);
          if !CountsAsFull(matches[0]) && |matches| > 1 {
            assert RanksBefore(matches[0], matches[1]) && matches[1..][0] == matches[1];
          }
        } else if !CountsAsFull(matches[0]) && |matches| > 1 {
          assert RanksBefore(matches[0], matches[1]) && matches[1..][0] == matches[1];
        }
      }
    }
  }

  lemma WithHitsMembers(matches: seq<Match>, hits: int, m: Match)
    ensures m in WithHits(matches, hits) <==> m in matches && m.hits == hits
  {
    Sorting.FilterMembers((n: Match) => n.hits == hits, matches);
  }

  /** In a ranking the matches of every word are exactly the first FullCount. */
  lemma FullCoverageLeads(lower: Bytes -> Bytes, words: seq<Bytes>, filter: Bytes, tools: seq<Tool>, ranked: seq<Match>)
    requires 0 < |words| <= 100
    requires IsRanking(ranked, Matches(lower, words, filter, tools))
    ensures forall i :: 0 <= i < |ranked| ==> (ranked[i].hits == |words| <==> i < FullCount(ranked))
  {
    hide TallyOf, RanksBefore, Matches;
    FullFirst(ranked);
    BonusSeparatesUpTo100(|words|);
    forall i | 0 <= i < |ranked| ensures ranked[i].hits == |words| <==> i < FullCount(ranked) {
      assert ranked[i] in multiset(ranked);
      MatchesMembers(lower, words, filter, tools, ranked[i]);
      assert MatchOf(lower, words, ranked[i].tool)[0] == ranked[i];
    }
  }

  /** What the guard keeps of a ranking of at most a hundred words: first the matches of every word, all of
      them; when there are none, every match; beside them, for queries of three words or more, exactly the
      matches that miss one word. */
  lemma SearchResult(lower: Bytes -> Bytes, words: seq<Bytes>, filter: Bytes, tools: seq<Tool>, ranked: seq<Match>,
          out: seq<Match>)
    requires 0 < |words| <= 100
    requires IsRanking(ranked, Matches(lower, words, filter, tools))
    requires out == Guarded(words, ranked)
    ensures FullCount(ranked) <= |out|
    ensures forall i :: 0 <= i < FullCount(ranked) ==> out[i].hits == |words|
    ensures forall m :: m in Matches(lower, words, filter, tools) && m.hits == |words| ==> m in out[..FullCount(ranked)]
    ensures FullCount(ranked) == 0 ==> multiset(out) == multiset(Matches(lower, words, filter, tools))
    ensures FullCount(ranked) > 0 && |words| < NEAR_MISS_MIN_QUERY_WORDS ==> |out| == FullCount(ranked)
    ensures FullCount(ranked) > 0 && |words| >= NEAR_MISS_MIN_QUERY_WORDS ==>
              forall m :: m in out[FullCount(ranked)..] <==>
                          m in Matches(lower, words, filter, tools) && m.hits == |words| - 1
  {
    hide RanksBefore, Matches, FullCount, WithHits, Sorting.Sorted;
    FullCoverageLeads(lower, words, filter, tools, ranked);
    var matches, full := Matches(lower, words, filter, tools), FullCount(ranked);
    forall m | m in matches && m.hits == |words| ensures m in out[..full] {
      assert m in multiset(ranked);
      var i :| 0 <= i < |ranked| && ranked[i] == m;
      assert out[..full][i] == m;
    }
    if full > 0 && |words| >= NEAR_MISS_MIN_QUERY_WORDS {
      var near := WithHits(ranked[full..], |words| - 1);
      assert out[full..] == near;
      forall m ensures m in near <==> m in matches && m.hits == |words| - 1 {
        WithHitsMembers(ranked[full..], |words| - 1, m);
        assert m in multiset(ranked) <==> m in multiset(matches);
        if m in matches && m.hits == |words| - 1 {
          var i :| 0 <= i < |ranked| && ranked[i] == m;
          assert ranked[full..][i - full] == m;
        }
      }
    }
  }

  // ---- map order ----

  ghost predicate UniqueNames(tools: seq<Tool>) {
    forall a, b :: a in tools && b in tools && a.server == b.server && a.name == b.name ==> a == b
  }

  lemma {:induction false} MatchesConcat(lower: Bytes -> Bytes, words: seq<Bytes>, filter: Bytes, s: seq<Tool>,
          t: seq<Tool>)
    ensures Matches(lower, words, filter, s + t) == Matches(lower, words, filter, s) + Matches(lower, words, filter, t)
  {
    if s == [] {
      assert s + t == t;
    } else {
      assert (s + t)[0] == s[0] && (s + t)[1..] == s[1..] + t;
      MatchesConcat(lower, words, filter, s[1..], t);
    }
  }

  lemma MatchesExtract(lower: Bytes -> Bytes, words: seq<Bytes>, filter: Bytes, s: seq<Tool>, j: nat)
    requires j < |s|
    ensures multiset(Matches(lower, words, filter, s)) ==
            multiset(Matches(lower, words, filter, [s[j]]))
            + multiset(Matches(lower, words, filter, s[..j] + s[j + 1..]))
  {
    hide Matches;
    var a, b := s[..j], s[j + 1..];
    assert s == a + ([s[j]] + b);
    MatchesConcat(lower, words, filter, a, b);
    MatchesConcat(lower, words, filter, a, [s[j]] + b);
    MatchesConcat(lower, words, filter, [s[j]], b);
  }

  /** Listing the tools in another order permutes their matches. */
  lemma {:induction false} MatchesPermute(lower: Bytes -> Bytes, words: seq<Bytes>, filter: Bytes, s: seq<Tool>,
          t: seq<Tool>)
    requires multiset(s) == multiset(t)
    ensures multiset(Matches(lower, words, filter, s)) == multiset(Matches(lower, words, filter, t))
    decreases |s|
  {
    hide Matches;
    Sorting.SameLength(s, t);
    if s == [] {
      assert t == [];
    } else {
      var j := Sorting.MatchHead(s, t);
      assert s[..0] + s[1..] == s[1..];
      MatchesPermute(lower, words, filter, s[1..], t[..j] + t[j + 1..]);
      MatchesExtract(lower, words, filter, s, 0);
      MatchesExtract(lower, words, filter, t, j);
    }
  }

  lemma SameRankSameTool(x: Match, y: Match)
    requires RanksBefore(x, y) && RanksBefore(y, x)
    ensures x.tool.server == y.tool.server && x.tool.name == y.tool.name
  {
    if x.tool.server != y.tool.server {
      StringLeAntisymmetric(x.tool.server, y.tool.server);
    }
    StringLeAntisymmetric(x.tool.name, y.tool.name);
  }

  /** With unique (server, tool) names the answer depends neither on the order in which the cache is iterated
      nor on how the sort breaks ties. */
  lemma OrderDoesNotMatter(lower: Bytes -> Bytes, words: seq<Bytes>, filter: Bytes, s: seq<Tool>, t: seq<Tool>,
          rs: seq<Match>, rt: seq<Match>)
    requires multiset(s) == multiset(t) && UniqueNames(s)
    requires IsRanking(rs, Matches(lower, words, filter, s)) && IsRanking(rt, Matches(lower, words, filter, t))
    ensures Guarded(words, rs) == Guarded(words, rt)
  {
    MatchesPermute(lower, words, filter, s, t);
    RanksBeforeIsPreorder();
    forall x, y | x in rs && y in rs && RanksBefore(x, y) && RanksBefore(y, x) ensures x == y {
      assert x in multiset(rs) && y in multiset(rs);
      MatchesMembers(lower, words, filter, s, x);
      MatchesMembers(lower, words, filter, s, y);
      SameRankSameTool(x, y);
    }
    assert Sorting.Separates(RanksBefore, rs);
    Sorting.SortedIsUnique(RanksBefore, rs, rt);
  }

  // ---- what a match is worth ----

  function NameHits(words: seq<Bytes>, name: Bytes): nat {
    if words == [] then 0 else (if Contains(name, words[0]) then 1 else 0) + NameHits(words[1..], name)
  }

  /** How many of the words are in the description and not in the name. */
  function DescHits(words: seq<Bytes>, name: Bytes, desc: Bytes): nat {
    if words == [] then 0
    else (if !Contains(name, words[0]) && Contains(desc, words[0]) then 1 else 0) + DescHits(words[1..], name, desc)
  }

  lemma {:induction false} TallyCounts(words: seq<Bytes>, name: Bytes, desc: Bytes)
    ensures TallyOf(words, name, desc) ==
            Tally(10 * NameHits(words, name) + 3 * DescHits(words, name, desc),
                  NameHits(words, name) + DescHits(words, name, desc))
  {
    if words != [] {
      TallyCounts(words[1..], name, desc);
    }
  }

  /** The hits of a tool in the lower-cased text of its server and name. */
  function InName(lower: Bytes -> Bytes, words: seq<Bytes>, tool: Tool): nat {
    NameHits(words, lower(tool.server + [0x5F] + tool.name))
  }

  function InDesc(lower: Bytes -> Bytes, words: seq<Bytes>, tool: Tool): nat {
    DescHits(words, lower(tool.server + [0x5F] + tool.name), lower(tool.desc))
  }

  /** The matches are exactly the tools of the server asked for, or of all servers, that hit some word: ten for each
      hit in the name, three for each other hit in the description, a thousand more if no word is missed. */
  lemma MatchesAreHits(lower: Bytes -> Bytes, words: seq<Bytes>, filter: Bytes, tools: seq<Tool>, m: Match)
    requires words != []
    ensures m in Matches(lower, words, filter, tools) <==>
            && m.tool in tools && (filter == [] || m.tool.server == filter)
            && m.hits == InName(lower, words, m.tool) + InDesc(lower, words, m.tool) > 0
            && m.score == 10 * InName(lower, words, m.tool) + 3 * InDesc(lower, words, m.tool)
                          + if m.hits == |words| then 1000 else 0
  {
    hide Matches, TallyOf;
    MatchesMembers(lower, words, filter, tools, m);
    TallyCounts(words, NameText(lower, m.tool), lower(m.tool.desc));
  }

  /** With no words every tool is listed, with nothing to its credit. */
  lemma NoWordsListAll(lower: Bytes -> Bytes, filter: Bytes, tools: seq<Tool>, m: Match)
    ensures m in Matches(lower, [], filter, tools) <==>
            m.tool in tools && (filter == [] || m.tool.server == filter) && m.hits == 0 == m.score
  {
    MatchesMembers(lower, [], filter, tools, m);
  }

  /** Of two matches that hit as many words, the one with more hits in the name comes first; if those are as many too,
      server and then name decide, in Go's string order. */
  predicate ComesFirst(lower: Bytes -> Bytes, words: seq<Bytes>, a: Match, b: Match) {
    a.hits == b.hits ==>
      var x, y := InName(lower, words, a.tool), InName(lower, words, b.tool);
      && x >= y
      && (x == y ==> StringLe(a.tool.server, b.tool.server))
      && (x == y && a.tool.server == b.tool.server ==> StringLe(a.tool.name, b.tool.name))
  }

  lemma {:induction false} StringLeReflexive(a: Bytes)
    ensures StringLe(a, a)
  {
    if a != [] {
      StringLeReflexive(a[1..]);
    }
  }

  lemma NameHitsOutrank(lower: Bytes -> Bytes, words: seq<Bytes>, filter: Bytes, tools: seq<Tool>, a: Match, b: Match)
    requires words != [] && RanksBefore(a, b)
    requires a in Matches(lower, words, filter, tools) && b in Matches(lower, words, filter, tools)
    ensures ComesFirst(lower, words, a, b)
  {
    hide Matches, InName, InDesc;
    MatchesAreHits(lower, words, filter, tools, a);
    MatchesAreHits(lower, words, filter, tools, b);
    StringLeReflexive(a.tool.server);
  }

  lemma {:induction false} FilterSorted(keep: Match -> bool, s: seq<Match>)
    requires Sorting.Sorted(RanksBefore, s)
    ensures Sorting.Sorted(RanksBefore, Sorting.Filter(keep, s))
  {
    if s != [] {
      Sorting.SortedTail(RanksBefore, s);
      FilterSorted(keep, s[1..]);
      Sorting.FilterMembers(keep, s[1..]);
      forall x | x in Sorting.Filter(keep, s[1..]) ensures RanksBefore(s[0], x) {
        var i :| 0 <= i < |s[1..]| && s[1..][i] == x;
        assert s[i + 1] == x;
      }
    }
  }

  lemma NearKeepOrder(ranked: seq<Match>, full: nat, keep: Match -> bool)
    requires Sorting.Sorted(RanksBefore, ranked) && full <= |ranked|
    ensures Sorting.Sorted(RanksBefore, ranked[..full] + Sorting.Filter(keep, ranked[full..]))
    ensures forall m :: m in Sorting.Filter(keep, ranked[full..]) ==> m in ranked
  {
    hide RanksBefore;
    FilterSorted(keep, ranked[full..]);
    Sorting.FilterMembers(keep, ranked[full..]);
    forall a, b | a in ranked[..full] && b in Sorting.Filter(keep, ranked[full..]) ensures RanksBefore(a, b) {
      var i :| 0 <= i < full && ranked[i] == a;
      var j :| 0 <= j < |ranked[full..]| && ranked[full..][j] == b;
      assert ranked[full + j] == b;
    }
  }

  /** What the guard leaves of a ranking is still in order. */
  lemma GuardKeepsOrder(words: seq<Bytes>, ranked: seq<Match>)
    requires Sorting.Sorted(RanksBefore, ranked)
    ensures Sorting.Sorted(RanksBefore, Guarded(words, ranked))
    ensures forall m :: m in Guarded(words, ranked) ==> m in ranked
  {
    hide RanksBefore;
    var full := FullCount(ranked);
    NearKeepOrder(ranked, full, (m: Match) => m.hits == |words| - 1);
  }

  /** So it is in what search returns. */
  lemma SearchInOrder(lower: Bytes -> Bytes, words: seq<Bytes>, filter: Bytes, tools: seq<Tool>, ranked: seq<Match>,
                      i: nat, j: nat)
    requires words != [] && IsRanking(ranked, Matches(lower, words, filter, tools))
    requires i < j < |Guarded(words, ranked)|
    ensures ComesFirst(lower, words, Guarded(words, ranked)[i], Guarded(words, ranked)[j])
  {
    var out := Guarded(words, ranked);
    GuardKeepsOrder(words, ranked);
    hide RanksBefore, Matches, ComesFirst, Guarded;
    assert out[i] in out && out[j] in out;
    assert out[i] in ranked && out[j] in ranked;
    assert out[i] in multiset(ranked) && out[j] in multiset(ranked);
    assert RanksBefore(out[i], out[j]);
    NameHitsOutrank(lower, words, filter, tools, out[i], out[j]);
  }
}
