/**
 The semantic cache (pkg/cache/semantic_cache.go), one call at a time. The vector store is whatever list
 of candidates it answers with; SHA-256 is left out of the key. Times are integers, scores are reals.
 */
module SemanticCache {
  import opened Utf8
  import opened Wrappers
  import opened JoinedNames
  import Sorting

  const SEMANTIC_SIMILARITY_THRESHOLD := 0.92

  function CacheKey(tool: Bytes, prompt: Bytes): Bytes { Join(0, tool, prompt) }

  ghost predicate KeyAlso(tool: Bytes, prompt: Bytes, t: Bytes, p: Bytes) {
    (t != tool || p != prompt) && CacheKey(t, p) == CacheKey(tool, prompt)
  }

  /** Another tool or prompt has the same key exactly if the tool or the prompt holds a NUL. */
  lemma KeyIsSharedIffNul(tool: Bytes, prompt: Bytes)
    ensures (exists t, p :: KeyAlso(tool, prompt, t, p)) <==> 0 in tool || 0 in prompt
  {
    SharedIffHeld(0, tool, prompt);
    if t, p :| JoinsAlso(0, tool, prompt, t, p) {
      assert KeyAlso(tool, prompt, t, p);
    }
    if t, p :| KeyAlso(tool, prompt, t, p) {
      assert JoinsAlso(0, tool, prompt, t, p);
    }
  }

  datatype Entry = Entry(prompt: Bytes, tool: Bytes, response: Bytes, createdAt: int, accessed: int)

  type Entries = map<Bytes, Entry>

  datatype Stats = Stats(requests: nat, exact: nat, semantic: nat, misses: nat, evicted: nat, avg: real)

  datatype Cache = Cache(maxEntries: int, ttl: int, entries: Entries, stats: Stats)

  datatype HitType = Miss | Exact | Semantic

  datatype Answer = Answer(hit: HitType, response: Bytes, similarity: real)

  const MISS := Answer(Miss, [], 0.0)

  /** A search result, with the times read while it is being tried. */
  datatype Candidate = Candidate(id: Bytes, score: real, now: int, touched: int)

  predicate Usable(e: Entry, tool: Bytes, ttl: int, now: int) {
    e.tool == tool && now - e.createdAt <= ttl
  }

  function Touch(m: Entries, key: Bytes, t: int): Entries
    requires key in m
  {
    m[key := m[key].(accessed := t)]
  }

  datatype Step = Step(cache: Cache, answer: Answer)

  function CountMiss(c: Cache): Cache { c.(stats := c.stats.(misses := c.stats.misses + 1)) }

  function RemoveEntry(c: Cache, key: Bytes): Cache {
    c.(entries := c.entries - {key}, stats := c.stats.(evicted := c.stats.evicted + 1))
  }

  function RecordSemanticHit(c: Cache, key: Bytes, score: real, t: int): Cache
    requires key in c.entries
  {
    var n := (c.stats.semantic + 1) as real;
    c.(entries := Touch(c.entries, key, t),
       stats := c.stats.(semantic := c.stats.semantic + 1, avg := (c.stats.avg * (n - 1.0) + score) / n))
  }

  /** What becomes of a candidate: served, passed over, or found stale. */
  datatype Fate = Served | Passed | Stale

  function FateOf(c: Cache, cand: Candidate, tool: Bytes): Fate {
    if cand.score < SEMANTIC_SIMILARITY_THRESHOLD then Passed
    else if cand.id !in c.entries then Stale
    else if c.entries[cand.id].tool != tool then Passed
    else if !Usable(c.entries[cand.id], tool, c.ttl, cand.now) then Stale
    else Served
  }

  /** The cache once a stale candidate has been counted, and removed if it is still there. */
  function DropStale(c: Cache, cand: Candidate): Cache {
    CountMiss(if cand.id in c.entries then RemoveEntry(c, cand.id) else c)
  }

  function TryFrom(c: Cache, tool: Bytes, cands: seq<Candidate>): Step
    decreases cands
  {
    if cands == [] then Step(CountMiss(c), MISS)
    else
      var cand := cands[0];
      match FateOf(c, cand, tool)
      case Passed => TryFrom(c, tool, cands[1..])
      case Stale => TryFrom(DropStale(c, cand), tool, cands[1..])
      case Served =>
        Step(RecordSemanticHit(c, cand.id, cand.score, cand.touched),
             Answer(Semantic, c.entries[cand.id].response, cand.score))
  }

  /** Get; `search` is None with no vector store, no embedding or a failed search. */
  function GetStep(c0: Cache, prompt: Bytes, tool: Bytes, now: int, touched: int,
          search: Option<seq<Candidate>>): Step {
    var key := CacheKey(tool, prompt);
    var c := c0.(stats := c0.stats.(requests := c0.stats.requests + 1));
    if key in c.entries && Usable(c.entries[key], tool, c.ttl, now) then
      Step(c.(entries := Touch(c.entries, key, touched), stats := c.stats.(exact := c.stats.exact + 1)),
           Answer(Exact, c.entries[key].response, 1.0))
    else if key in c.entries then Step(CountMiss(RemoveEntry(c, key)), MISS)
    else if search.None? then Step(CountMiss(c), MISS)
    else TryFrom(c, tool, search.value)
  }

  // ---- eviction ----

  /** evictLRULocked(n), for any order of entries that were accessed at the same time. */
  ghost predicate EvictsLru(m: Entries, n: nat, after: Entries) {
    && (forall k :: k in after ==> k in m && after[k] == m[k])
    && |after| == |m| - n
    && forall gone, kept :: gone in m && gone !in after && kept in after ==> m[gone].accessed <= m[kept].accessed
  }

  /** How many entries Set evicts: those over the cap and a tenth of the cap more. */
  function Surplus(maxEntries: int, size: nat): nat {
    if maxEntries > 0 && size > maxEntries then size - maxEntries + maxEntries / 10 else 0
  }

  /** Set with a non-empty response. */
  ghost predicate SetStep(c: Cache, prompt: Bytes, tool: Bytes, response: Bytes, now: int, after: Cache) {
    var m := c.entries[CacheKey(tool, prompt) := Entry(prompt, tool, response, now, now)];
    var n := Surplus(c.maxEntries, |m|);
    && n <= |m|
    && EvictsLru(m, n, after.entries)
    && after == c.(entries := after.entries, stats := c.stats.(evicted := c.stats.evicted + n))
  }

  function TooOld(m: Entries, ttl: int, now: int): set<Bytes> { set k | k in m && now - m[k].createdAt > ttl }

  function EvictExpiredStep(c: Cache, now: int): Cache {
    var gone := TooOld(c.entries, c.ttl, now);
    c.(entries := c.entries - gone, stats := c.stats.(evicted := c.stats.evicted + |gone|))
  }

  datatype Stamp = Stamp(key: Bytes, accessed: int)

  predicate Earlier(a: Stamp, b: Stamp) { a.accessed <= b.accessed }

  /** all lists the stamps of the given keys of m, once each. */
  ghost predicate Lists(all: seq<Stamp>, m: Entries, keys: set<Bytes>) {
    && (forall i :: 0 <= i < |all| ==>
          all[i].key in keys && all[i].key in m && all[i].accessed == m[all[i].key].accessed)
    && (forall k :: k in keys ==> exists i :: 0 <= i < |all| && all[i].key == k)
    && forall i, j :: 0 <= i < j < |all| ==> all[i].key != all[j].key
  }

  lemma ListsOneMore(all: seq<Stamp>, m: Entries, keys: set<Bytes>, k: Bytes)
    requires Lists(all, m, keys) && k in m && k !in keys
    ensures Lists(all + [Stamp(k, m[k].accessed)], m, keys + {k})
  {
    var more := all + [Stamp(k, m[k].accessed)];
    assert more[|all|].key == k;
    forall j | j in keys + {k} ensures exists i :: 0 <= i < |more| && more[i].key == j {
      if j != k {
        var i :| 0 <= i < |all| && all[i].key == j;
        assert more[i].key == j;
      }
    }
  }

  /** left is m without the first i of the listed entries. */
  ghost predicate Deleted(m: Entries, sorted: seq<Stamp>, i: nat, left: Entries) {
    && i <= |sorted| && |left| == |m| - i
    && (forall k :: k in left ==> k in m && left[k] == m[k])
    && forall j :: 0 <= j < |sorted| ==> (sorted[j].key in left <==> i <= j)
  }

  lemma NothingDeleted(m: Entries, sorted: seq<Stamp>)
    requires Lists(sorted, m, m.Keys)
    ensures Deleted(m, sorted, 0, m)
  {
  }

  lemma RemoveSize(m: Entries, key: Bytes)
    requires key in m
    ensures |m - {key}| == |m| - 1
  {
    assert (m - {key}).Keys == m.Keys - {key};
  }

  lemma StampsDiffer(sorted: seq<Stamp>, m: Entries, i: nat, j: nat)
    requires Lists(sorted, m, m.Keys) && i < |sorted| && j < |sorted| && i != j
    ensures sorted[i].key != sorted[j].key
  {
  }

  lemma StampHasEntry(sorted: seq<Stamp>, m: Entries, i: nat, left: Entries)
    requires Lists(sorted, m, m.Keys) && i < |sorted| && Deleted(m, sorted, i, left)
    ensures sorted[i].key in left && |left - {sorted[i].key}| == |left| - 1
  {
    RemoveSize(left, sorted[i].key);
  }

  lemma DeleteNext(m: Entries, sorted: seq<Stamp>, i: nat, left: Entries)
    requires Lists(sorted, m, m.Keys) && i < |sorted| && Deleted(m, sorted, i, left)
    ensures Deleted(m, sorted, i + 1, left - {sorted[i].key})
  {
    hide Lists;
    StampHasEntry(sorted, m, i, left);
    forall j | 0 <= j < |sorted| ensures sorted[j].key in left - {sorted[i].key} <==> i + 1 <= j {
      if j != i {
        StampsDiffer(sorted, m, i, j);
      }
    }
  }

  lemma FirstGoFirst(sorted: seq<Stamp>, m: Entries, n: nat, after: Entries)
    requires Lists(sorted, m, m.Keys) && Sorting.Sorted(Earlier, sorted)
    requires Deleted(m, sorted, n, after)
    ensures EvictsLru(m, n, after)
  {
    forall gone, kept | gone in m && gone !in after && kept in after
      ensures m[gone].accessed <= m[kept].accessed
    {
      assert gone in m.Keys && kept in m.Keys;
      var g :| 0 <= g < |sorted| && sorted[g].key == gone;
      var h :| 0 <= h < |sorted| && sorted[h].key == kept;
      assert Earlier(sorted[g], sorted[h]);
    }
  }

  /** Of m, all but the keys still to do have been looked at, and the victims among them deleted. */
  ghost predicate Swept(m: Entries, ttl: int, now: int, todo: set<Bytes>, victims: set<Bytes>, left: Entries) {
    todo <= m.Keys && victims == TooOld(m, ttl, now) - todo && left == m - victims
  }

  lemma NothingSwept(m: Entries, ttl: int, now: int)
    ensures Swept(m, ttl, now, m.Keys, {}, m)
  {
    assert TooOld(m, ttl, now) - m.Keys == {};
  }

  lemma SweepNext(m: Entries, ttl: int, now: int, todo: set<Bytes>, victims: set<Bytes>, left: Entries, k: Bytes)
    requires Swept(m, ttl, now, todo, victims, left) && k in todo
    ensures k in left
    ensures now - left[k].createdAt > ttl ==> Swept(m, ttl, now, todo - {k}, victims + {k}, left - {k})
    ensures now - left[k].createdAt <= ttl ==> Swept(m, ttl, now, todo - {k}, victims, left)
  {
    assert k in left && left[k] == m[k];
    if now - left[k].createdAt > ttl {
      assert left - {k} == m - (victims + {k});
    }
  }

  lemma AllSwept(m: Entries, ttl: int, now: int, victims: set<Bytes>, left: Entries)
    requires Swept(m, ttl, now, {}, victims, left)
    ensures victims == TooOld(m, ttl, now) && left == m - victims
  {
    assert TooOld(m, ttl, now) - {} == TooOld(m, ttl, now);
  }

  lemma SortKeepsListing(all: seq<Stamp>, m: Entries, keys: set<Bytes>)
    requires Lists(all, m, keys)
    ensures Lists(Sorting.Sort(Earlier, all), m, keys)
  {
    var sorted := Sorting.Sort(Earlier, all);
    Sorting.SortMembers(Earlier, all);
    Sorting.SortDistinct(Earlier, all);
    forall i | 0 <= i < |sorted|
      ensures sorted[i].key in keys && sorted[i].key in m && sorted[i].accessed == m[sorted[i].key].accessed
    {
      assert sorted[i] in all;
    }
    forall k | k in keys ensures exists i :: 0 <= i < |sorted| && sorted[i].key == k {
      var i :| 0 <= i < |all| && all[i].key == k;
      assert all[i] in sorted;
      var j :| 0 <= j < |sorted| && sorted[j] == all[i];
      assert sorted[j].key == k;
    }
    forall i, j | 0 <= i < j < |sorted| ensures sorted[i].key != sorted[j].key {
      assert sorted[i] != sorted[j];
    }
  }

  // ---- the cache ----

  class SemanticCache {
    const maxEntries: int
    const ttl: int
    var entries: Entries
    var stats: Stats

    function Value(): Cache
      reads this
    {
      Cache(maxEntries, ttl, entries, stats)
    }

    constructor (maxEntries: int, ttl: int)
      ensures Value() == Cache(maxEntries, ttl, map[], Stats(0, 0, 0, 0, 0, 0.0))
    {
      this.maxEntries, this.ttl := maxEntries, ttl;
      entries, stats := map[], Stats(0, 0, 0, 0, 0, 0.0);
    }

    method RemoveEntryLocked(key: Bytes)
      modifies this
      ensures Value() == RemoveEntry(old(Value()), key)
    {
      entries := entries - {key};
      stats := stats.(evicted := stats.evicted + 1);
    }

    method TrySemanticHit(cand: Candidate, tool: Bytes) returns (hit: bool, answer: Answer)
      requires cand.score >= SEMANTIC_SIMILARITY_THRESHOLD
      modifies this
      ensures var c, fate := old(Value()), FateOf(old(Value()), cand, tool);
              && hit == fate.Served?
              && match fate
                 case Passed => Value() == c
                 case Stale => Value() == DropStale(c, cand)
                 case Served =>
                   && cand.id in c.entries && Value() == RecordSemanticHit(c, cand.id, cand.score, cand.touched)
                   && answer == Answer(Semantic, c.entries[cand.id].response, cand.score)
    {
      if cand.id !in entries {
        stats := stats.(misses := stats.misses + 1);
        return false, MISS;
      }
      var entry := entries[cand.id];
      if entry.tool != tool {
        return false, MISS;
      }
      if !Usable(entry, tool, ttl, cand.now) {
        RemoveEntryLocked(cand.id);
        stats := stats.(misses := stats.misses + 1);
        return false, MISS;
      }
      var n := (stats.semantic + 1) as real;
      stats := stats.(semantic := stats.semantic + 1, avg := (stats.avg * (n - 1.0) + cand.score) / n);
      entries := Touch(entries, cand.id, cand.touched);
      return true, Answer(Semantic, entry.response, cand.score);
    }

    method Get(prompt: Bytes, tool: Bytes, now: int, touched: int, search: Option<seq<Candidate>>)
      returns (answer: Answer)
      modifies this
      ensures Step(Value(), answer) == GetStep(old(Value()), prompt, tool, now, touched, search)
    {
      var key := CacheKey(tool, prompt);
      stats := stats.(requests := stats.requests + 1);
      if key in entries && Usable(entries[key], tool, ttl, now) {
        answer := Answer(Exact, entries[key].response, 1.0);
        entries := Touch(entries, key, touched);
        stats := stats.(exact := stats.exact + 1);
        return;
      }
      if key in entries {
        RemoveEntryLocked(key);
        stats := stats.(misses := stats.misses + 1);
        return MISS;
      }
      if search.None? {
        stats := stats.(misses := stats.misses + 1);
        return MISS;
      }
      ghost var counted := Value();
      var cands := search.value;
      for i := 0 to |cands|
        invariant TryFrom(Value(), tool, cands[i..]) == TryFrom(counted, tool, cands)
      {
        assert cands[i..][0] == cands[i] && cands[i..][1..] == cands[i + 1..];
        if cands[i].score >= SEMANTIC_SIMILARITY_THRESHOLD {
          var hit, res := TrySemanticHit(cands[i], tool);
          if hit {
            return res;
          }
        }
      }
      stats := stats.(misses := stats.misses + 1);
      return MISS;
    }

    method ListEntries() returns (all: seq<Stamp>)
      ensures Lists(all, entries, entries.Keys) && |all| == |entries|
    {
      all := [];
      var todo := entries.Keys;
      while todo != {}
        invariant todo <= entries.Keys && |all| + |todo| == |entries.Keys|
        invariant Lists(all, entries, entries.Keys - todo)
        decreases todo
      {
        var k :| k in todo;
        ListsOneMore(all, entries, entries.Keys - todo, k);
        assert entries.Keys - (todo - {k}) == (entries.Keys - todo) + {k};
        all := all + [Stamp(k, entries[k].accessed)];
        todo := todo - {k};
      }
      assert entries.Keys - todo == entries.Keys;
    }

    method ByLastAccess() returns (sorted: seq<Stamp>)
      ensures Lists(sorted, entries, entries.Keys) && |sorted| == |entries|
      ensures Sorting.Sorted(Earlier, sorted)
    {
      var all := ListEntries();
      sorted := Sorting.Sort(Earlier, all);
      Sorting.SortMembers(Earlier, all);
      Sorting.SortSorts(Earlier, all);
      SortKeepsListing(all, entries, entries.Keys);
    }

    /** evictLRULocked: list the entries in any order, sort by last access, delete the first n. */
    method EvictLruLocked(n: nat)
      requires n <= |entries|
      modifies this
      ensures EvictsLru(old(entries), n, entries)
      ensures stats == old(stats).(evicted := old(stats).evicted + n)
    {
      ghost var m := entries;
      var sorted := ByLastAccess();
      hide Lists, Deleted, Sorting.Sorted;
      NothingDeleted(m, sorted);
      for i := 0 to n
        invariant stats == old(stats)
        invariant Deleted(m, sorted, i, entries)
      {
        DeleteNext(m, sorted, i, entries);
        entries := entries - {sorted[i].key};
      }
      FirstGoFirst(sorted, m, n, entries);
      stats := stats.(evicted := stats.evicted + n);
    }

    /** Set; an empty response is refused. */
    method Set(prompt: Bytes, tool: Bytes, response: Bytes, now: int) returns (ok: bool)
      modifies this
      ensures ok == (response != [])
      ensures if ok then SetStep(old(Value()), prompt, tool, response, now, Value()) else Value() == old(Value())
    {
      if |response| == 0 {
        return false;
      }
      entries := entries[CacheKey(tool, prompt) := Entry(prompt, tool, response, now, now)];
      if maxEntries > 0 && |entries| > maxEntries {
        EvictLruLocked(|entries| - maxEntries + maxEntries / 10);
      }
      return true;
    }

    /** evictExpired: one pass in any order, deleting what is too old. */
    method EvictExpired(now: int)
      modifies this
      ensures Value() == EvictExpiredStep(old(Value()), now)
    {
      hide Swept;
      var victims: set<Bytes> := {};
      var todo := entries.Keys;
      ghost var m := entries;
      NothingSwept(m, ttl, now);
      while todo != {}
        invariant stats == old(stats)
        invariant Swept(m, ttl, now, todo, victims, entries)
        decreases todo
      {
        var k :| k in todo;
        SweepNext(m, ttl, now, todo, victims, entries, k);
        todo := todo - {k};
        if now - entries[k].createdAt > ttl {
          victims := victims + {k};
          entries := entries - {k};
        }
      }
      AllSwept(m, ttl, now, victims, entries);
      if |victims| > 0 {
        stats := stats.(evicted := stats.evicted + |victims|);
      }
    }
  }

  // ---- size ----

  lemma AddSize(m: Entries, key: Bytes, e: Entry)
    ensures |m[key := e]| == if key in m then |m| else |m| + 1
  {
    assert m[key := e].Keys == m.Keys + {key};
  }

  /** With a positive cap the cache never holds more than maxEntries after Set: one entry too many makes it evict down
      to a tenth below the cap. */
  lemma SetKeepsCap(c: Cache, prompt: Bytes, tool: Bytes, response: Bytes, now: int, after: Cache)
    requires SetStep(c, prompt, tool, response, now, after)
    ensures var size := if CacheKey(tool, prompt) in c.entries then |c.entries| else |c.entries| + 1;
            |after.entries| == if 0 < c.maxEntries < size then c.maxEntries - c.maxEntries / 10 else size
    ensures c.maxEntries > 0 ==> |after.entries| <= c.maxEntries
  {
    AddSize(c.entries, CacheKey(tool, prompt), Entry(prompt, tool, response, now, now));
  }

  // ---- counting ----

  /** Candidates that a search passes because they are stale. */
  function StalePassed(c: Cache, tool: Bytes, cands: seq<Candidate>): nat
    decreases cands
  {
    if cands == [] then 0
    else
      match FateOf(c, cands[0], tool)
      case Passed => StalePassed(c, tool, cands[1..])
      case Stale => 1 + StalePassed(DropStale(c, cands[0]), tool, cands[1..])
      case Served => 0
  }

  /** The stale candidates of a whole Get: none unless it comes to a search. */
  function StaleInGet(c: Cache, prompt: Bytes, tool: Bytes, search: Option<seq<Candidate>>): nat {
    if CacheKey(tool, prompt) in c.entries || search.None? then 0 else StalePassed(c, tool, search.value)
  }

  function Outcomes(s: Stats): nat { s.exact + s.semantic + s.misses }

  lemma {:induction false} TryAccounts(c: Cache, tool: Bytes, cands: seq<Candidate>)
    ensures Outcomes(TryFrom(c, tool, cands).cache.stats) == Outcomes(c.stats) + 1 + StalePassed(c, tool, cands)
    ensures TryFrom(c, tool, cands).cache.stats.requests == c.stats.requests
    decreases cands
  {
    if cands != [] {
      match FateOf(c, cands[0], tool)
      case Passed => TryAccounts(c, tool, cands[1..]);
      case Stale => TryAccounts(DropStale(c, cands[0]), tool, cands[1..]);
      case Served =>
    }
  }

  lemma {:induction false} StaleIgnoresStats(c: Cache, s: Stats, tool: Bytes, cands: seq<Candidate>)
    ensures StalePassed(c.(stats := s), tool, cands) == StalePassed(c, tool, cands)
    decreases cands
  {
    if cands != [] {
      match FateOf(c, cands[0], tool)
      case Passed => StaleIgnoresStats(c, s, tool, cands[1..]);
      case Stale =>
        StaleIgnoresStats(DropStale(c, cands[0]), DropStale(c.(stats := s), cands[0]).stats, tool, cands[1..]);
      case Served =>
    }
  }

  /** Up to the first candidate to be served, none is stale as the cache stands. */
  ghost predicate NoneStale(c: Cache, tool: Bytes, cands: seq<Candidate>) {
    forall i :: 0 <= i < |cands| && (forall j :: 0 <= j < i ==> !FateOf(c, cands[j], tool).Served?) ==>
                  !FateOf(c, cands[i], tool).Stale?
  }

  lemma NoneStaleStep(c: Cache, tool: Bytes, cands: seq<Candidate>)
    requires cands != []
    ensures NoneStale(c, tool, cands) <==>
              match FateOf(c, cands[0], tool)
              case Passed => NoneStale(c, tool, cands[1..])
              case Stale => false
              case Served => true
  {
    var rest := cands[1..];
    assert forall i :: 0 <= i < |rest| ==> rest[i] == cands[i + 1];
    assert forall i :: 0 < i < |cands| ==> cands[i] == rest[i - 1];
    if NoneStale(c, tool, cands) && FateOf(c, cands[0], tool).Passed? {
      forall i | 0 <= i < |rest| && (forall j :: 0 <= j < i ==> !FateOf(c, rest[j], tool).Served?)
        ensures !FateOf(c, rest[i], tool).Stale?
      {
        assert forall j :: 0 <= j < i + 1 ==> !FateOf(c, cands[j], tool).Served?;
      }
    }
    if NoneStale(c, tool, rest) && FateOf(c, cands[0], tool).Passed? {
      forall i | 0 <= i < |cands| && (forall j :: 0 <= j < i ==> !FateOf(c, cands[j], tool).Served?)
        ensures !FateOf(c, cands[i], tool).Stale?
      {
        assert forall j :: 0 <= j < i - 1 ==> !FateOf(c, rest[j], tool).Served?;
      }
    }
  }

  lemma {:induction false} NonePassedStale(c: Cache, tool: Bytes, cands: seq<Candidate>)
    ensures StalePassed(c, tool, cands) == 0 <==> NoneStale(c, tool, cands)
    decreases cands
  {
    if cands != [] {
      hide NoneStale;
      NoneStaleStep(c, tool, cands);
      NonePassedStale(c, tool, cands[1..]);
    } else {
      assert NoneStale(c, tool, cands);
    }
  }

  /** Each Get adds one request and one outcome, and one miss more for every stale candidate it passes. */
  lemma GetAccounts(c: Cache, prompt: Bytes, tool: Bytes, now: int, touched: int, search: Option<seq<Candidate>>)
    ensures var after := GetStep(c, prompt, tool, now, touched, search).cache;
            && after.stats.requests == c.stats.requests + 1
            && Outcomes(after.stats) == Outcomes(c.stats) + 1 + StaleInGet(c, prompt, tool, search)
  {
    var counted := c.(stats := c.stats.(requests := c.stats.requests + 1));
    if search.Some? {
      TryAccounts(counted, tool, search.value);
      StaleIgnoresStats(c, counted.stats, tool, search.value);
    }
  }

  // ---- the running average ----

  function Sum(scores: seq<real>): real {
    if scores == [] then 0.0 else Sum(scores[..|scores| - 1]) + scores[|scores| - 1]
  }

  /** avg is the mean of the scores of all semantic hits. */
  predicate IsMean(s: Stats, scores: seq<real>) {
    s.semantic == |scores| && s.avg * (|scores| as real) == Sum(scores)
  }

  lemma MeanOfOneMore(avg: real, sum: real, n: real, score: real)
    requires n >= 1.0 && avg * (n - 1.0) == sum
    ensures (avg * (n - 1.0) + score) / n * n == sum + score
  {
  }

  lemma HitKeepsMean(c: Cache, key: Bytes, score: real, t: int, scores: seq<real>)
    requires key in c.entries && IsMean(c.stats, scores)
    ensures IsMean(RecordSemanticHit(c, key, score, t).stats, scores + [score])
  {
    var n := (c.stats.semantic + 1) as real;
    assert n - 1.0 == |scores| as real && n == |scores + [score]| as real;
    MeanOfOneMore(c.stats.avg, Sum(scores), n, score);
    assert (scores + [score])[..|scores|] == scores;
  }

  lemma {:induction false} TryKeepsMean(c: Cache, tool: Bytes, cands: seq<Candidate>, scores: seq<real>)
    requires IsMean(c.stats, scores)
    ensures var s := TryFrom(c, tool, cands);
            IsMean(s.cache.stats, if s.answer.hit.Semantic? then scores + [s.answer.similarity] else scores)
    decreases cands
  {
    if cands != [] {
      match FateOf(c, cands[0], tool)
      case Passed => TryKeepsMean(c, tool, cands[1..], scores);
      case Stale => TryKeepsMean(DropStale(c, cands[0]), tool, cands[1..], scores);
      case Served => HitKeepsMean(c, cands[0].id, cands[0].score, cands[0].touched, scores);
    }
  }

  lemma GetKeepsMean(c: Cache, prompt: Bytes, tool: Bytes, now: int, touched: int, search: Option<seq<Candidate>>,
                     scores: seq<real>)
    requires IsMean(c.stats, scores)
    ensures var s := GetStep(c, prompt, tool, now, touched, search);
            IsMean(s.cache.stats, if s.answer.hit.Semantic? then scores + [s.answer.similarity] else scores)
  {
    if search.Some? {
      TryKeepsMean(c.(stats := c.stats.(requests := c.stats.requests + 1)), tool, search.value, scores);
    }
  }

  // ---- runs ----

  datatype Event =
    | Get(prompt: Bytes, tool: Bytes, now: int, touched: int, search: Option<seq<Candidate>>)
    | Set(prompt: Bytes, tool: Bytes, response: Bytes, now: int)
    | Expire(now: int)

  ghost predicate Next(c: Cache, e: Event, after: Cache) {
    match e
    case Get(prompt, tool, now, touched, search) => after == GetStep(c, prompt, tool, now, touched, search).cache
    case Set(prompt, tool, response, now) =>
      if response == [] then after == c else SetStep(c, prompt, tool, response, now, after)
    case Expire(now) => after == EvictExpiredStep(c, now)
  }

  ghost predicate IsRun(maxEntries: int, ttl: int, h: seq<Event>, states: seq<Cache>) {
    && |states| == |h| + 1
    && states[0] == Cache(maxEntries, ttl, map[], Stats(0, 0, 0, 0, 0, 0.0))
    && forall i :: 0 <= i < |h| ==> Next(states[i], h[i], states[i + 1])
  }

  function StaleAt(c: Cache, e: Event): nat {
    if e.Get? then StaleInGet(c, e.prompt, e.tool, e.search) else 0
  }

  /** The stale candidates passed in a run. */
  function StaleInRun(h: seq<Event>, states: seq<Cache>): nat
    requires |h| < |states|
  {
    if h == [] then 0
    else
      var n := |h| - 1;
      StaleInRun(h[..n], states) + StaleAt(states[n], h[n])
  }

  lemma StepAccounts(c: Cache, e: Event, after: Cache)
    requires Next(c, e, after)
    ensures Outcomes(after.stats) - after.stats.requests == Outcomes(c.stats) - c.stats.requests + StaleAt(c, e)
  {
    hide EvictsLru, TryFrom, StalePassed;
    if e.Get? {
      GetAccounts(c, e.prompt, e.tool, e.now, e.touched, e.search);
    }
  }

  lemma FreshAccounts(maxEntries: int, ttl: int)
    ensures Outcomes(Stats(0, 0, 0, 0, 0, 0.0)) == 0
  {
  }

  /** After any run, hits and misses exceed requests by the stale candidates passed. */
  lemma {:induction false} RunAccounts(maxEntries: int, ttl: int, h: seq<Event>, states: seq<Cache>, n: nat)
    requires IsRun(maxEntries, ttl, h, states) && n <= |h|
    ensures Outcomes(states[n].stats) == states[n].stats.requests + StaleInRun(h[..n], states)
  {
    hide Next, Outcomes, StaleAt;
    if n > 0 {
      RunAccounts(maxEntries, ttl, h, states, n - 1);
      StepAccounts(states[n - 1], h[n - 1], states[n]);
      assert h[..n][..n - 1] == h[..n - 1];
    } else {
      FreshAccounts(maxEntries, ttl);
    }
  }

  /** A Get meets no stale candidate, as the cache stands when it is called. */
  ghost predicate MeetsNoneStale(c: Cache, e: Event) {
    e.Get? && CacheKey(e.tool, e.prompt) !in c.entries && e.search.Some? ==> NoneStale(c, e.tool, e.search.value)
  }

  lemma {:induction false} NoneStaleInRun(h: seq<Event>, states: seq<Cache>)
    requires |h| < |states|
    ensures StaleInRun(h, states) == 0 <==> forall i :: 0 <= i < |h| ==> MeetsNoneStale(states[i], h[i])
    decreases |h|
  {
    hide NoneStale, StalePassed;
    if h != [] {
      var n := |h| - 1;
      NoneStaleInRun(h[..n], states);
      assert forall i :: 0 <= i < n ==> h[..n][i] == h[i];
      if h[n].Get? && h[n].search.Some? {
        NonePassedStale(states[n], h[n].tool, h[n].search.value);
      }
    }
  }

  /** After any run, hits and misses add up to requests exactly if no Get of it met a stale candidate. */
  lemma CountsAddUp(maxEntries: int, ttl: int, h: seq<Event>, states: seq<Cache>)
    requires IsRun(maxEntries, ttl, h, states)
    ensures Outcomes(states[|h|].stats) == states[|h|].stats.requests <==>
            forall i :: 0 <= i < |h| ==> MeetsNoneStale(states[i], h[i])
  {
    hide Next, Outcomes, StaleInRun, MeetsNoneStale;
    RunAccounts(maxEntries, ttl, h, states, |h|);
    NoneStaleInRun(h, states);
    assert h[..|h|] == h;
  }

  /** One Get on an empty cache whose search finds a record that the cache has lost: one request, two misses. */
  lemma StaleCandidateCountsTwice()
    ensures var c0 := Cache(10, 100, map[], Stats(0, 0, 0, 0, 0, 0.0));
            var e := Get([0x70], [0x74], 0, 0, Some([Candidate([0x6B], 0.95, 0, 0)]));
            var c1 := GetStep(c0, e.prompt, e.tool, e.now, e.touched, e.search).cache;
            && IsRun(10, 100, [e], [c0, c1]) && !MeetsNoneStale(c0, e)
            && c1.stats == Stats(1, 0, 0, 2, 0, 0.0)
  {
    var cands := [Candidate([0x6B], 0.95, 0, 0)];
    var c := Cache(10, 100, map[], Stats(1, 0, 0, 0, 0, 0.0));
    assert FateOf(c, cands[0], [0x74]).Stale?;
    assert cands[1..] == [];
    assert TryFrom(c, [0x74], cands) == TryFrom(DropStale(c, cands[0]), [0x74], []);
    assert FateOf(c.(stats := Stats(0, 0, 0, 0, 0, 0.0)), cands[0], [0x74]).Stale?;
  }

  function HitScore(c: Cache, e: Event): seq<real> {
    if !e.Get? then []
    else
      var answer := GetStep(c, e.prompt, e.tool, e.now, e.touched, e.search).answer;
      if answer.hit.Semantic? then [answer.similarity] else []
  }

  /** The scores of the semantic hits of a run, in order. */
  function HitScores(h: seq<Event>, states: seq<Cache>): seq<real>
    requires |h| < |states|
  {
    if h == [] then []
    else
      var n := |h| - 1;
      HitScores(h[..n], states) + HitScore(states[n], h[n])
  }

  lemma StepKeepsMean(c: Cache, e: Event, after: Cache, scores: seq<real>)
    requires Next(c, e, after) && IsMean(c.stats, scores)
    ensures IsMean(after.stats, scores + HitScore(c, e))
  {
    hide EvictsLru, Sum, GetStep, TryFrom;
    assert scores + [] == scores;
    if e.Get? {
      GetKeepsMean(c, e.prompt, e.tool, e.now, e.touched, e.search, scores);
    }
  }

  /** After any run, avg is the mean of the scores of all its semantic hits. */
  lemma {:induction false} RunKeepsMean(maxEntries: int, ttl: int, h: seq<Event>, states: seq<Cache>, n: nat)
    requires IsRun(maxEntries, ttl, h, states) && n <= |h|
    ensures IsMean(states[n].stats, HitScores(h[..n], states))
  {
    if n > 0 {
      RunKeepsMean(maxEntries, ttl, h, states, n - 1);
      StepKeepsMean(states[n - 1], h[n - 1], states[n], HitScores(h[..n - 1], states));
      assert h[..n][..n - 1] == h[..n - 1];
    }
  }

  predicate SetsKey(e: Event, key: Bytes) { e.Set? && e.response != [] && CacheKey(e.tool, e.prompt) == key }

  /** The last Set that was accepted under a key. */
  function LastSet(h: seq<Event>, key: Bytes): Option<Event> {
    if h == [] then None
    else
      var e := h[|h| - 1];
      if SetsKey(e, key) then Some(e) else LastSet(h[..|h| - 1], key)
  }

  predicate ComesFrom(en: Entry, e: Option<Event>) {
    && e.Some? && e.value.Set?
    && en.prompt == e.value.prompt && en.tool == e.value.tool && en.response == e.value.response
    && en.createdAt == e.value.now
  }

  ghost predicate Backed(m: Entries, h: seq<Event>) {
    forall k :: k in m ==> CacheKey(m[k].tool, m[k].prompt) == k && ComesFrom(m[k], LastSet(h, k))
  }

  lemma {:induction false} TryKeepsBacked(c: Cache, tool: Bytes, cands: seq<Candidate>, h: seq<Event>)
    requires Backed(c.entries, h)
    ensures Backed(TryFrom(c, tool, cands).cache.entries, h)
    decreases cands
  {
    if cands != [] {
      match FateOf(c, cands[0], tool)
      case Passed => TryKeepsBacked(c, tool, cands[1..], h);
      case Stale => TryKeepsBacked(DropStale(c, cands[0]), tool, cands[1..], h);
      case Served =>
    }
  }

  lemma LastSetStep(h: seq<Event>, e: Event)
    ensures forall key :: LastSet(h + [e], key) == if SetsKey(e, key) then Some(e) else LastSet(h, key)
  {
    assert (h + [e])[..|h|] == h && (h + [e])[|h|] == e;
  }

  lemma {:induction false} TryKeepsConfig(c: Cache, tool: Bytes, cands: seq<Candidate>)
    ensures TryFrom(c, tool, cands).cache.ttl == c.ttl && TryFrom(c, tool, cands).cache.maxEntries == c.maxEntries
    decreases cands
  {
    if cands != [] {
      match FateOf(c, cands[0], tool)
      case Passed => TryKeepsConfig(c, tool, cands[1..]);
      case Stale => TryKeepsConfig(DropStale(c, cands[0]), tool, cands[1..]);
      case Served =>
    }
  }

  lemma GetKeepsBacked(c: Cache, e: Event, h: seq<Event>)
    requires e.Get? && Backed(c.entries, h)
    ensures var after := GetStep(c, e.prompt, e.tool, e.now, e.touched, e.search).cache;
            Backed(after.entries, h) && after.ttl == c.ttl && after.maxEntries == c.maxEntries
  {
    if e.search.Some? {
      var counted := c.(stats := c.stats.(requests := c.stats.requests + 1));
      TryKeepsBacked(counted, e.tool, e.search.value, h);
      TryKeepsConfig(counted, e.tool, e.search.value);
    }
  }

  lemma SetKeepsBacked(c: Cache, e: Event, after: Cache, h: seq<Event>)
    requires e.Set? && e.response != [] && Backed(c.entries, h)
    requires SetStep(c, e.prompt, e.tool, e.response, e.now, after)
    ensures Backed(after.entries, h + [e])
  {
    LastSetStep(h, e);
    hide LastSet, Surplus;
  }

  lemma StepKeepsBacked(c: Cache, e: Event, after: Cache, h: seq<Event>)
    requires Backed(c.entries, h) && Next(c, e, after)
    ensures Backed(after.entries, h + [e])
    ensures after.ttl == c.ttl && after.maxEntries == c.maxEntries
  {
    hide LastSet, TryFrom, EvictsLru;
    LastSetStep(h, e);
    if e.Get? {
      GetKeepsBacked(c, e, h);
    } else if e.Set? && e.response != [] {
      SetKeepsBacked(c, e, after, h);
    }
  }

  lemma {:induction false} RunIsBacked(maxEntries: int, ttl: int, h: seq<Event>, states: seq<Cache>)
    requires IsRun(maxEntries, ttl, h, states)
    ensures Backed(states[|h|].entries, h) && states[|h|].ttl == ttl && states[|h|].maxEntries == maxEntries
    decreases |h|
  {
    if h != [] {
      var n := |h| - 1;
      RunIsBacked(maxEntries, ttl, h[..n], states[..n + 1]);
      StepKeepsBacked(states[n], h[n], states[n + 1], h[..n]);
      assert h[..n] + [h[n]] == h;
    }
  }

  lemma {:induction false} TryServes(c: Cache, tool: Bytes, cands: seq<Candidate>, h: seq<Event>)
      returns (cand: Candidate)
    requires Backed(c.entries, h) && TryFrom(c, tool, cands).answer.hit.Semantic?
    ensures cand in cands && cand.score >= SEMANTIC_SIMILARITY_THRESHOLD
    ensures var e := LastSet(h, cand.id);
            && e.Some? && e.value.Set? && e.value.tool == tool && cand.now - e.value.now <= c.ttl
            && TryFrom(c, tool, cands).answer == Answer(Semantic, e.value.response, cand.score)
    decreases cands
  {
    match FateOf(c, cands[0], tool)
    case Passed => cand := TryServes(c, tool, cands[1..], h);
    case Stale => cand := TryServes(DropStale(c, cands[0]), tool, cands[1..], h);
    case Served => cand := cands[0];
  }

  lemma {:induction false} TryIsNeverExact(c: Cache, tool: Bytes, cands: seq<Candidate>)
    ensures !TryFrom(c, tool, cands).answer.hit.Exact?
    decreases cands
  {
    if cands != [] {
      match FateOf(c, cands[0], tool)
      case Passed => TryIsNeverExact(c, tool, cands[1..]);
      case Stale => TryIsNeverExact(DropStale(c, cands[0]), tool, cands[1..]);
      case Served =>
    }
  }

  lemma SamePrompt(tool: Bytes, p: Bytes, q: Bytes)
    requires CacheKey(tool, p) == CacheKey(tool, q)
    ensures p == q
  {
    assert CacheKey(tool, p)[|tool| + 1..] == p && CacheKey(tool, q)[|tool| + 1..] == q;
  }

  /** After any run, an exact hit answers with the response last set for this very tool and prompt, no
      longer ago than the TTL. */
  lemma ExactHitIsLastSet(maxEntries: int, ttl: int, h: seq<Event>, states: seq<Cache>, e: Event)
    requires IsRun(maxEntries, ttl, h, states) && e.Get?
    requires GetStep(states[|h|], e.prompt, e.tool, e.now, e.touched, e.search).answer.hit.Exact?
    ensures var s := LastSet(h, CacheKey(e.tool, e.prompt));
            && s.Some? && s.value.Set? && s.value.tool == e.tool && s.value.prompt == e.prompt
            && e.now - s.value.now <= ttl
            && GetStep(states[|h|], e.prompt, e.tool, e.now, e.touched, e.search).answer.response == s.value.response
  {
    RunIsBacked(maxEntries, ttl, h, states);
    var c := states[|h|];
    var key := CacheKey(e.tool, e.prompt);
    if e.search.Some? {
      TryIsNeverExact(c.(stats := c.stats.(requests := c.stats.requests + 1)), e.tool, e.search.value);
    }
    SamePrompt(e.tool, e.prompt, c.entries[key].prompt);
  }

  /** After any run, a semantic hit answers with the response last set under the key of a candidate at or over the
      threshold, for this tool and within the TTL. */
  lemma SemanticHitIsLastSet(maxEntries: int, ttl: int, h: seq<Event>, states: seq<Cache>, e: Event)
      returns (cand: Candidate)
    requires IsRun(maxEntries, ttl, h, states) && e.Get?
    requires GetStep(states[|h|], e.prompt, e.tool, e.now, e.touched, e.search).answer.hit.Semantic?
    ensures e.search.Some? && cand in e.search.value && cand.score >= SEMANTIC_SIMILARITY_THRESHOLD
    ensures var s := LastSet(h, cand.id);
            && s.Some? && s.value.Set? && s.value.tool == e.tool && cand.now - s.value.now <= ttl
            && GetStep(states[|h|], e.prompt, e.tool, e.now, e.touched, e.search).answer
               == Answer(Semantic, s.value.response, cand.score)
  {
    RunIsBacked(maxEntries, ttl, h, states);
    var c := states[|h|];
    cand := TryServes(c.(stats := c.stats.(requests := c.stats.requests + 1)), e.tool, e.search.value, h);
  }

  // ---- nothing is lost without need ----

  /** A call that evicts nothing for want of room, and reads the clock no later than t. */
  ghost predicate Gentle(c: Cache, e: Event, t: int) {
    match e
    case Get(_, _, now, _, search) =>
      now <= t && (search.Some? ==> forall i :: 0 <= i < |search.value| ==> search.value[i].now <= t)
    case Set(prompt, tool, _, _) =>
      c.maxEntries <= 0 || |c.entries.Keys + {CacheKey(tool, prompt)}| <= c.maxEntries
    case Expire(now) => now <= t
  }

  ghost predicate GentleRun(h: seq<Event>, states: seq<Cache>, t: int) {
    |h| < |states| && forall i :: 0 <= i < |h| ==> Gentle(states[i], h[i], t)
  }

  /** A Get under this key, but for another tool. */
  predicate Collides(e: Event, key: Bytes, tool: Bytes) {
    e.Get? && CacheKey(e.tool, e.prompt) == key && e.tool != tool
  }

  /** There was such a Get since the last accepted Set under the key. */
  predicate Dropped(h: seq<Event>, key: Bytes, tool: Bytes) {
    h != [] &&
      var e := h[|h| - 1];
      !SetsKey(e, key) && (Collides(e, key, tool) || Dropped(h[..|h| - 1], key, tool))
  }

  lemma DroppedStep(h: seq<Event>, e: Event)
    ensures forall key, tool :: Dropped(h + [e], key, tool) <==>
              !SetsKey(e, key) && (Collides(e, key, tool) || Dropped(h, key, tool))
  {
    assert (h + [e])[..|h|] == h && (h + [e])[|h|] == e;
  }

  /** What was last set under a key is neither older than the TTL at time t nor dropped. */
  predicate Lasts(h: seq<Event>, key: Bytes, ttl: int, t: int) {
    var s := LastSet(h, key);
    s.Some? && s.value.Set? && t - s.value.now <= ttl && !Dropped(h, key, s.value.tool)
  }

  /** Then it is still there. */
  ghost predicate Retains(c: Cache, h: seq<Event>, t: int) {
    forall k :: Lasts(h, k, c.ttl, t) ==> k in c.entries
  }

  /** And what was dropped is not. */
  ghost predicate HoldsNoneDropped(m: Entries, h: seq<Event>) { forall k :: k in m ==> !Dropped(h, k, m[k].tool) }

  /** Keys leave only with entries that are too old at time t, or that a Get collides with. */
  ghost predicate LosesOnly(m: Entries, after: Entries, ttl: int, t: int, e: Event) {
    forall k :: k in m && k !in after ==> t - m[k].createdAt > ttl || Collides(e, k, m[k].tool)
  }

  ghost predicate SameOrigin(m: Entries, after: Entries) {
    forall k :: k in after ==> k in m && after[k].createdAt == m[k].createdAt && after[k].tool == m[k].tool
  }

  lemma {:induction false} TryKeepsOrigin(c: Cache, tool: Bytes, cands: seq<Candidate>)
    ensures SameOrigin(c.entries, TryFrom(c, tool, cands).cache.entries)
    decreases cands
  {
    if cands != [] {
      match FateOf(c, cands[0], tool)
      case Passed => TryKeepsOrigin(c, tool, cands[1..]);
      case Stale => TryKeepsOrigin(DropStale(c, cands[0]), tool, cands[1..]);
      case Served =>
    }
  }

  lemma {:induction false} TryLosesOnlyOld(c: Cache, tool: Bytes, cands: seq<Candidate>, t: int, e: Event)
    requires forall i :: 0 <= i < |cands| ==> cands[i].now <= t
    ensures LosesOnly(c.entries, TryFrom(c, tool, cands).cache.entries, c.ttl, t, e)
    decreases cands
  {
    if cands != [] {
      TryKeepsOrigin(c, tool, cands);
      match FateOf(c, cands[0], tool)
      case Passed => TryLosesOnlyOld(c, tool, cands[1..], t, e);
      case Stale => TryLosesOnlyOld(DropStale(c, cands[0]), tool, cands[1..], t, e);
      case Served =>
    }
  }

  lemma GetKeepsOrigin(c: Cache, e: Event)
    requires e.Get?
    ensures var after := GetStep(c, e.prompt, e.tool, e.now, e.touched, e.search).cache;
            && SameOrigin(c.entries, after.entries)
            && forall k :: k in after.entries ==> !Collides(e, k, after.entries[k].tool)
  {
    hide TryFrom;
    if e.search.Some? {
      TryKeepsOrigin(c.(stats := c.stats.(requests := c.stats.requests + 1)), e.tool, e.search.value);
    }
  }

  lemma GetLosesOnly(c: Cache, e: Event, t: int)
    requires e.Get? && Gentle(c, e, t)
    ensures LosesOnly(c.entries, GetStep(c, e.prompt, e.tool, e.now, e.touched, e.search).cache.entries, c.ttl, t, e)
  {
    hide TryFrom;
    if e.search.Some? {
      TryLosesOnlyOld(c.(stats := c.stats.(requests := c.stats.requests + 1)), e.tool, e.search.value, t, e);
    }
  }

  lemma SameSize<T>(a: set<T>, b: set<T>)
    requires a <= b && |a| == |b|
    ensures a == b
  {
    assert |b - a| == |b| - |a|;
    assert b == a + (b - a);
  }

  lemma RoomySetKeepsAll(c: Cache, e: Event, after: Cache, t: int)
    requires e.Set? && e.response != [] && Gentle(c, e, t) && Next(c, e, after)
    ensures after.entries.Keys == c.entries.Keys + {CacheKey(e.tool, e.prompt)}
  {
    var m := c.entries[CacheKey(e.tool, e.prompt) := Entry(e.prompt, e.tool, e.response, e.now, e.now)];
    assert m.Keys == c.entries.Keys + {CacheKey(e.tool, e.prompt)};
    assert |after.entries| == |m|;
    SameSize(after.entries.Keys, m.Keys);
  }

  lemma StepRetains(c: Cache, h: seq<Event>, e: Event, after: Cache, t: int)
    requires Backed(c.entries, h) && Retains(c, h, t) && Gentle(c, e, t) && Next(c, e, after)
    ensures Retains(after, h + [e], t)
  {
    hide LastSet, Dropped, EvictsLru, TryFrom;
    LastSetStep(h, e);
    DroppedStep(h, e);
    StepKeepsBacked(c, e, after, h);
    if e.Get? {
      GetLosesOnly(c, e, t);
    } else if e.Set? && e.response != [] {
      RoomySetKeepsAll(c, e, after, t);
    }
  }

  lemma StepHoldsNoneDropped(c: Cache, h: seq<Event>, e: Event, after: Cache)
    requires HoldsNoneDropped(c.entries, h) && Next(c, e, after)
    ensures HoldsNoneDropped(after.entries, h + [e])
  {
    hide Dropped, TryFrom;
    DroppedStep(h, e);
    if e.Get? {
      GetKeepsOrigin(c, e);
    }
  }

  /** After any run, what a colliding Get dropped is gone. */
  lemma {:induction false} RunHoldsNoneDropped(maxEntries: int, ttl: int, h: seq<Event>, states: seq<Cache>)
    requires IsRun(maxEntries, ttl, h, states)
    ensures HoldsNoneDropped(states[|h|].entries, h)
    decreases |h|
  {
    if h != [] {
      var n := |h| - 1;
      RunHoldsNoneDropped(maxEntries, ttl, h[..n], states[..n + 1]);
      hide Next, HoldsNoneDropped;
      StepHoldsNoneDropped(states[n], h[..n], h[n], states[n + 1]);
      assert h[..n] + [h[n]] == h;
    }
  }

  lemma {:induction false} RunRetains(maxEntries: int, ttl: int, h: seq<Event>, states: seq<Cache>, t: int)
    requires IsRun(maxEntries, ttl, h, states) && GentleRun(h, states, t)
    ensures Retains(states[|h|], h, t)
    decreases |h|
  {
    if h != [] {
      var n := |h| - 1;
      RunIsBacked(maxEntries, ttl, h[..n], states[..n + 1]);
      RunRetains(maxEntries, ttl, h[..n], states[..n + 1], t);
      assert Gentle(states[n], h[n], t);
      hide Backed, Retains, Next, Gentle;
      StepRetains(states[n], h[..n], h[n], states[n + 1], t);
      assert h[..n] + [h[n]] == h;
    }
  }

  lemma ExactHitHasEntry(c: Cache, e: Event)
    requires e.Get? && GetStep(c, e.prompt, e.tool, e.now, e.touched, e.search).answer.hit.Exact?
    ensures CacheKey(e.tool, e.prompt) in c.entries && c.entries[CacheKey(e.tool, e.prompt)].tool == e.tool
  {
    if e.search.Some? {
      TryIsNeverExact(c.(stats := c.stats.(requests := c.stats.requests + 1)), e.tool, e.search.value);
    }
  }

  /** After a run that never evicted for want of room, a Get that reads the clock no earlier than any call before
      it is an exact hit exactly if what was last set under its key was set for its tool, within the TTL, and no Get
      of another tool with the same key came after. */
  lemma ExactHitIffSet(maxEntries: int, ttl: int, h: seq<Event>, states: seq<Cache>, e: Event)
    requires IsRun(maxEntries, ttl, h, states) && e.Get? && GentleRun(h, states, e.now)
    ensures var key := CacheKey(e.tool, e.prompt);
            GetStep(states[|h|], e.prompt, e.tool, e.now, e.touched, e.search).answer.hit.Exact? <==>
              Lasts(h, key, ttl, e.now) && LastSet(h, key).value.tool == e.tool
  {
    hide LastSet, Dropped, TryFrom;
    RunIsBacked(maxEntries, ttl, h, states);
    RunRetains(maxEntries, ttl, h, states, e.now);
    RunHoldsNoneDropped(maxEntries, ttl, h, states);
    if GetStep(states[|h|], e.prompt, e.tool, e.now, e.touched, e.search).answer.hit.Exact? {
      ExactHitIsLastSet(maxEntries, ttl, h, states, e);
      ExactHitHasEntry(states[|h|], e);
    }
  }

  /** A prompt p is set for the tool a.b, the dot being a NUL; then the tool a asks for b.p, and the first prompt is
      gone. */
  lemma CollidingGetDrops()
    ensures var s := Set([0x70], [0x61, 0, 0x62], [0x72], 0);
            var g := Get([0x62, 0, 0x70], [0x61], 0, 0, None);
            exists states ::
              && IsRun(10, 100, [s, g], states)
              && GetStep(states[1], s.prompt, s.tool, 0, 0, None).answer == Answer(Exact, s.response, 1.0)
              && GetStep(states[2], s.prompt, s.tool, 0, 0, None).answer == MISS
  {
    var s := Set([0x70], [0x61, 0, 0x62], [0x72], 0);
    var g := Get([0x62, 0, 0x70], [0x61], 0, 0, None);
    var key := CacheKey(s.tool, s.prompt);
    assert key == [0x61, 0, 0x62, 0, 0x70] == CacheKey(g.tool, g.prompt);
    var c0 := Cache(10, 100, map[], Stats(0, 0, 0, 0, 0, 0.0));
    var c1 := c0.(entries := map[key := Entry(s.prompt, s.tool, s.response, 0, 0)]);
    assert SetStep(c0, s.prompt, s.tool, s.response, 0, c1);
    var c2 := GetStep(c1, g.prompt, g.tool, 0, 0, None).cache;
    assert key !in c2.entries;
    assert IsRun(10, 100, [s, g], [c0, c1, c2]);
  }

  // ---- the least recently used ----

  /** The candidate that a search is answered with. */
  function ServedBy(c: Cache, tool: Bytes, cands: seq<Candidate>): Option<Candidate>
    decreases cands
  {
    if cands == [] then None
    else
      match FateOf(c, cands[0], tool)
      case Served => Some(cands[0])
      case Passed => ServedBy(c, tool, cands[1..])
      case Stale => ServedBy(DropStale(c, cands[0]), tool, cands[1..])
  }

  /** When a call uses the entry under a key: setting it, or answering with it. */
  function UseOf(c: Cache, e: Event, key: Bytes): Option<int> {
    match e
    case Set(_, _, _, now) => if SetsKey(e, key) then Some(now) else None
    case Expire(_) => None
    case Get(prompt, tool, now, touched, search) =>
      var own := CacheKey(tool, prompt);
      if own in c.entries then
        if key == own && Usable(c.entries[own], tool, c.ttl, now) then Some(touched) else None
      else if search.None? then None
      else
        var served := ServedBy(c, tool, search.value);
        if served.Some? && served.value.id == key then Some(served.value.touched) else None
  }

  /** When a key was last used in a run. */
  function LastUse(h: seq<Event>, states: seq<Cache>, key: Bytes): Option<int>
    requires |h| < |states|
  {
    if h == [] then None
    else
      var n := |h| - 1;
      var used := UseOf(states[n], h[n], key);
      if used.Some? then used else LastUse(h[..n], states, key)
  }

  /** After a use the entry bears its time, and otherwise what it bore before. */
  ghost predicate Stamps(m: Entries, after: Entries, key: Bytes, used: Option<int>) {
    key in after ==>
      if used.Some? then after[key].accessed == used.value
      else key in m && after[key].accessed == m[key].accessed
  }

  lemma {:induction false} TryStamps(c: Cache, tool: Bytes, cands: seq<Candidate>, key: Bytes)
    ensures var served := ServedBy(c, tool, cands);
            Stamps(c.entries, TryFrom(c, tool, cands).cache.entries, key,
                   if served.Some? && served.value.id == key then Some(served.value.touched) else None)
    decreases cands
  {
    if cands != [] {
      match FateOf(c, cands[0], tool)
      case Passed => TryStamps(c, tool, cands[1..], key);
      case Stale => TryStamps(DropStale(c, cands[0]), tool, cands[1..], key);
      case Served =>
    }
  }

  lemma {:induction false} ServedIgnoresCounts(c: Cache, stats: Stats, tool: Bytes, cands: seq<Candidate>)
    ensures ServedBy(c.(stats := stats), tool, cands) == ServedBy(c, tool, cands)
    decreases cands
  {
    if cands != [] {
      var d := c.(stats := stats);
      match FateOf(c, cands[0], tool)
      case Passed => ServedIgnoresCounts(c, stats, tool, cands[1..]);
      case Stale =>
        ServedIgnoresCounts(DropStale(c, cands[0]), DropStale(d, cands[0]).stats, tool, cands[1..]);
      case Served =>
    }
  }

  lemma StepStamps(c: Cache, e: Event, after: Cache, key: Bytes)
    requires Next(c, e, after)
    ensures Stamps(c.entries, after.entries, key, UseOf(c, e, key))
  {
    hide TryFrom, ServedBy;
    if e.Get? && e.search.Some? {
      var counted := c.(stats := c.stats.(requests := c.stats.requests + 1));
      TryStamps(counted, e.tool, e.search.value, key);
      ServedIgnoresCounts(c, counted.stats, e.tool, e.search.value);
    }
  }

  lemma {:induction false} LastUseBefore(h: seq<Event>, states: seq<Cache>, more: seq<Cache>, key: Bytes)
    requires |h| < |states| <= |more| && more[..|states|] == states
    ensures LastUse(h, states, key) == LastUse(h, more, key)
    decreases |h|
  {
    if h != [] {
      var n := |h| - 1;
      LastUseBefore(h[..n], states, more, key);
      assert states[n] == more[n];
    }
  }

  /** After any run, what an entry bears as its last access is when it was last set or answered with. */
  lemma {:induction false} RunStamps(maxEntries: int, ttl: int, h: seq<Event>, states: seq<Cache>, key: Bytes)
    requires IsRun(maxEntries, ttl, h, states) && key in states[|h|].entries
    ensures LastUse(h, states, key) == Some(states[|h|].entries[key].accessed)
    decreases |h|
  {
    if h != [] {
      var n := |h| - 1;
      hide UseOf, Next;
      StepStamps(states[n], h[n], states[n + 1], key);
      if UseOf(states[n], h[n], key).None? {
        RunStamps(maxEntries, ttl, h[..n], states[..n + 1], key);
        LastUseBefore(h[..n], states[..n + 1], states, key);
      }
    }
  }

  lemma LastUseStep(h: seq<Event>, states: seq<Cache>, key: Bytes)
    requires h != [] && |h| < |states|
    ensures LastUse(h, states, key) ==
            var used := UseOf(states[|h| - 1], h[|h| - 1], key);
            if used.Some? then used else LastUse(h[..|h| - 1], states, key)
  {
  }

  lemma SetEvictsOldest(c: Cache, e: Event, after: Cache, gone: Bytes, kept: Bytes)
    requires e.Set? && Next(c, e, after) && gone in c.entries && gone !in after.entries && kept in after.entries
    ensures var used := UseOf(c, e, gone);
            (if used.Some? then used.value else c.entries[gone].accessed) <= after.entries[kept].accessed
  {
  }

  /** So what a Set evicts was not used later than anything it leaves. */
  lemma EvictsLeastRecent(maxEntries: int, ttl: int, h: seq<Event>, states: seq<Cache>, gone: Bytes, kept: Bytes)
    requires IsRun(maxEntries, ttl, h, states) && h != [] && h[|h| - 1].Set?
    requires gone in states[|h| - 1].entries && gone !in states[|h|].entries && kept in states[|h|].entries
    ensures LastUse(h, states, gone).Some? && LastUse(h, states, kept).Some?
    ensures LastUse(h, states, gone).value <= LastUse(h, states, kept).value
  {
    hide LastUse, Next, UseOf;
    var n := |h| - 1;
    assert Next(states[n], h[n], states[n + 1]);
    RunStamps(maxEntries, ttl, h, states, kept);
    assert IsRun(maxEntries, ttl, h[..n], states[..n + 1]);
    RunStamps(maxEntries, ttl, h[..n], states[..n + 1], gone);
    LastUseBefore(h[..n], states[..n + 1], states, gone);
    LastUseStep(h, states, gone);
    SetEvictsOldest(states[n], h[n], states[n + 1], gone, kept);
  }

  // ---- conservation ----

  /** What has come in, and not been counted out. */
  function Balance(c: Cache): int { |c.entries| + c.stats.evicted }

  lemma RemoveAllSize(m: Entries, gone: set<Bytes>)
    requires gone <= m.Keys
    ensures |m - gone| == |m| - |gone|
  {
    assert (m - gone).Keys == m.Keys - gone;
    assert m.Keys == (m.Keys - gone) + gone;
  }

  lemma {:induction false} TryBalances(c: Cache, tool: Bytes, cands: seq<Candidate>)
    ensures Balance(TryFrom(c, tool, cands).cache) == Balance(c)
    decreases cands
  {
    if cands != [] {
      var cand := cands[0];
      match FateOf(c, cand, tool)
      case Passed => TryBalances(c, tool, cands[1..]);
      case Stale =>
        if cand.id in c.entries {
          RemoveSize(c.entries, cand.id);
        }
        TryBalances(DropStale(c, cand), tool, cands[1..]);
      case Served => AddSize(c.entries, cand.id, c.entries[cand.id].(accessed := cand.touched));
    }
  }

  lemma GetBalances(c: Cache, e: Event)
    requires e.Get?
    ensures Balance(GetStep(c, e.prompt, e.tool, e.now, e.touched, e.search).cache) == Balance(c)
  {
    hide TryFrom;
    var key := CacheKey(e.tool, e.prompt);
    if key in c.entries {
      RemoveSize(c.entries, key);
      AddSize(c.entries, key, c.entries[key].(accessed := e.touched));
    } else if e.search.Some? {
      TryBalances(c.(stats := c.stats.(requests := c.stats.requests + 1)), e.tool, e.search.value);
    }
  }

  /** A Set that is accepted under a key that the cache does not hold. */
  predicate BringsNew(c: Cache, e: Event) {
    e.Set? && e.response != [] && CacheKey(e.tool, e.prompt) !in c.entries
  }

  lemma SetBalances(c: Cache, e: Event, after: Cache)
    requires e.Set? && SetStep(c, e.prompt, e.tool, e.response, e.now, after)
    ensures Balance(after) == Balance(c) + if CacheKey(e.tool, e.prompt) in c.entries then 0 else 1
  {
    AddSize(c.entries, CacheKey(e.tool, e.prompt), Entry(e.prompt, e.tool, e.response, e.now, e.now));
  }

  lemma StepBalances(c: Cache, e: Event, after: Cache)
    requires Next(c, e, after)
    ensures Balance(after) == Balance(c) + if BringsNew(c, e) then 1 else 0
  {
    hide EvictsLru, TryFrom;
    match e
    case Get(_, _, _, _, _) => GetBalances(c, e);
    case Expire(now) => RemoveAllSize(c.entries, TooOld(c.entries, c.ttl, now));
    case Set(prompt, tool, response, now) =>
      if response != [] {
        SetBalances(c, e, after);
      }
  }

  function NewInRun(h: seq<Event>, states: seq<Cache>): nat
    requires |h| < |states|
  {
    if h == [] then 0
    else NewInRun(h[..|h| - 1], states) + if BringsNew(states[|h| - 1], h[|h| - 1]) then 1 else 0
  }

  /** After any run, what the cache holds and what it has counted as evicted are together what has been brought in. */
  lemma {:induction false} RunConserves(maxEntries: int, ttl: int, h: seq<Event>, states: seq<Cache>, n: nat)
    requires IsRun(maxEntries, ttl, h, states) && n <= |h|
    ensures |states[n].entries| + states[n].stats.evicted == NewInRun(h[..n], states)
  {
    hide Next, BringsNew;
    if n > 0 {
      RunConserves(maxEntries, ttl, h, states, n - 1);
      assert h[..n][..n - 1] == h[..n - 1];
      StepBalances(states[n - 1], h[n - 1], states[n]);
    }
  }

  // ---- when a search is answered ----

  /** Over the threshold, still held, set for this tool, and within the TTL when it is tried. */
  predicate Fits(c: Cache, tool: Bytes, cand: Candidate) {
    && cand.score >= 0.92 && cand.id in c.entries
    && c.entries[cand.id].tool == tool && cand.now - c.entries[cand.id].createdAt <= c.ttl
  }

  /** The same, but no longer within the TTL. */
  predicate Outdated(c: Cache, tool: Bytes, cand: Candidate) {
    && cand.score >= 0.92 && cand.id in c.entries
    && c.entries[cand.id].tool == tool && cand.now - c.entries[cand.id].createdAt > c.ttl
  }

  /** Candidate i fits, and no candidate before it has had the same entry dropped. */
  predicate Qualifies(c: Cache, tool: Bytes, cands: seq<Candidate>, i: nat) {
    && i < |cands| && Fits(c, tool, cands[i])
    && forall j :: 0 <= j < i ==> !(cands[j].id == cands[i].id && Outdated(c, tool, cands[j]))
  }

  lemma QualifiesLater(c: Cache, next: Cache, tool: Bytes, cands: seq<Candidate>, i: nat)
    requires cands != [] && i < |cands| - 1 && !FateOf(c, cands[0], tool).Served? && next.ttl == c.ttl
    requires next.entries == if Outdated(c, tool, cands[0]) then c.entries - {cands[0].id} else c.entries
    ensures Qualifies(next, tool, cands[1..], i) <==> Qualifies(c, tool, cands, i + 1)
  {
    var rest := cands[1..];
    assert forall j :: 0 <= j < |rest| ==> rest[j] == cands[j + 1];
    if Qualifies(next, tool, rest, i) {
      forall j | 0 <= j < i + 1 ensures !(cands[j].id == cands[i + 1].id && Outdated(c, tool, cands[j])) {
        if j > 0 {
          assert rest[j - 1] == cands[j];
        }
      }
    }
  }

  ghost predicate NoneQualifies(c: Cache, tool: Bytes, cands: seq<Candidate>) {
    forall i: nat :: !Qualifies(c, tool, cands, i)
  }

  predicate FirstQualifies(c: Cache, tool: Bytes, cands: seq<Candidate>, i: nat) {
    Qualifies(c, tool, cands, i) && forall j: nat :: j < i ==> !Qualifies(c, tool, cands, j)
  }

  lemma FirstLater(c: Cache, next: Cache, tool: Bytes, cands: seq<Candidate>, i: nat)
    requires cands != [] && !FateOf(c, cands[0], tool).Served? && next.ttl == c.ttl
    requires next.entries == if Outdated(c, tool, cands[0]) then c.entries - {cands[0].id} else c.entries
    requires FirstQualifies(c, tool, cands, i)
    ensures i > 0 && FirstQualifies(next, tool, cands[1..], i - 1)
    ensures next.entries[cands[i].id] == c.entries[cands[i].id]
  {
    assert i > 0;
    QualifiesLater(c, next, tool, cands, i - 1);
    forall j: nat | j < i - 1 ensures !Qualifies(next, tool, cands[1..], j) {
      QualifiesLater(c, next, tool, cands, j);
    }
  }

  lemma NoneLater(c: Cache, next: Cache, tool: Bytes, cands: seq<Candidate>)
    requires cands != [] && !FateOf(c, cands[0], tool).Served? && next.ttl == c.ttl
    requires next.entries == if Outdated(c, tool, cands[0]) then c.entries - {cands[0].id} else c.entries
    requires NoneQualifies(c, tool, cands)
    ensures NoneQualifies(next, tool, cands[1..])
  {
    forall i: nat ensures !Qualifies(next, tool, cands[1..], i) {
      if i < |cands| - 1 {
        QualifiesLater(c, next, tool, cands, i);
      }
    }
  }

  /** A search is answered from the first candidate that qualifies, and is a miss if there is none. */
  lemma {:induction false} TryAnswers(c: Cache, tool: Bytes, cands: seq<Candidate>)
    ensures NoneQualifies(c, tool, cands) ==> TryFrom(c, tool, cands).answer == MISS
    ensures forall i: nat :: FirstQualifies(c, tool, cands, i) ==>
              TryFrom(c, tool, cands).answer
              == Answer(Semantic, c.entries[cands[i].id].response, cands[i].score)
    decreases cands
  {
    if cands != [] {
      var fate := FateOf(c, cands[0], tool);
      if fate.Served? {
        assert Qualifies(c, tool, cands, 0);
      } else {
        var next := if fate.Stale? then DropStale(c, cands[0]) else c;
        TryAnswers(next, tool, cands[1..]);
        hide Qualifies;
        if NoneQualifies(c, tool, cands) {
          NoneLater(c, next, tool, cands);
        }
        forall i: nat | FirstQualifies(c, tool, cands, i)
          ensures TryFrom(c, tool, cands).answer == Answer(Semantic, c.entries[cands[i].id].response, cands[i].score)
        {
          FirstLater(c, next, tool, cands, i);
        }
      }
    }
  }

  lemma {:induction false} FirstOfThose(c: Cache, tool: Bytes, cands: seq<Candidate>, i: nat) returns (first: nat)
    requires Qualifies(c, tool, cands, i)
    ensures FirstQualifies(c, tool, cands, first)
    decreases i
  {
    if j: nat :| j < i && Qualifies(c, tool, cands, j) {
      first := FirstOfThose(c, tool, cands, j);
    } else {
      first := i;
    }
  }

  lemma StatsDoNotQualify(c: Cache, stats: Stats, tool: Bytes, cands: seq<Candidate>, i: nat)
    ensures Qualifies(c.(stats := stats), tool, cands, i) <==> Qualifies(c, tool, cands, i)
  {
  }

  /** Get answers with the entry under its own key if that can be used, and does not search if there is one; else it
      answers with a candidate exactly if one qualifies. */
  lemma GetAnswers(c: Cache, e: Event)
    requires e.Get?
    ensures var key := CacheKey(e.tool, e.prompt);
            var answer := GetStep(c, e.prompt, e.tool, e.now, e.touched, e.search).answer;
            if key in c.entries then
              if c.entries[key].tool == e.tool && e.now - c.entries[key].createdAt <= c.ttl
              then answer == Answer(Exact, c.entries[key].response, 1.0) else answer == MISS
            else if e.search.None? || NoneQualifies(c, e.tool, e.search.value) then answer == MISS
            else answer.hit.Semantic?
  {
    hide TryFrom, Qualifies;
    if CacheKey(e.tool, e.prompt) !in c.entries && e.search.Some? {
      var counted := c.(stats := c.stats.(requests := c.stats.requests + 1));
      forall i: nat ensures Qualifies(counted, e.tool, e.search.value, i) <==> Qualifies(c, e.tool, e.search.value, i) {
        StatsDoNotQualify(c, counted.stats, e.tool, e.search.value, i);
      }
      TryAnswers(counted, e.tool, e.search.value);
      if i: nat :| Qualifies(counted, e.tool, e.search.value, i) {
        var first := FirstOfThose(counted, e.tool, e.search.value, i);
      }
    }
  }
}
