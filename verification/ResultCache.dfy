/**
 The exact-match result cache (pkg/mcp/resultcache.go). Times are integers; SHA-256 is a parameter of
 the key, a function to digests of 32 bytes.
 */
module ResultCache {
  import opened Utf8
  import opened Wrappers
  import opened JoinedNames

  const MAX_RESULT_CACHE_ENTRIES := 256
  const DIGEST_LEN := 32

  // ---- keys ----

  /** resultCacheKey, given the digest of the arguments. */
  function ResultKey(server: Bytes, tool: Bytes, digest: Bytes): Bytes {
    Join(0, server, tool) + [0] + digest
  }

  /** The key of a tool's TTL. */
  function ToolKey(server: Bytes, tool: Bytes): Bytes { Join(0x2F, server, tool) }

  lemma EqualSums(a: Bytes, b: Bytes, c: Bytes, d: Bytes)
    requires |b| == |d|
    ensures a + b == c + d <==> a == c && b == d
  {
    if a + b == c + d {
      assert |a| == |c|;
      assert a == (a + b)[..|a|] && b == (a + b)[|a|..];
      assert c == (c + d)[..|c|] && d == (c + d)[|c|..];
    }
  }

  /** Two keys are the same exactly when their names read alike with a NUL between. */
  lemma KeyShape(server1: Bytes, tool1: Bytes, digest1: Bytes, server2: Bytes, tool2: Bytes, digest2: Bytes)
    requires |digest1| == |digest2|
    ensures ResultKey(server1, tool1, digest1) == ResultKey(server2, tool2, digest2)
       <==> Join(0, server1, tool1) == Join(0, server2, tool2) && digest1 == digest2
  {
    var names1, names2 := Join(0, server1, tool1), Join(0, server2, tool2);
    assert ResultKey(server1, tool1, digest1) == names1 + ([0] + digest1);
    assert ResultKey(server2, tool2, digest2) == names2 + ([0] + digest2);
    EqualSums(names1, [0] + digest1, names2, [0] + digest2);
    EqualSums([0], digest1, [0], digest2);
  }

  ghost predicate KeyAlso(server: Bytes, tool: Bytes, digest: Bytes, s: Bytes, t: Bytes, d: Bytes) {
    (s != server || t != tool) && |d| == DIGEST_LEN && ResultKey(s, t, d) == ResultKey(server, tool, digest)
  }

  /** Some other pair of names has this key too. */
  ghost predicate SharesKey(server: Bytes, tool: Bytes, digest: Bytes) {
    exists s, t, d :: KeyAlso(server, tool, digest, s, t, d)
  }

  /** A server and tool share a key with another pair of names exactly if one of the two holds a NUL. */
  lemma KeyIsSharedIffNul(server: Bytes, tool: Bytes, digest: Bytes)
    requires |digest| == DIGEST_LEN
    ensures SharesKey(server, tool, digest) <==> 0 in server || 0 in tool
  {
    SharedIffHeld(0, server, tool);
    if SharesKey(server, tool, digest) {
      var s, t, d :| KeyAlso(server, tool, digest, s, t, d);
      KeyShape(server, tool, digest, s, t, d);
      assert JoinsAlso(0, server, tool, s, t);
    }
    if Shared(0, server, tool) {
      var s, t :| JoinsAlso(0, server, tool, s, t);
      KeyShape(server, tool, digest, s, t, digest);
      assert KeyAlso(server, tool, digest, s, t, digest);
    }
  }

  /** So names without NUL have keys of their own. */
  lemma KeysAreDistinct(server1: Bytes, tool1: Bytes, digest1: Bytes, server2: Bytes, tool2: Bytes, digest2: Bytes)
    requires 0 !in server1 && 0 !in tool1 && |digest1| == |digest2| == DIGEST_LEN
    requires ResultKey(server1, tool1, digest1) == ResultKey(server2, tool2, digest2)
    ensures server1 == server2 && tool1 == tool2 && digest1 == digest2
  {
    KeyIsSharedIffNul(server1, tool1, digest1);
    KeyShape(server1, tool1, digest1, server2, tool2, digest2);
    assert server1 == server2 && tool1 == tool2 by {
      assert !KeyAlso(server1, tool1, digest1, server2, tool2, digest2);
    }
  }

  ghost predicate EnablesAlso(server: Bytes, tool: Bytes, s: Bytes, t: Bytes) {
    (s != server || t != tool) && ToolKey(s, t) == ToolKey(server, tool)
  }

  /** A TTL for a tool holds for a tool of another name or server too, exactly if there is a slash in the name of the
      server or of the tool. */
  lemma TtlIsSharedIffSlash(server: Bytes, tool: Bytes)
    ensures (exists s, t :: EnablesAlso(server, tool, s, t)) <==> 0x2F in server || 0x2F in tool
  {
    SharedIffHeld(0x2F, server, tool);
    if s, t :| JoinsAlso(0x2F, server, tool, s, t) {
      assert EnablesAlso(server, tool, s, t);
    }
    if s, t :| EnablesAlso(server, tool, s, t) {
      assert JoinsAlso(0x2F, server, tool, s, t);
    }
  }

  // ---- the cache ----

  datatype Entry = Entry(result: Bytes, expires: int)

  type Entries = map<Bytes, Entry>

  /** The handler's fields: per-tool TTLs, keyed by server/tool, whether the cache has been created, and its entries. */
  datatype Cache = Cache(ttls: map<Bytes, int>, ready: bool, entries: Entries)

  const EMPTY := Cache(map[], false, map[])

  predicate Expired(e: Entry, now: int) { now > e.expires }

  function ExpiredKeys(m: Entries, now: int): set<Bytes> { set k | k in m && Expired(m[k], now) }

  /** No entry of m expires before k's. */
  ghost predicate Soonest(m: Entries, k: Bytes) {
    k in m && forall j :: j in m ==> m[k].expires <= m[j].expires
  }

  /** evictLocked, for any order the map is iterated in. */
  ghost predicate Evicts(m: Entries, now: int, after: Entries) {
    if ExpiredKeys(m, now) != {} then after == m - ExpiredKeys(m, now)
    else if m == map[] then after == m
    else exists k :: Soonest(m, k) && after == m - {k}
  }

  datatype Event =
    | SetTtl(toolKey: Bytes, ttl: int)
    // envelope: None when the result does not parse, else its isError
    | Store(key: Bytes, toolKey: Bytes, result: Bytes, envelope: Option<bool>, evictAt: int, now: int)
    | Lookup(key: Bytes, toolKey: Bytes, now: int)

  predicate Stores(ttls: map<Bytes, int>, ready: bool, e: Event)
    requires e.Store?
  {
    e.toolKey in ttls && ready && e.result != [] && e.envelope == Some(false)
  }

  /** The entries before the insertion: with room made for it, if the cache was full. */
  ghost predicate MakesRoom(m: Entries, evictAt: int, mid: Entries) {
    if |m| >= MAX_RESULT_CACHE_ENTRIES then Evicts(m, evictAt, mid) else mid == m
  }

  ghost predicate Inserts(m: Entries, key: Bytes, e: Entry, evictAt: int, after: Entries) {
    exists mid: Entries :: MakesRoom(m, evictAt, mid) && after == mid[key := e]
  }

  /** What one call may do to the cache. */
  ghost predicate Next(c: Cache, e: Event, after: Cache) {
    match e
    case SetTtl(toolKey, ttl) =>
      after == if ttl <= 0 then c.(ttls := c.ttls - {toolKey}) else c.(ttls := c.ttls[toolKey := ttl], ready := true)
    case Store(key, toolKey, result, _, evictAt, now) =>
      if !Stores(c.ttls, c.ready, e) then after == c
      else
        && after == c.(entries := after.entries)
        && Inserts(c.entries, key, Entry(result, now + c.ttls[toolKey]), evictAt, after.entries)
    case Lookup(key, toolKey, now) =>
      after == if toolKey in c.ttls && c.ready && key in c.entries && Expired(c.entries[key], now)
               then c.(entries := c.entries - {key}) else c
  }

  function Found(c: Cache, key: Bytes, toolKey: Bytes, now: int): Option<Bytes> {
    if toolKey in c.ttls && c.ready && key in c.entries && !Expired(c.entries[key], now)
    then Some(c.entries[key].result) else None
  }

  class Handler {
    var ttls: map<Bytes, int>
    var ready: bool
    var entries: Entries

    function Value(): Cache
      reads this
    {
      Cache(ttls, ready, entries)
    }

    /** evictLocked takes the empty key for "none yet", and no entry has it. */
    ghost predicate Valid()
      reads this
    {
      [] !in entries
    }

    constructor ()
      ensures Valid() && Value() == EMPTY
    {
      ttls, ready, entries := map[], false, map[];
    }

    method SetToolCacheTTL(server: Bytes, tool: Bytes, ttl: int)
      requires Valid()
      modifies this
      ensures Valid() && Next(old(Value()), SetTtl(ToolKey(server, tool), ttl), Value())
    {
      var toolKey := ToolKey(server, tool);
      if ttl <= 0 {
        ttls := ttls - {toolKey};
        return;
      }
      ttls := ttls[toolKey := ttl];
      ready := true; // the cache is created, empty, the first time
    }

    method CachedToolResult(server: Bytes, tool: Bytes, digest: Bytes, now: int) returns (hit: Option<Bytes>)
      requires Valid()
      modifies this
      ensures Valid()
      ensures Next(old(Value()), Lookup(ResultKey(server, tool, digest), ToolKey(server, tool), now), Value())
      ensures hit == Found(old(Value()), ResultKey(server, tool, digest), ToolKey(server, tool), now)
    {
      if ToolKey(server, tool) !in ttls || !ready {
        return None;
      }
      var key := ResultKey(server, tool, digest);
      if key !in entries {
        return None;
      }
      if now > entries[key].expires {
        entries := entries - {key};
        return None;
      }
      return Some(entries[key].result);
    }

    /** evictLocked: one pass in any order, deleting what has expired and remembering the soonest to expire
        of the rest. */
    method EvictLocked(now: int)
      requires Valid()
      modifies this
      ensures Valid()
      ensures ttls == old(ttls) && ready == old(ready)
      ensures Evicts(old(entries), now, entries)
    {
      var oldestKey: Bytes, oldestExp := [], 0;
      var dropped := false;
      ghost var m := entries;
      ghost var seen: set<Bytes> := {};
      var todo := entries.Keys;
      while todo != {}
        invariant ttls == old(ttls) && ready == old(ready)
        invariant m.Keys == seen + todo && seen !! todo
        invariant entries == m - (ExpiredKeys(m, now) * seen)
        invariant dropped <==> ExpiredKeys(m, now) * seen != {}
        invariant oldestKey == [] ==> seen <= ExpiredKeys(m, now)
        invariant oldestKey != [] ==>
                    && oldestKey in seen && !Expired(m[oldestKey], now) && oldestExp == m[oldestKey].expires
                    && forall j :: j in seen && !Expired(m[j], now) ==> oldestExp <= m[j].expires
        decreases todo
      {
        var k :| k in todo;
        todo := todo - {k};
        seen := seen + {k};
        assert k in entries && entries[k] == m[k];
        var e := entries[k];
        if now > e.expires {
          assert k in ExpiredKeys(m, now) * seen;
          entries := entries - {k};
          dropped := true;
        } else if oldestKey == [] || e.expires < oldestExp {
          oldestKey, oldestExp := k, e.expires;
        }
      }
      assert ExpiredKeys(m, now) * seen == ExpiredKeys(m, now);
      if !dropped && oldestKey != [] {
        assert Soonest(m, oldestKey);
        assert entries == m;
        entries := entries - {oldestKey};
      } else if !dropped {
        assert m.Keys == {};
        assert m == map[];
      }
    }

    method StoreToolResult(server: Bytes, tool: Bytes, digest: Bytes, result: Bytes, envelope: Option<bool>,
                           evictAt: int, now: int)
      requires Valid()
      modifies this
      ensures Valid()
      ensures Next(old(Value()),
                   Store(ResultKey(server, tool, digest), ToolKey(server, tool), result, envelope, evictAt, now),
                   Value())
    {
      var toolKey := ToolKey(server, tool);
      if toolKey !in ttls || !ready || |result| == 0 {
        return;
      }
      if envelope != Some(false) {
        return;
      }
      ghost var before := entries;
      if |entries| >= MAX_RESULT_CACHE_ENTRIES {
        EvictLocked(evictAt);
      }
      assert MakesRoom(before, evictAt, entries);
      var key := ResultKey(server, tool, digest);
      assert |key| > 0;
      entries := entries[key := Entry(result, now + ttls[toolKey])];
    }
  }

  // ---- eviction ----

  lemma RemoveSome<K, V>(m: map<K, V>, gone: set<K>)
    requires gone * m.Keys != {}
    ensures |m - gone| < |m|
  {
    assert (m - gone).Keys == m.Keys - gone;
    assert |m.Keys - gone| + |m.Keys * gone| == |m.Keys| by {
      assert (m.Keys - gone) + (m.Keys * gone) == m.Keys;
    }
  }

  /** Eviction keeps what it keeps as it was, frees at least one entry of a cache that has any, and drops a
      live entry only when none has expired, and then the single one, soonest to expire. */
  lemma EvictionIsFair(m: Entries, now: int, after: Entries)
    requires Evicts(m, now, after)
    ensures forall k :: k in after ==> k in m && after[k] == m[k]
    ensures m != map[] ==> |after| < |m|
    ensures forall k :: k in m && k !in after && !Expired(m[k], now) ==>
                          && ExpiredKeys(m, now) == {} && Soonest(m, k) && after == m - {k}
    ensures forall k :: k in after ==> now <= after[k].expires
  {
    assert forall k :: k in m && k !in ExpiredKeys(m, now) ==> now <= m[k].expires;
    if ExpiredKeys(m, now) != {} {
      assert ExpiredKeys(m, now) * m.Keys == ExpiredKeys(m, now);
      RemoveSome(m, ExpiredKeys(m, now));
    } else if m != map[] {
      var k :| Soonest(m, k) && after == m - {k};
      assert k in {k} * m.Keys;
      RemoveSome(m, {k});
    }
  }

  // ---- runs ----

  /** A run of the cache: its calls, and the states between them. */
  ghost predicate IsRun(h: seq<Event>, states: seq<Cache>) {
    && |states| == |h| + 1 && states[0] == EMPTY
    && forall i :: 0 <= i < |h| ==> Next(states[i], h[i], states[i + 1])
  }

  function Ttls(h: seq<Event>): map<Bytes, int> {
    if h == [] then map[]
    else
      var e, before := h[|h| - 1], Ttls(h[..|h| - 1]);
      if !e.SetTtl? then before else if e.ttl <= 0 then before - {e.toolKey} else before[e.toolKey := e.ttl]
  }

  predicate Ready(h: seq<Event>) { exists i :: 0 <= i < |h| && h[i].SetTtl? && h[i].ttl > 0 }

  /** The result most recently stored under a key, were nothing ever to leave the cache. */
  function LastStored(h: seq<Event>, key: Bytes): Option<Entry> {
    if h == [] then None
    else
      var e, before := h[|h| - 1], h[..|h| - 1];
      if e.Store? && e.key == key && Stores(Ttls(before), Ready(before), e)
      then Some(Entry(e.result, e.now + Ttls(before)[e.toolKey]))
      else LastStored(before, key)
  }

  /** The cache holds nothing but what was last stored, and at most 256 entries. */
  ghost predicate Agrees(c: Cache, h: seq<Event>) {
    && c.ttls == Ttls(h) && c.ready == Ready(h)
    && |c.entries| <= MAX_RESULT_CACHE_ENTRIES
    && forall k :: k in c.entries ==> LastStored(h, k) == Some(c.entries[k])
  }

  lemma HistoryStep(h: seq<Event>, e: Event)
    ensures Ttls(h + [e]) == if !e.SetTtl? then Ttls(h)
                             else if e.ttl <= 0 then Ttls(h) - {e.toolKey} else Ttls(h)[e.toolKey := e.ttl]
    ensures Ready(h + [e]) == (Ready(h) || (e.SetTtl? && e.ttl > 0))
    ensures forall key :: LastStored(h + [e], key) ==
                            if e.Store? && e.key == key && Stores(Ttls(h), Ready(h), e)
                            then Some(Entry(e.result, e.now + Ttls(h)[e.toolKey])) else LastStored(h, key)
  {
    assert (h + [e])[..|h|] == h && (h + [e])[|h|] == e;
    if Ready(h) {
      var i :| 0 <= i < |h| && h[i].SetTtl? && h[i].ttl > 0;
      assert (h + [e])[i] == h[i];
    }
    if Ready(h + [e]) {
      var i :| 0 <= i < |h + [e]| && (h + [e])[i].SetTtl? && (h + [e])[i].ttl > 0;
      assert i < |h| ==> h[i] == (h + [e])[i];
    }
  }

  lemma InsertSize<K, V>(m: map<K, V>, k: K, v: V)
    ensures |m[k := v]| <= |m| + 1
  {
    assert m[k := v].Keys == m.Keys + {k};
  }

  lemma SetTtlAgrees(c: Cache, h: seq<Event>, e: Event, after: Cache)
    requires e.SetTtl? && Agrees(c, h) && Next(c, e, after)
    ensures Agrees(after, h + [e])
  {
    hide Ttls, Ready, LastStored, Evicts;
    HistoryStep(h, e);
  }

  lemma SubsetSize<T>(a: set<T>, b: set<T>)
    requires a <= b
    ensures |a| <= |b|
  {
    assert a + (b - a) == b;
  }

  lemma LookupAgrees(c: Cache, h: seq<Event>, e: Event, after: Cache)
    requires e.Lookup? && Agrees(c, h) && Next(c, e, after)
    ensures Agrees(after, h + [e])
  {
    hide Ttls, Ready, LastStored, Evicts;
    HistoryStep(h, e);
    assert (c.entries - {e.key}).Keys <= c.entries.Keys;
    SubsetSize((c.entries - {e.key}).Keys, c.entries.Keys);
  }

  /** An insertion adds its entry, keeps others only as they were, and stays within the limit. */
  lemma InsertFits(m: Entries, key: Bytes, e: Entry, evictAt: int, after: Entries)
    requires |m| <= MAX_RESULT_CACHE_ENTRIES && Inserts(m, key, e, evictAt, after)
    ensures |after| <= MAX_RESULT_CACHE_ENTRIES
    ensures key in after && after[key] == e
    ensures forall k :: k in after && k != key ==> k in m && after[k] == m[k]
  {
    var mid: Entries :| MakesRoom(m, evictAt, mid) && after == mid[key := e];
    if |m| >= MAX_RESULT_CACHE_ENTRIES {
      EvictionIsFair(m, evictAt, mid);
    }
    InsertSize(mid, key, e);
  }

  lemma StoreAgrees(c: Cache, h: seq<Event>, e: Event, after: Cache)
    requires e.Store? && Agrees(c, h) && Next(c, e, after)
    ensures Agrees(after, h + [e])
  {
    hide Ttls, Ready, LastStored, Evicts, Inserts;
    HistoryStep(h, e);
    if Stores(c.ttls, c.ready, e) {
      InsertFits(c.entries, e.key, Entry(e.result, e.now + c.ttls[e.toolKey]), e.evictAt, after.entries);
    }
  }

  lemma StepAgrees(c: Cache, h: seq<Event>, e: Event, after: Cache)
    requires Agrees(c, h) && Next(c, e, after)
    ensures Agrees(after, h + [e])
  {
    hide Agrees, Next;
    match e
    case SetTtl(_, _) => SetTtlAgrees(c, h, e, after);
    case Lookup(_, _, _) => LookupAgrees(c, h, e, after);
    case Store(_, _, _, _, _, _) => StoreAgrees(c, h, e, after);
  }

  lemma {:induction false} RunAgrees(h: seq<Event>, states: seq<Cache>)
    requires IsRun(h, states)
    ensures Agrees(states[|h|], h)
    decreases |h|
  {
    if h != [] {
      var n := |h| - 1;
      RunAgrees(h[..n], states[..n + 1]);
      StepAgrees(states[n], h[..n], h[n], states[n + 1]);
      assert h[..n] + [h[n]] == h;
    }
  }

  /** After any run, a hit is the result most recently stored for that key, not past its expiry, for a tool
      whose caching is enabled; and the cache never holds more than 256 entries. */
  lemma HitIsLastStored(h: seq<Event>, states: seq<Cache>, key: Bytes, toolKey: Bytes, now: int)
    requires IsRun(h, states)
    ensures |states[|h|].entries| <= MAX_RESULT_CACHE_ENTRIES
    ensures var hit := Found(states[|h|], key, toolKey, now);
            hit.Some? ==>
              && LastStored(h, key).Some? && LastStored(h, key).value.result == hit.value
              && now <= LastStored(h, key).value.expires && toolKey in Ttls(h)
  {
    RunAgrees(h, states);
  }

  /** A live entry leaves the cache only to make room for another: the cache was full, nothing in it had
      expired, and no entry was to expire sooner. */
  lemma LiveEntryLeavesForRoom(c: Cache, e: Event, after: Cache, k: Bytes)
    requires Next(c, e, after) && k in c.entries && k !in after.entries
    requires e.Lookup? ==> !Expired(c.entries[k], e.now)
    requires e.Store? ==> !Expired(c.entries[k], e.evictAt)
    ensures e.Store? && |c.entries| >= MAX_RESULT_CACHE_ENTRIES && k != e.key
    ensures ExpiredKeys(c.entries, e.evictAt) == {} && Soonest(c.entries, k)
  {
    if e.Store? && Stores(c.ttls, c.ready, e) {
      var entry := Entry(e.result, e.now + c.ttls[e.toolKey]);
      var mid: Entries :| MakesRoom(c.entries, e.evictAt, mid) && after.entries == mid[e.key := entry];
      if |c.entries| >= MAX_RESULT_CACHE_ENTRIES {
        EvictionIsFair(c.entries, e.evictAt, mid);
      }
    }
  }

  // ---- nothing is lost without need ----

  ghost predicate RoomyStep(c: Cache, e: Event, t: int) {
    match e
    case SetTtl(_, _) => true
    case Store(_, _, _, _, _, _) => |c.entries| < MAX_RESULT_CACHE_ENTRIES
    case Lookup(_, _, now) => now <= t
  }

  /** No store of the run met a full cache, and no lookup was made later than t. */
  ghost predicate Roomy(h: seq<Event>, states: seq<Cache>, t: int) {
    |h| < |states| && forall i :: 0 <= i < |h| ==> RoomyStep(states[i], h[i], t)
  }

  /** What was last stored under a key is still there at time t, unless it has expired. */
  ghost predicate Retains(c: Cache, h: seq<Event>, t: int) {
    forall k :: LastStored(h, k).Some? && !Expired(LastStored(h, k).value, t) ==> k in c.entries
  }

  lemma StepRetains(c: Cache, h: seq<Event>, e: Event, after: Cache, t: int)
    requires Agrees(c, h) && Retains(c, h, t) && RoomyStep(c, e, t) && Next(c, e, after)
    ensures Retains(after, h + [e], t)
  {
    hide Ttls, Ready, LastStored, Evicts;
    HistoryStep(h, e);
    if e.Store? && Stores(c.ttls, c.ready, e) {
      var entry := Entry(e.result, e.now + c.ttls[e.toolKey]);
      assert after.entries == c.entries[e.key := entry];
    }
  }

  lemma {:induction false} RunRetains(h: seq<Event>, states: seq<Cache>, t: int)
    requires IsRun(h, states) && Roomy(h, states, t)
    ensures Retains(states[|h|], h, t)
    decreases |h|
  {
    if h != [] {
      var n := |h| - 1;
      RunAgrees(h[..n], states[..n + 1]);
      RunRetains(h[..n], states[..n + 1], t);
      assert RoomyStep(states[n], h[n], t);
      hide Agrees, Retains, Next, RoomyStep;
      StepRetains(states[n], h[..n], h[n], states[n + 1], t);
      assert h[..n] + [h[n]] == h;
    }
  }

  lemma {:induction false} TtlMeansReady(h: seq<Event>, toolKey: Bytes)
    requires toolKey in Ttls(h)
    ensures Ready(h)
    decreases |h|
  {
    var n := |h| - 1;
    if !(h[n].SetTtl? && h[n].ttl > 0) {
      TtlMeansReady(h[..n], toolKey);
      var i :| 0 <= i < n && h[..n][i].SetTtl? && h[..n][i].ttl > 0;
      assert h[i].SetTtl? && h[i].ttl > 0;
    }
  }

  /** In a run that never filled the cache, a lookup that is the latest so far, for a tool whose caching is
      enabled, hits exactly if something was stored under the key and the last of it has not expired; and the hit
      is that result. */
  lemma HitsWhatWasStored(h: seq<Event>, states: seq<Cache>, key: Bytes, toolKey: Bytes, now: int)
    requires IsRun(h, states) && Roomy(h, states, now) && toolKey in Ttls(h)
    ensures Found(states[|h|], key, toolKey, now) ==
            if LastStored(h, key).Some? && !Expired(LastStored(h, key).value, now)
            then Some(LastStored(h, key).value.result) else None
  {
    RunAgrees(h, states);
    RunRetains(h, states, now);
    TtlMeansReady(h, toolKey);
  }

  // ---- what is stored ----

  /** The TTL that a tool was last given, or 0. */
  function LastTtl(h: seq<Event>, toolKey: Bytes): int {
    if h == [] then 0
    else
      var e := h[|h| - 1];
      if e.SetTtl? && e.toolKey == toolKey then e.ttl else LastTtl(h[..|h| - 1], toolKey)
  }

  /** The last result handed in under a key that was worth keeping: of a tool with a TTL, not empty, and an envelope
      that parsed and reported no error. */
  function LastWanted(h: seq<Event>, key: Bytes): Option<Entry> {
    if h == [] then None
    else
      var before, e := h[..|h| - 1], h[|h| - 1];
      if e.Store? && e.key == key && LastTtl(before, e.toolKey) > 0 && e.result != [] && e.envelope == Some(false)
      then Some(Entry(e.result, e.now + LastTtl(before, e.toolKey)))
      else LastWanted(before, key)
  }

  lemma {:induction false} TtlsAreLast(h: seq<Event>, toolKey: Bytes)
    ensures toolKey in Ttls(h) <==> LastTtl(h, toolKey) > 0
    ensures toolKey in Ttls(h) ==> Ttls(h)[toolKey] == LastTtl(h, toolKey)
    decreases |h|
  {
    if h != [] {
      TtlsAreLast(h[..|h| - 1], toolKey);
    }
  }

  /** What counts as stored is exactly what was worth keeping: an error, an empty result or one that does not parse
      never replaces anything, and a tool without a TTL stores nothing. */
  lemma {:induction false} StoredIfWanted(h: seq<Event>, key: Bytes)
    ensures LastStored(h, key) == LastWanted(h, key)
    decreases |h|
  {
    if h != [] {
      var before, e := h[..|h| - 1], h[|h| - 1];
      StoredIfWanted(before, key);
      if e.Store? {
        TtlsAreLast(before, e.toolKey);
        if e.toolKey in Ttls(before) {
          TtlMeansReady(before, e.toolKey);
        }
      }
    }
  }

  /** After any run that never filled the cache, the latest lookup answers with the last result worth keeping, if it has
      not expired, for a tool that has a TTL, and with nothing otherwise. */
  lemma LookupAnswers(h: seq<Event>, states: seq<Cache>, key: Bytes, toolKey: Bytes, now: int)
    requires IsRun(h, states) && Roomy(h, states, now)
    ensures var last := LastWanted(h, key);
            Found(states[|h|], key, toolKey, now) ==
            if LastTtl(h, toolKey) > 0 && last.Some? && now <= last.value.expires then Some(last.value.result) else None
  {
    hide LastStored, LastWanted, LastTtl, Ttls, Ready;
    TtlsAreLast(h, toolKey);
    StoredIfWanted(h, key);
    RunAgrees(h, states);
    if toolKey in Ttls(h) {
      HitsWhatWasStored(h, states, key, toolKey, now);
    }
  }

  /** A lookup of a tool that has a TTL leaves nothing expired under its key. */
  lemma LookupDropsExpired(h: seq<Event>, states: seq<Cache>, e: Event, after: Cache)
    requires IsRun(h, states) && e.Lookup? && Next(states[|h|], e, after) && LastTtl(h, e.toolKey) > 0
    ensures e.key in after.entries ==> e.now <= after.entries[e.key].expires
    ensures forall k :: k in states[|h|].entries && k != e.key ==> k in after.entries
  {
    TtlsAreLast(h, e.toolKey);
    RunAgrees(h, states);
    TtlMeansReady(h, e.toolKey);
  }
}
