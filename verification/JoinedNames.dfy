/**
 Two names joined into one key with a separator between, as the keys of both caches are. Two pairs of names can
 join to the same key, exactly where a name holds the separator.
 */
module JoinedNames {
  import opened Utf8

  function Join(sep: Byte, a: Bytes, b: Bytes): Bytes { a + [sep] + b }

  ghost predicate JoinsAlso(sep: Byte, a: Bytes, b: Bytes, s: Bytes, t: Bytes) {
    (s != a || t != b) && Join(sep, s, t) == Join(sep, a, b)
  }

  /** Some other pair of names gives the same key. */
  ghost predicate Shared(sep: Byte, a: Bytes, b: Bytes) { exists s, t :: JoinsAlso(sep, a, b, s, t) }

  lemma JoinParts(sep: Byte, a: Bytes, b: Bytes)
    ensures Join(sep, a, b)[..|a|] == a && Join(sep, a, b)[|a|] == sep && Join(sep, a, b)[|a| + 1..] == b
  {
  }

  lemma SeparatorIsHeld(sep: Byte, a: Bytes, b: Bytes, s: Bytes, t: Bytes)
    requires JoinsAlso(sep, a, b, s, t)
    ensures sep in a || sep in b
  {
    JoinParts(sep, a, b);
    JoinParts(sep, s, t);
    if |s| < |a| {
      assert a[|s|] == Join(sep, a, b)[|s|];
    } else if |s| > |a| {
      assert b[|s| - |a| - 1] == Join(sep, a, b)[|s|];
    }
  }

  lemma OtherReading(sep: Byte, a: Bytes, b: Bytes) returns (s: Bytes, t: Bytes)
    requires sep in a || sep in b
    ensures JoinsAlso(sep, a, b, s, t)
  {
    if sep in a {
      var i :| 0 <= i < |a| && a[i] == sep;
      s, t := a[..i], a[i + 1..] + [sep] + b;
      assert a == s + [sep] + a[i + 1..];
      assert |s| < |a|;
    } else {
      var i :| 0 <= i < |b| && b[i] == sep;
      s, t := a + [sep] + b[..i], b[i + 1..];
      assert b == b[..i] + [sep] + t;
      assert |t| < |b|;
    }
  }

  lemma SharedIffHeld(sep: Byte, a: Bytes, b: Bytes)
    ensures Shared(sep, a, b) <==> sep in a || sep in b
  {
    if Shared(sep, a, b) {
      var s, t :| JoinsAlso(sep, a, b, s, t);
      SeparatorIsHeld(sep, a, b, s, t);
    }
    if sep in a || sep in b {
      var s, t := OtherReading(sep, a, b);
    }
  }
}
