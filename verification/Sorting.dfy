/**
 Stable insertion sort on values. It stands for Go's sort.Slice and sort.SliceStable,
 whose own code is not modelled: callers rely only on what is proved here.
 */
module Sorting {
  /** What a Go `less` comparator must give: "not (b less than a)" is total and transitive. */
  ghost predicate TotalPreorder<T(!new)>(le: (T, T) -> bool) {
    && (forall x, y :: le(x, y) || le(y, x))
    && (forall x, y, z :: le(x, y) && le(y, z) ==> le(x, z))
  }

  ghost predicate Sorted<T>(le: (T, T) -> bool, s: seq<T>) {
    forall i, j :: 0 <= i < j < |s| ==> le(s[i], s[j])
  }

  function Insert<T>(le: (T, T) -> bool, x: T, s: seq<T>): seq<T> {
    if s == [] then [x]
    else if le(x, s[0]) then [x] + s
    else [s[0]] + Insert(le, x, s[1..])
  }

  function Sort<T>(le: (T, T) -> bool, s: seq<T>): seq<T> {
    if s == [] then [] else Insert(le, s[0], Sort(le, s[1..]))
  }

  lemma {:induction false} InsertPermutes<T>(le: (T, T) -> bool, x: T, s: seq<T>)
    ensures multiset(Insert(le, x, s)) == multiset{x} + multiset(s)
  {
    if s != [] && !le(x, s[0]) {
      InsertPermutes(le, x, s[1..]);
      assert s == [s[0]] + s[1..];
    }
  }

  lemma {:induction false} SortPermutes<T>(le: (T, T) -> bool, s: seq<T>)
    ensures multiset(Sort(le, s)) == multiset(s)
  {
    if s != [] {
      SortPermutes(le, s[1..]);
      InsertPermutes(le, s[0], Sort(le, s[1..]));
      assert s == [s[0]] + s[1..];
    }
  }

  lemma SortMembers<T>(le: (T, T) -> bool, s: seq<T>)
    ensures |Sort(le, s)| == |s|
    ensures forall x :: x in Sort(le, s) <==> x in s
  {
    SortPermutes(le, s);
    assert |multiset(Sort(le, s))| == |multiset(s)|;
    forall x ensures x in Sort(le, s) <==> x in s {
      assert x in multiset(Sort(le, s)) <==> x in Sort(le, s);
      assert x in multiset(s) <==> x in s;
    }
  }

  lemma {:induction false} InsertSorts<T(!new)>(le: (T, T) -> bool, x: T, s: seq<T>)
    requires TotalPreorder(le) && Sorted(le, s)
    ensures Sorted(le, Insert(le, x, s))
  {
    if s != [] && !le(x, s[0]) {
      var t := Insert(le, x, s[1..]);
      InsertSorts(le, x, s[1..]);
      InsertPermutes(le, x, s[1..]);
      forall i | 0 <= i < |t| ensures le(s[0], t[i]) {
        assert t[i] in multiset(t);
        assert t[i] == x || t[i] in s[1..];
      }
    }
  }

  lemma {:induction false} SortSorts<T(!new)>(le: (T, T) -> bool, s: seq<T>)
    requires TotalPreorder(le)
    ensures Sorted(le, Sort(le, s))
  {
    if s != [] {
      SortSorts(le, s[1..]);
      InsertSorts(le, s[0], Sort(le, s[1..]));
    }
  }

  predicate Distinct<T(==)>(s: seq<T>) {
    forall i, j :: 0 <= i < j < |s| ==> s[i] != s[j]
  }

  lemma InsertMembers<T>(le: (T, T) -> bool, x: T, s: seq<T>, y: T)
    requires y in Insert(le, x, s)
    ensures y == x || y in s
  {
    InsertPermutes(le, x, s);
    assert y in multiset(Insert(le, x, s));
  }

  lemma {:induction false} InsertDistinct<T>(le: (T, T) -> bool, x: T, s: seq<T>)
    requires Distinct(s) && x !in s
    ensures Distinct(Insert(le, x, s))
  {
    if s != [] && !le(x, s[0]) {
      var t := Insert(le, x, s[1..]);
      InsertDistinct(le, x, s[1..]);
      forall i | 0 <= i < |t| ensures t[i] != s[0] {
        InsertMembers(le, x, s[1..], t[i]);
      }
    }
  }

  lemma {:induction false} SortDistinct<T>(le: (T, T) -> bool, s: seq<T>)
    requires Distinct(s)
    ensures Distinct(Sort(le, s))
  {
    if s != [] {
      SortDistinct(le, s[1..]);
      SortMembers(le, s[1..]);
      InsertDistinct(le, s[0], Sort(le, s[1..]));
    }
  }

  lemma HeadIsLeast<T(!new)>(le: (T, T) -> bool, s: seq<T>, x: T)
    requires TotalPreorder(le) && Sorted(le, s) && x in s
    ensures le(s[0], x)
  {
    var i :| 0 <= i < |s| && s[i] == x;
    assert le(s[0], s[0]);
  }

  lemma TailMultiset<T>(s: seq<T>)
    requires s != []
    ensures multiset(s[1..]) == multiset(s) - multiset{s[0]}
  {
    assert s == [s[0]] + s[1..];
  }

  lemma Extract<T>(s: seq<T>, j: nat)
    requires j < |s|
    ensures multiset(s[..j] + s[j + 1..]) == multiset(s) - multiset{s[j]}
  {
    assert s == s[..j] + ([s[j]] + s[j + 1..]);
  }

  /** Of two sequences of the same elements, the second without the head of the first has those of its tail. */
  lemma MatchHead<T>(s: seq<T>, t: seq<T>) returns (j: nat)
    requires s != [] && multiset(s) == multiset(t)
    ensures j < |t| && t[j] == s[0] && multiset(s[1..]) == multiset(t[..j] + t[j + 1..])
  {
    assert s[0] in multiset(t);
    j :| 0 <= j < |t| && t[j] == s[0];
    assert s[..0] + s[1..] == s[1..];
    Extract(s, 0);
    Extract(t, j);
  }

  lemma SortedTail<T>(le: (T, T) -> bool, s: seq<T>)
    requires Sorted(le, s) && s != []
    ensures Sorted(le, s[1..])
    ensures forall x :: x in s[1..] ==> x in s
  {
  }

  /** The comparator tells the elements of s apart. */
  ghost predicate Separates<T(!new)>(le: (T, T) -> bool, s: seq<T>) {
    forall x, y :: x in s && y in s && le(x, y) && le(y, x) ==> x == y
  }

  lemma SameHead<T(!new)>(le: (T, T) -> bool, s: seq<T>, t: seq<T>)
    requires TotalPreorder(le) && Sorted(le, s) && Sorted(le, t) && Separates(le, s)
    requires multiset(s) == multiset(t) && s != [] && t != []
    ensures s[0] == t[0] && multiset(s[1..]) == multiset(t[1..])
  {
    hide TotalPreorder, Sorted;
    assert s[0] in multiset(t) && t[0] in multiset(s);
    HeadIsLeast(le, s, t[0]);
    HeadIsLeast(le, t, s[0]);
    TailMultiset(s);
    TailMultiset(t);
  }

  lemma SeparatesTail<T(!new)>(le: (T, T) -> bool, s: seq<T>)
    requires Separates(le, s) && s != []
    ensures Separates(le, s[1..])
  {
  }

  lemma SameLength<T>(s: seq<T>, t: seq<T>)
    requires multiset(s) == multiset(t)
    ensures |s| == |t|
  {
    assert |multiset(s)| == |s| && |multiset(t)| == |t|;
  }

  /** Under such a comparator a sorted permutation is unique. */
  lemma {:induction false} SortedIsUnique<T(!new)>(le: (T, T) -> bool, s: seq<T>, t: seq<T>)
    requires TotalPreorder(le) && Sorted(le, s) && Sorted(le, t) && Separates(le, s)
    requires multiset(s) == multiset(t)
    ensures s == t
  {
    hide TotalPreorder, Sorted, Separates;
    SameLength(s, t);
    if s != [] {
      SameHead(le, s, t);
      SortedTail(le, s);
      SortedTail(le, t);
      SeparatesTail(le, s);
      SortedIsUnique(le, s[1..], t[1..]);
      assert s == [s[0]] + s[1..] && t == [t[0]] + t[1..];
    }
  }

  /** The elements of s that satisfy keep, in order. */
  function Filter<T>(keep: T -> bool, s: seq<T>): seq<T> {
    if s == [] then []
    else (if keep(s[0]) then [s[0]] else []) + Filter(keep, s[1..])
  }

  lemma {:induction false} FilterMembers<T>(keep: T -> bool, s: seq<T>)
    ensures forall x :: x in Filter(keep, s) <==> x in s && keep(x)
    ensures |Filter(keep, s)| <= |s|
  {
    if s != [] {
      FilterMembers(keep, s[1..]);
      assert s == [s[0]] + s[1..];
    }
  }

  lemma Reassociate<T>(a: seq<T>, b: seq<T>, c: seq<T>)
    ensures a + b + c == a + (b + c)
  {
  }

  lemma FilterCons<T>(keep: T -> bool, x: T, s: seq<T>)
    ensures Filter(keep, [x] + s) == (if keep(x) then [x] else []) + Filter(keep, s)
  {
    assert ([x] + s)[0] == x && ([x] + s)[1..] == s;
  }

  lemma {:induction false} InsertStable<T>(le: (T, T) -> bool, tie: T -> bool, x: T, s: seq<T>)
    requires forall a, b :: tie(a) && tie(b) ==> le(a, b)
    ensures Filter(tie, Insert(le, x, s)) == Filter(tie, [x] + s)
  {
    hide Filter;
    if s == [] {
      assert [x] + s == [x];
    } else if !le(x, s[0]) {
      var y, rest := s[0], s[1..];
      var t := Insert(le, x, rest);
      InsertStable(le, tie, x, rest);
      assert s == [y] + rest;
      FilterCons(tie, y, t);
      FilterCons(tie, x, rest);
      FilterCons(tie, x, s);
      FilterCons(tie, y, rest);
      var f := Filter(tie, rest);
      if tie(x) {
        assert [] + ([x] + f) == [x] + ([] + f);
      } else {
        assert (if tie(y) then [y] else []) + ([] + f) == [] + ((if tie(y) then [y] else []) + f);
      }
    }
  }

  /** Elements that tie keep the order they came in. */
  lemma {:induction false} SortStable<T>(le: (T, T) -> bool, tie: T -> bool, s: seq<T>)
    requires forall a, b :: tie(a) && tie(b) ==> le(a, b)
    ensures Filter(tie, Sort(le, s)) == Filter(tie, s)
  {
    if s != [] {
      SortStable(le, tie, s[1..]);
      InsertStable(le, tie, s[0], Sort(le, s[1..]));
      FilterCons(tie, s[0], Sort(le, s[1..]));
      FilterCons(tie, s[0], s[1..]);
      assert s == [s[0]] + s[1..];
    }
  }
}
