/** Query-set operations read as sequence operations: filtering that keeps
    the order, a stable sort by an ordering relation (SQL ORDER BY), string
    concatenation of a list (Python's `''.join`), and the enumeration of a
    table's primary keys. */
module Collections {
  import opened Text

  // ---------------------------------------------------------------------
  // Filtering (QuerySet.filter)
  // ---------------------------------------------------------------------

  /** The elements of `s` that satisfy `p`, in their order in `s`. */
  function Filter<T(!new)>(s: seq<T>, p: T -> bool): (r: seq<T>)
    ensures |r| <= |s|
    ensures forall x :: x in r <==> x in s && p(x)
    ensures forall i :: 0 <= i < |r| ==> p(r[i])
  {
    if s == [] then [] else (if p(s[0]) then [s[0]] else []) + Filter(s[1..], p)
  }

  lemma {:induction false} FilterMultiset<T(!new)>(s: seq<T>, p: T -> bool, x: T)
    ensures multiset(Filter(s, p))[x] == if p(x) then multiset(s)[x] else 0
  {
    if s != [] {
      FilterMultiset(s[1..], p, x);
      assert s == [s[0]] + s[1..];
    }
  }

  lemma {:induction false} FilterAppend<T(!new)>(a: seq<T>, b: seq<T>, p: T -> bool)
    ensures Filter(a + b, p) == Filter(a, p) + Filter(b, p)
  {
    if a == [] {
      assert a + b == b;
    } else {
      var head := if p(a[0]) then [a[0]] else [];
      FilterCons(a + b, p);
      assert (a + b)[0] == a[0] && (a + b)[1..] == a[1..] + b;
      FilterAppend(a[1..], b, p);
      FilterCons(a, p);
      AppendAssociative(head, Filter(a[1..], p), Filter(b, p));
    }
  }

  /** One step of `Filter`. */
  lemma FilterCons<T(!new)>(s: seq<T>, p: T -> bool)
    requires s != []
    ensures Filter(s, p) == (if p(s[0]) then [s[0]] else []) + Filter(s[1..], p)
  {
  }

  lemma AppendAssociative<T>(x: seq<T>, y: seq<T>, z: seq<T>)
    ensures x + (y + z) == (x + y) + z
  {
  }

  /** A filter whose condition holds everywhere changes nothing. */
  lemma {:induction false} FilterAll<T(!new)>(s: seq<T>, p: T -> bool)
    requires forall i :: 0 <= i < |s| ==> p(s[i])
    ensures Filter(s, p) == s
  {
    if s != [] { FilterAll(s[1..], p); }
  }

  /** A filter whose condition holds nowhere keeps nothing. */
  lemma {:induction false} FilterNone<T(!new)>(s: seq<T>, p: T -> bool)
    requires forall x :: x in s ==> !p(x)
    ensures Filter(s, p) == []
  {
    if s != [] {
      assert s[0] in s;
      FilterNone(s[1..], p);
    }
  }

  /** Filtering by `p` and then by `q` is filtering by both at once. */
  lemma {:induction false} FilterConjunction<T(!new)>(s: seq<T>, p: T -> bool, q: T -> bool, pq: T -> bool)
    requires forall x :: pq(x) == (p(x) && q(x))
    ensures Filter(Filter(s, p), q) == Filter(s, pq)
  {
    if s != [] {
      FilterConjunction(s[1..], p, q, pq);
      FilterAppend(if p(s[0]) then [s[0]] else [], Filter(s[1..], p), q);
    }
  }

  // ---------------------------------------------------------------------
  // Ordering (QuerySet.order_by)
  // ---------------------------------------------------------------------

  /** `le` is total and transitive: a legitimate ORDER BY key comparison. */
  ghost predicate TotalPreorder<T(!new)>(le: (T, T) -> bool)
  {
    && (forall a, b :: le(a, b) || le(b, a))
    && (forall a, b, c :: le(a, b) && le(b, c) ==> le(a, c))
  }

  /** Ordering by a string key in code point order, as `order_by(<field>)`. */
  function ByKey<T>(key: T -> string): (T, T) -> bool
  {
    (a: T, b: T) => LexLe(key(a), key(b))
  }

  lemma ByKeyIsTotalPreorder<T(!new)>(key: T -> string)
    ensures TotalPreorder(ByKey(key))
  {
    var le := ByKey(key);
    forall a, b ensures le(a, b) || le(b, a) {
      LexLtTrichotomy(key(a), key(b));
    }
    forall a, b, c | le(a, b) && le(b, c) ensures le(a, c) {
      if key(a) != key(b) && key(b) != key(c) {
        LexLtTransitive(key(a), key(b), key(c));
      }
    }
  }

  /** Ordering by a number first and then by a string key, as
      `order_by(<rank>, <field>)`. */
  function ByRankThenKey<T>(rank: T -> nat, key: T -> string): (T, T) -> bool
  {
    (a: T, b: T) => rank(a) < rank(b) || (rank(a) == rank(b) && LexLe(key(a), key(b)))
  }

  lemma ByRankThenKeyHolds<T>(rank: T -> nat, key: T -> string, x: T, y: T)
    requires ByRankThenKey(rank, key)(x, y)
    ensures rank(x) < rank(y) || (rank(x) == rank(y) && LexLe(key(x), key(y)))
  {
  }

  lemma ByRankThenKeyIsTotalPreorder<T(!new)>(rank: T -> nat, key: T -> string)
    ensures TotalPreorder(ByRankThenKey(rank, key))
  {
    var le := ByRankThenKey(rank, key);
    forall a, b ensures le(a, b) || le(b, a) {
      LexLtTrichotomy(key(a), key(b));
    }
    forall a, b, c | le(a, b) && le(b, c) ensures le(a, c) {
      if rank(a) == rank(b) == rank(c) && key(a) != key(b) && key(b) != key(c) {
        LexLtTransitive(key(a), key(b), key(c));
      }
    }
  }

  predicate SortedBy<T>(s: seq<T>, le: (T, T) -> bool)
  {
    forall i, j :: 0 <= i < j < |s| ==> le(s[i], s[j])
  }

  function Insert<T(!new)>(x: T, s: seq<T>, le: (T, T) -> bool): (r: seq<T>)
    requires TotalPreorder(le) && SortedBy(s, le)
    ensures SortedBy(r, le)
    ensures multiset(r) == multiset(s) + multiset{x}
    ensures |r| == |s| + 1
    decreases |s|, 0
  {
    if s == [] then [x]
    else if le(x, s[0]) then [x] + s
    else
      assert s == [s[0]] + s[1..];
      InsertLowerBound(s[0], x, s[1..], le);
      [s[0]] + Insert(x, s[1..], le)
  }

  /** A lower bound of `x` and of every element of `s` bounds every element of
      the insertion of `x` into `s`. */
  lemma InsertLowerBound<T(!new)>(h: T, x: T, s: seq<T>, le: (T, T) -> bool)
    requires TotalPreorder(le) && SortedBy(s, le)
    requires le(h, x) && forall k :: 0 <= k < |s| ==> le(h, s[k])
    ensures forall k :: 0 <= k < |s| + 1 ==> le(h, Insert(x, s, le)[k])
    decreases |s|, 1
  {
    var r := Insert(x, s, le);
    forall k | 0 <= k < |r| ensures le(h, r[k]) {
      assert r[k] in multiset(r);
      if r[k] != x {
        assert r[k] in multiset(s);
        var i :| 0 <= i < |s| && s[i] == r[k];
      }
    }
  }

  /** A stable insertion sort: the result is ordered by `le` and is a
      permutation of `s`. */
  function Sort<T(!new)>(s: seq<T>, le: (T, T) -> bool): (r: seq<T>)
    requires TotalPreorder(le)
    ensures SortedBy(r, le)
    ensures multiset(r) == multiset(s)
    ensures |r| == |s|
  {
    if s == [] then []
    else
      assert s == [s[0]] + s[1..];
      Insert(s[0], Sort(s[1..], le), le)
  }

  /** Filtering keeps the relative order of what it keeps. */
  lemma {:induction false} FilterSorted<T(!new)>(s: seq<T>, p: T -> bool, le: (T, T) -> bool)
    requires SortedBy(s, le)
    ensures SortedBy(Filter(s, p), le)
  {
    if s != [] {
      var tail := s[1..];
      assert SortedBy(tail, le) by {
        forall i, j | 0 <= i < j < |tail| ensures le(tail[i], tail[j]) { assert tail[i] == s[i + 1] && tail[j] == s[j + 1]; }
      }
      FilterSorted(tail, p, le);
      var ft := Filter(tail, p);
      forall k | 0 <= k < |ft| ensures le(s[0], ft[k]) {
        assert ft[k] in tail;
        var m :| 0 <= m < |tail| && tail[m] == ft[k];
        assert s[m + 1] == ft[k];
      }
    }
  }

  /** Two sequences ordered by `le`, with the same elements, are equal when
      `le` relates two of those elements both ways only if they are equal. */
  lemma {:induction false} SortedUnique<T(!new)>(a: seq<T>, b: seq<T>, le: (T, T) -> bool)
    requires SortedBy(a, le) && SortedBy(b, le)
    requires multiset(a) == multiset(b)
    requires forall x, y :: x in a && y in a && le(x, y) && le(y, x) ==> x == y
    ensures a == b
  {
    assert |b| == |a| by { assert |multiset(b)| == |multiset(a)|; }
    if a != [] {
      SortedHeads(a, b, le);
      TailMultiset(a, b);
      SortedTail(a, le);
      SortedTail(b, le);
      var a' := a[1..];
      assert forall x, y :: x in a' && y in a' && le(x, y) && le(y, x) ==> x == y by {
        forall x, y | x in a' && y in a' && le(x, y) && le(y, x) ensures x == y { assert x in a && y in a; }
      }
      SortedUnique(a', b[1..], le);
      assert a == [a[0]] + a' && b == [b[0]] + b[1..];
    }
  }

  lemma SortedTail<T>(s: seq<T>, le: (T, T) -> bool)
    requires s != [] && SortedBy(s, le)
    ensures SortedBy(s[1..], le)
  {
    var t := s[1..];
    forall i, j | 0 <= i < j < |t| ensures le(t[i], t[j]) { assert t[i] == s[i + 1] && t[j] == s[j + 1]; }
  }

  lemma TailMultiset<T>(a: seq<T>, b: seq<T>)
    requires a != [] && b != [] && a[0] == b[0] && multiset(a) == multiset(b)
    ensures multiset(a[1..]) == multiset(b[1..])
  {
    DropHead(a);
    DropHead(b);
  }

  lemma DropHead<T>(s: seq<T>)
    requires s != []
    ensures multiset(s[1..]) == multiset(s) - multiset{s[0]}
  {
    assert s == [s[0]] + s[1..];
  }

  lemma SortedHeads<T(!new)>(a: seq<T>, b: seq<T>, le: (T, T) -> bool)
    requires |a| > 0 && SortedBy(a, le) && SortedBy(b, le)
    requires multiset(a) == multiset(b)
    requires forall x, y :: x in a && y in a && le(x, y) && le(y, x) ==> x == y
    ensures |b| > 0 && a[0] == b[0]
  {
    assert a[0] in multiset(b);
    assert b[0] in multiset(a);
    var i :| 0 <= i < |b| && b[i] == a[0];
    var j :| 0 <= j < |a| && a[j] == b[0];
    if i != 0 && j != 0 {
      assert le(b[0], b[i]) && le(a[0], a[j]);
    }
  }

  predicate Distinct<T(==)>(s: seq<T>)
  {
    forall i, j :: 0 <= i < j < |s| ==> s[i] != s[j]
  }

  lemma {:induction false} DistinctCount<T>(s: seq<T>, x: T)
    requires Distinct(s)
    ensures multiset(s)[x] <= 1
  {
    if s != [] {
      assert s == [s[0]] + s[1..];
      DistinctCount(s[1..], x);
      if x == s[0] {
        assert x !in s[1..];
      }
    }
  }

  lemma TwiceCounted<T>(s: seq<T>, i: nat, j: nat)
    requires i < j < |s| && s[i] == s[j]
    ensures multiset(s)[s[i]] >= 2
  {
    assert s == s[..j] + s[j..];
    assert s[i] in s[..j] && s[j] in s[j..];
    assert multiset(s) == multiset(s[..j]) + multiset(s[j..]);
  }

  /** A permutation of a sequence without repetitions has none either, and
      the same members. */
  lemma SortedDistinct<T>(a: seq<T>, b: seq<T>)
    requires Distinct(a) && multiset(a) == multiset(b)
    ensures Distinct(b)
    ensures forall x :: x in b <==> x in a
  {
    forall i, j | 0 <= i < j < |b| ensures b[i] != b[j] {
      DistinctCount(a, b[i]);
      if b[i] == b[j] {
        TwiceCounted(b, i, j);
      }
    }
    forall x ensures x in b <==> x in a {
      assert x in b <==> x in multiset(b);
      assert x in a <==> x in multiset(a);
    }
  }

  /** Filtering a sequence without repetitions gives one without repetitions. */
  lemma FilterDistinct<T(!new)>(s: seq<T>, p: T -> bool)
    requires Distinct(s)
    ensures Distinct(Filter(s, p))
  {
    var r := Filter(s, p);
    forall i, j | 0 <= i < j < |r| ensures r[i] != r[j] {
      FilterMultiset(s, p, r[i]);
      DistinctCount(s, r[i]);
      if r[i] == r[j] {
        TwiceCounted(r, i, j);
      }
    }
  }

  /** The members of a sequence, forgetting order and repetition. */
  function Members<T>(s: seq<T>): set<T>
  {
    set x | x in s
  }

  /** A sequence without repetitions has as many elements as it has members. */
  lemma {:induction false} DistinctCardinality<T>(s: seq<T>)
    requires Distinct(s)
    ensures |Members(s)| == |s|
  {
    if s != [] {
      var rest := s[1..];
      assert Distinct(rest) by {
        forall i, j | 0 <= i < j < |rest| ensures rest[i] != rest[j] {
          assert rest[i] == s[i + 1] && rest[j] == s[j + 1];
        }
      }
      DistinctCardinality(rest);
      assert s[0] !in rest by {
        forall k | 0 <= k < |rest| ensures rest[k] != s[0] { assert rest[k] == s[k + 1]; }
      }
      assert Members(s) == {s[0]} + Members(rest) by {
        assert s == [s[0]] + rest;
      }
    }
  }

  /** Two sequences without repetitions and with the same members are
      permutations of each other. */
  lemma DistinctSameMembers<T>(a: seq<T>, b: seq<T>)
    requires Distinct(a) && Distinct(b)
    requires forall x :: x in a <==> x in b
    ensures multiset(a) == multiset(b)
  {
    forall x ensures multiset(a)[x] == multiset(b)[x] {
      DistinctCount(a, x);
      DistinctCount(b, x);
      assert x in a <==> x in multiset(a);
      assert x in b <==> x in multiset(b);
    }
  }

  /** The elements of `s`, each once (`DISTINCT`). */
  function Dedup<T(==,!new)>(s: seq<T>): (r: seq<T>)
    ensures Distinct(r)
    ensures forall x :: x in r <==> x in s
  {
    if s == [] then []
    else
      var rest := Dedup(s[1..]);
      if s[0] in rest then rest else [s[0]] + rest
  }

  /** `s` back to front. */
  function Reverse<T>(s: seq<T>): (r: seq<T>)
    ensures |r| == |s|
    ensures forall i :: 0 <= i < |s| ==> r[i] == s[|s| - 1 - i]
  {
    if s == [] then [] else Reverse(s[1..]) + [s[0]]
  }

  // ---------------------------------------------------------------------
  // Concatenation (''.join)
  // ---------------------------------------------------------------------

  /** `''.join(parts)`. */
  function Flatten(parts: seq<string>): (r: string)
    ensures parts == [] ==> r == []
  {
    if parts == [] then [] else parts[0] + Flatten(parts[1..])
  }

  // ---------------------------------------------------------------------
  // Enumerating the primary keys of a table
  // ---------------------------------------------------------------------

  /** The members of `ids` below `bound`, in increasing order. */
  function IdsBelow(ids: set<nat>, bound: nat): (r: seq<nat>)
    ensures forall i :: 0 <= i < |r| ==> r[i] < bound
    ensures forall i, j :: 0 <= i < j < |r| ==> r[i] < r[j]
    ensures forall x :: x in r <==> x in ids && x < bound
  {
    if bound == 0 then [] else IdsBelow(ids, bound - 1) + (if bound - 1 in ids then [bound - 1] else [])
  }
}
