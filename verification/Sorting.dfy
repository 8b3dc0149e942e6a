/** The stable sort of the source's `sort_by` and `sort_by_key`, as an insertion sort. */
module Sorting {

  /** The order a comparator must be: total and transitive, not necessarily antisymmetric. */
  ghost predicate Preorder<T(!new)>(leq: (T, T) -> bool) {
    && (forall a, b :: leq(a, b) || leq(b, a))
    && (forall a, b, c :: leq(a, b) && leq(b, c) ==> leq(a, c))
  }

  ghost predicate Ordered<T>(leq: (T, T) -> bool, s: seq<T>) {
    forall i, j :: 0 <= i < j < |s| ==> leq(s[i], s[j])
  }

  /** `x` goes before the first element it does not exceed, so equal elements keep their order. */
  function Insert<T>(leq: (T, T) -> bool, x: T, s: seq<T>): (r: seq<T>)
    ensures |r| == |s| + 1
    ensures multiset(r) == multiset{x} + multiset(s)
  {
    if s == [] || leq(x, s[0]) then [x] + s
    else
      assert s == [s[0]] + s[1..];
      [s[0]] + Insert(leq, x, s[1..])
  }

  function Sort<T>(leq: (T, T) -> bool, s: seq<T>): (r: seq<T>)
    ensures |r| == |s|
    ensures multiset(r) == multiset(s)
  {
    if s == [] then []
    else
      assert s == [s[0]] + s[1..];
      Insert(leq, s[0], Sort(leq, s[1..]))
  }

  lemma {:induction false} InsertOrdered<T(!new)>(leq: (T, T) -> bool, x: T, s: seq<T>)
    requires Preorder(leq) && Ordered(leq, s)
    ensures Ordered(leq, Insert(leq, x, s))
  {
    if s != [] && !leq(x, s[0]) {
      InsertOrdered(leq, x, s[1..]);
      var t := Insert(leq, x, s[1..]);
      forall j | 0 <= j < |t| ensures leq(s[0], t[j]) {
        assert t[j] in multiset(t);
        assert t[j] == x || t[j] in s[1..];
      }
    } else if s != [] {
      forall j | 0 <= j < |s| ensures leq(x, s[j]) {
        assert j == 0 || leq(s[0], s[j]);
      }
    }
  }

  lemma {:induction false} SortOrdered<T(!new)>(leq: (T, T) -> bool, s: seq<T>)
    requires Preorder(leq)
    ensures Ordered(leq, Sort(leq, s))
  {
    if s != [] {
      SortOrdered(leq, s[1..]);
      InsertOrdered(leq, s[0], Sort(leq, s[1..]));
    }
  }

  lemma SortMembers<T>(leq: (T, T) -> bool, s: seq<T>)
    ensures forall x :: x in Sort(leq, s) <==> x in s
  {
    forall x ensures x in Sort(leq, s) <==> x in s {
      assert x in multiset(Sort(leq, s)) <==> x in multiset(s);
    }
  }

  /** No two elements of `s` tie. */
  ghost predicate Tieless<T>(leq: (T, T) -> bool, s: seq<T>) {
    forall x, y :: x in s && y in s && leq(x, y) && leq(y, x) ==> x == y
  }

  lemma SameHead<T(!new)>(leq: (T, T) -> bool, s: seq<T>, t: seq<T>)
    requires Preorder(leq) && Tieless(leq, s)
    requires Ordered(leq, s) && Ordered(leq, t)
    requires multiset(s) == multiset(t) && s != [] && t != []
    ensures s[0] == t[0]
  {
    assert s[0] in multiset(t) && t[0] in multiset(s);
    var i :| 0 <= i < |t| && t[i] == s[0];
    var j :| 0 <= j < |s| && s[j] == t[0];
    assert leq(t[0], s[0]) by { assert i == 0 || leq(t[0], t[i]); }
    assert leq(s[0], t[0]) by { assert j == 0 || leq(s[0], s[j]); }
  }

  lemma SameTail<T>(s: seq<T>, t: seq<T>)
    requires s != [] && t != [] && s[0] == t[0] && multiset(s) == multiset(t)
    ensures multiset(s[1..]) == multiset(t[1..])
  {
    assert s == [s[0]] + s[1..] && t == [t[0]] + t[1..];
    assert multiset(s[1..]) == multiset(s) - multiset{s[0]};
    assert multiset(t[1..]) == multiset(t) - multiset{t[0]};
  }

  /** Without ties there is only one ordered arrangement of the same elements. */
  lemma {:induction false} OrderedUnique<T(!new)>(leq: (T, T) -> bool, s: seq<T>, t: seq<T>)
    requires Preorder(leq) && Tieless(leq, s)
    requires Ordered(leq, s) && Ordered(leq, t)
    requires multiset(s) == multiset(t)
    ensures s == t
  {
    assert |s| == |multiset(s)| == |multiset(t)| == |t|;
    if s != [] {
      SameHead(leq, s, t);
      SameTail(s, t);
      OrderedUnique(leq, s[1..], t[1..]);
      assert s == [s[0]] + s[1..] && t == [t[0]] + t[1..];
    }
  }

  /** Sorting forgets the order of its input when there are no ties. */
  lemma SortForgetsOrder<T(!new)>(leq: (T, T) -> bool, s: seq<T>, t: seq<T>)
    requires Preorder(leq) && Tieless(leq, s)
    requires multiset(s) == multiset(t)
    ensures Sort(leq, s) == Sort(leq, t)
  {
    SortOrdered(leq, s);
    SortOrdered(leq, t);
    SortMembers(leq, s);
    OrderedUnique(leq, Sort(leq, s), Sort(leq, t));
  }

  lemma InsertAtFront<T>(leq: (T, T) -> bool, x: T, s: seq<T>)
    requires s != [] ==> leq(x, s[0])
    ensures Insert(leq, x, s) == [x] + s
  {
  }

  lemma InsertPast<T>(leq: (T, T) -> bool, x: T, y: T, s: seq<T>)
    requires !leq(x, y)
    ensures Insert(leq, x, [y] + s) == [y] + Insert(leq, x, s)
  {
    assert ([y] + s)[1..] == s;
  }

  /** Sorting what is already ordered changes nothing, ties included. */
  lemma {:induction false} SortOfOrdered<T(!new)>(leq: (T, T) -> bool, s: seq<T>)
    requires Ordered(leq, s)
    ensures Sort(leq, s) == s
  {
    if s != [] {
      SortOfOrdered(leq, s[1..]);
      assert |s| > 1 ==> leq(s[0], s[1]);
      InsertAtFront(leq, s[0], s[1..]);
      assert s == [s[0]] + s[1..];
    }
  }

  // --- distinct keys ------------------------------------------------------------

  ghost predicate DistinctKeys<T, K>(key: T -> K, s: seq<T>) {
    forall i, j :: 0 <= i < j < |s| ==> key(s[i]) != key(s[j])
  }

  /** Distinctness said of the elements alone, not of their places. */
  ghost predicate OneEach<T, K>(key: T -> K, m: multiset<T>) {
    && (forall x :: x in m ==> m[x] == 1)
    && (forall x, y :: x in m && y in m && key(x) == key(y) ==> x == y)
  }

  lemma {:induction false} DistinctIsOneEach<T, K>(key: T -> K, s: seq<T>)
    requires DistinctKeys(key, s)
    ensures OneEach(key, multiset(s))
  {
    if s != [] {
      DistinctIsOneEach(key, s[1..]);
      assert s == [s[0]] + s[1..];
      assert forall x :: x in s[1..] ==> key(s[0]) != key(x);
      forall x | x in multiset(s) ensures multiset(s)[x] == 1 {
        assert multiset(s)[x] == multiset([s[0]])[x] + multiset(s[1..])[x];
        assert x in s[1..] <==> x in multiset(s[1..]);
      }
    }
  }

  lemma OneEachIsDistinct<T, K>(key: T -> K, s: seq<T>)
    requires OneEach(key, multiset(s))
    ensures DistinctKeys(key, s)
  {
    forall i, j | 0 <= i < j < |s| ensures key(s[i]) != key(s[j]) {
      assert s == s[..j] + s[j..];
      assert s[i] == s[..j][i] && s[j] == s[j..][0];
      assert s[i] in multiset(s[..j]) && s[j] in multiset(s[j..]);
      assert s[i] in multiset(s) && s[j] in multiset(s);
      assert multiset(s)[s[i]] == multiset(s[..j])[s[i]] + multiset(s[j..])[s[i]];
    }
  }

  /** Whether keys are distinct does not depend on the arrangement. */
  lemma DistinctForgetsOrder<T, K>(key: T -> K, s: seq<T>, t: seq<T>)
    requires multiset(s) == multiset(t) && DistinctKeys(key, s)
    ensures DistinctKeys(key, t)
  {
    DistinctIsOneEach(key, s);
    OneEachIsDistinct(key, t);
  }

  // --- no element twice ---------------------------------------------------------

  ghost predicate NoRepeats<T>(rows: seq<T>) {
    forall i, j :: 0 <= i < j < |rows| ==> rows[i] != rows[j]
  }

  /** A sequence without repeats is as long as its set is large. */
  lemma {:induction false} SizeOfSet<T>(s: seq<T>, members: set<T>)
    requires NoRepeats(s) && forall x :: x in members <==> x in s
    ensures |s| == |members|
  {
    if s == [] {
      assert members == {};
    } else {
      var rest := s[1..];
      assert s == [s[0]] + rest;
      assert s[0] !in rest by {
        forall j | 0 <= j < |rest| ensures rest[j] != s[0] {
          assert rest[j] == s[j + 1];
        }
      }
      SizeOfSet(rest, members - {s[0]});
    }
  }

  lemma TwiceInSorted<T>(s: seq<T>, i: nat, j: nat)
    requires i < j < |s| && s[i] == s[j]
    ensures multiset(s)[s[i]] >= 2
  {
    assert s == (s[..i] + [s[i]]) + (s[i + 1..j] + ([s[j]] + s[j + 1..]));
  }

  lemma {:induction false} OnceInRows<T>(rows: seq<T>, r: T)
    requires NoRepeats(rows)
    ensures multiset(rows)[r] <= 1
  {
    if rows != [] {
      OnceInRows(rows[1..], r);
      assert rows == [rows[0]] + rows[1..];
      if rows[0] == r {
        assert r !in rows[1..];
      }
    }
  }

  lemma SortNoRepeats<T(!new)>(leq: (T, T) -> bool, s: seq<T>)
    requires NoRepeats(s)
    ensures NoRepeats(Sort(leq, s))
  {
    var sorted := Sort(leq, s);
    forall i, j | 0 <= i < j < |sorted| ensures sorted[i] != sorted[j] {
      if sorted[i] == sorted[j] {
        TwiceInSorted(sorted, i, j);
        OnceInRows(s, sorted[i]);
      }
    }
  }
}
