/** Sorting by a key, and when the sorted order is unique. */
module Sorting {

  const ByValue: int -> int := (x: int) => x

  ghost predicate SortedBy<T>(s: seq<T>, key: T -> int) {
    forall i, j :: 0 <= i < j < |s| ==> key(s[i]) <= key(s[j])
  }

  function Insert<T>(x: T, s: seq<T>, key: T -> int): seq<T> {
    if s == [] || key(x) < key(s[0]) then [x] + s else [s[0]] + Insert(x, s[1..], key)
  }

  function Sort<T>(s: seq<T>, key: T -> int): seq<T> {
    if s == [] then [] else Insert(s[|s| - 1], Sort(s[..|s| - 1], key), key)
  }

  lemma {:induction false} InsertPermutes<T>(x: T, s: seq<T>, key: T -> int)
    ensures multiset(Insert(x, s, key)) == multiset(s) + multiset{x}
  {
    if s != [] && key(x) >= key(s[0]) {
      InsertPermutes(x, s[1..], key);
      assert s == [s[0]] + s[1..];
    }
  }

  lemma {:induction false} InsertSorts<T>(x: T, s: seq<T>, key: T -> int)
    requires SortedBy(s, key)
    ensures SortedBy(Insert(x, s, key), key)
  {
    if s != [] && key(x) >= key(s[0]) {
      var rest := Insert(x, s[1..], key);
      InsertSorts(x, s[1..], key);
      InsertPermutes(x, s[1..], key);
      forall i | 0 <= i < |rest|
        ensures key(s[0]) <= key(rest[i])
      {
        assert rest[i] in multiset(rest);
        assert rest[i] == x || rest[i] in s[1..];
      }
    }
  }

  /** The result is sorted and a permutation. */
  lemma {:induction false} SortSorts<T>(s: seq<T>, key: T -> int)
    ensures SortedBy(Sort(s, key), key)
    ensures multiset(Sort(s, key)) == multiset(s)
  {
    hide Insert;
    if s == [] {
    } else {
      SortSorts(s[..|s| - 1], key);
      InsertPermutes(s[|s| - 1], Sort(s[..|s| - 1], key), key);
      InsertSorts(s[|s| - 1], Sort(s[..|s| - 1], key), key);
      assert s == s[..|s| - 1] + [s[|s| - 1]];
    }
  }

  lemma SameMembers<T>(s: seq<T>, t: seq<T>)
    requires multiset(s) == multiset(t)
    ensures |s| == |t|
    ensures forall x :: x in s <==> x in t
  {
    assert |multiset(s)| == |s| && |multiset(t)| == |t|;
    assert forall x :: x in s <==> x in multiset(s);
    assert forall x :: x in t <==> x in multiset(t);
  }

  lemma TailPermutes<T>(s: seq<T>, t: seq<T>)
    requires multiset(s) == multiset(t) && s != [] && t != [] && s[0] == t[0]
    ensures multiset(s[1..]) == multiset(t[1..])
  {
    assert s == [s[0]] + s[1..] && t == [t[0]] + t[1..];
    assert multiset(s[1..]) == multiset(s) - multiset{s[0]};
    assert multiset(t[1..]) == multiset(t) - multiset{t[0]};
  }

  ghost predicate KeyDistinguishes<T>(s: seq<T>, key: T -> int) {
    forall i, j :: 0 <= i < |s| && 0 <= j < |s| && key(s[i]) == key(s[j]) ==> s[i] == s[j]
  }

  lemma SameFirst<T>(s: seq<T>, t: seq<T>, key: T -> int)
    requires SortedBy(s, key) && SortedBy(t, key) && multiset(s) == multiset(t) && s != [] && t != []
    requires KeyDistinguishes(s, key)
    ensures s[0] == t[0]
  {
    SameMembers(s, t);
    assert s[0] in t && t[0] in s;
    var i :| 0 <= i < |s| && s[i] == t[0];
    var j :| 0 <= j < |t| && t[j] == s[0];
    assert key(s[0]) <= key(s[i]) && key(t[0]) <= key(t[j]);
  }

  /** When the key tells the members apart, every way of sorting gives the same sequence. */
  lemma {:induction false} SortedUnique<T>(s: seq<T>, t: seq<T>, key: T -> int)
    requires SortedBy(s, key) && SortedBy(t, key) && multiset(s) == multiset(t)
    requires KeyDistinguishes(s, key)
    ensures s == t
  {
    SameMembers(s, t);
    if s == [] {
    } else {
      SameFirst(s, t, key);
      TailPermutes(s, t);
      SortedUnique(s[1..], t[1..], key);
      assert s == [s[0]] + s[1..] && t == [t[0]] + t[1..];
    }
  }

  lemma DistinguishesPermutes<T>(s: seq<T>, t: seq<T>, key: T -> int)
    requires multiset(s) == multiset(t) && KeyDistinguishes(s, key)
    ensures KeyDistinguishes(t, key)
  {
    SameMembers(s, t);
    forall i, j | 0 <= i < |t| && 0 <= j < |t| && key(t[i]) == key(t[j])
      ensures t[i] == t[j]
    {
      assert t[i] in s && t[j] in s;
    }
  }

  lemma SortPermutation<T>(s: seq<T>, t: seq<T>, key: T -> int)
    requires multiset(s) == multiset(t) && KeyDistinguishes(s, key)
    ensures Sort(s, key) == Sort(t, key)
  {
    SortSorts(s, key);
    SortSorts(t, key);
    DistinguishesPermutes(s, Sort(s, key), key);
    SortedUnique(Sort(s, key), Sort(t, key), key);
  }

  // ----- Repeats -----

  lemma {:induction false} Repeated<T>(s: seq<T>, x: T)
    requires multiset(s)[x] >= 2
    ensures exists i, j :: 0 <= i < j < |s| && s[i] == x && s[j] == x
  {
    var last := s[|s| - 1];
    assert s == s[..|s| - 1] + [last];
    if last == x {
      assert x in multiset(s[..|s| - 1]);
      var i :| 0 <= i < |s| - 1 && s[i] == x;
    } else {
      Repeated(s[..|s| - 1], x);
      var i, j :| 0 <= i < j < |s| - 1 && s[..|s| - 1][i] == x && s[..|s| - 1][j] == x;
      assert s[i] == x && s[j] == x;
    }
  }

  lemma OccursTwice<T>(s: seq<T>, i: nat, j: nat)
    requires i < j < |s| && s[i] == s[j]
    ensures multiset(s)[s[i]] >= 2
  {
    assert s == s[..j] + s[j..];
    assert s[i] in s[..j] && s[j] in s[j..];
  }

  ghost predicate KeysDistinct<T>(s: seq<T>, key: T -> int) {
    forall i, j :: 0 <= i < j < |s| ==> key(s[i]) != key(s[j])
  }

  lemma KeysDistinctPermutes<T>(s: seq<T>, t: seq<T>, key: T -> int)
    requires multiset(s) == multiset(t) && KeysDistinct(s, key)
    ensures KeysDistinct(t, key)
  {
    SameMembers(s, t);
    forall i, j | 0 <= i < j < |t|
      ensures key(t[i]) != key(t[j])
    {
      if t[i] == t[j] {
        OccursTwice(t, i, j);
        Repeated(s, t[i]);
      } else {
        assert t[i] in s && t[j] in s;
        var a :| 0 <= a < |s| && s[a] == t[i];
        var b :| 0 <= b < |s| && s[b] == t[j];
        assert if a < b then key(s[a]) != key(s[b]) else key(s[b]) != key(s[a]);
      }
    }
  }

  /** Sorting members with distinct keys gives one strictly increasing sequence. */
  lemma SortStrict<T>(s: seq<T>, key: T -> int)
    requires KeysDistinct(s, key)
    ensures forall i, j :: 0 <= i < j < |Sort(s, key)| ==> key(Sort(s, key)[i]) < key(Sort(s, key)[j])
    ensures multiset(Sort(s, key)) == multiset(s)
  {
    SortSorts(s, key);
    KeysDistinctPermutes(s, Sort(s, key), key);
  }

  lemma SortOrderFree<T>(s: seq<T>, t: seq<T>, key: T -> int)
    requires multiset(s) == multiset(t) && KeysDistinct(s, key)
    ensures Sort(s, key) == Sort(t, key)
  {
    SortPermutation(s, t, key);
  }

  lemma RemovePermutes<T>(s: seq<T>, t: seq<T>, i: nat)
    requires multiset(s) == multiset(t) && s != [] && i < |t| && t[i] == s[|s| - 1]
    ensures multiset(s[..|s| - 1]) == multiset(t[..i] + t[i + 1..])
  {
    assert s == s[..|s| - 1] + [s[|s| - 1]];
    assert t == t[..i] + [t[i]] + t[i + 1..];
    assert multiset(s[..|s| - 1]) == multiset(s) - multiset{t[i]};
    assert multiset(t[..i] + t[i + 1..]) == multiset(t) - multiset{t[i]};
  }

  ghost predicate NoRepeats<T>(s: seq<T>) {
    forall i, j :: 0 <= i < j < |s| ==> s[i] != s[j]
  }

  lemma {:induction false} CountDistinct<T>(s: seq<T>)
    requires NoRepeats(s)
    ensures |set x | x in s| == |s|
  {
    if s == [] {
    } else {
      var n := |s| - 1;
      CountDistinct(s[..n]);
      MembersSnoc(s, n);
    }
  }

  lemma MembersSnoc<T>(s: seq<T>, n: nat)
    requires NoRepeats(s) && n == |s| - 1
    ensures (set x | x in s) == (set x | x in s[..n]) + {s[n]} && s[n] !in s[..n]
  {
    assert s == s[..n] + [s[n]];
  }

  lemma OccursOnce<T>(s: seq<T>, x: T)
    requires NoRepeats(s)
    ensures multiset(s)[x] == if x in s then 1 else 0
  {
    if multiset(s)[x] >= 2 {
      Repeated(s, x);
    }
  }

  lemma SameMembersPermute<T>(s: seq<T>, t: seq<T>)
    requires NoRepeats(s) && NoRepeats(t) && forall x :: x in s <==> x in t
    ensures multiset(s) == multiset(t)
  {
    forall x: T
      ensures multiset(s)[x] == multiset(t)[x]
    {
      OccursOnce(s, x);
      OccursOnce(t, x);
    }
  }

  // ----- Mapping -----

  function Map<A, B>(f: A -> B, s: seq<A>): (r: seq<B>)
    ensures |r| == |s|
    ensures forall i :: 0 <= i < |s| ==> r[i] == f(s[i])
  {
    seq(|s|, i requires 0 <= i < |s| => f(s[i]))
  }

  lemma MapWithout<A, B>(f: A -> B, s: seq<A>, i: nat)
    requires i < |s|
    ensures multiset(Map(f, s)) == multiset(Map(f, s[..i] + s[i + 1..])) + multiset{f(s[i])}
  {
    var m := Map(f, s);
    assert m == m[..i] + [m[i]] + m[i + 1..];
    assert Map(f, s[..i] + s[i + 1..]) == m[..i] + m[i + 1..];
  }

  lemma {:induction false} MapPermutes<A, B>(f: A -> B, s: seq<A>, t: seq<A>)
    requires multiset(s) == multiset(t)
    ensures multiset(Map(f, s)) == multiset(Map(f, t))
    decreases |s|
  {
    SameMembers(s, t);
    if s == [] {
      assert Map(f, s) == Map(f, t);
    } else {
      var n := |s| - 1;
      assert s[n] in t;
      var i :| 0 <= i < |t| && t[i] == s[n];
      RemovePermutes(s, t, i);
      MapPermutes(f, s[..n], t[..i] + t[i + 1..]);
      MapWithout(f, s, n);
      MapWithout(f, t, i);
      assert s[..n] + s[n + 1..] == s[..n];
    }
  }
}
