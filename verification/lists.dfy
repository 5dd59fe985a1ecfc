/**
 * The Python list operations the reports are built from: a comprehension
 * over a list (`Map`), `extend` in a loop (`Concat`) and `list.sort(key=...)`
 * on an integer key (`SortBy`).
 *
 * The sort is stable, so its result is determined by the key: it is the one
 * arrangement of the elements that is ascending by key and keeps, for every
 * key value, the elements of that key in their original order. `SortBy` is an
 * insertion sort with exactly that outcome; `SortedUnique` shows that no
 * other arrangement has it.
 */
module Lists {

  /** `[f(x) for x in s]`. */
  function Map<A, B>(f: A -> B, s: seq<A>): (r: seq<B>)
    ensures |r| == |s|
  {
    if s == [] then [] else [f(s[0])] + Map(f, s[1..])
  }

  predicate SortedBy<T>(key: T -> int, s: seq<T>) {
    forall i, j :: 0 <= i < j < |s| ==> key(s[i]) <= key(s[j])
  }

  /** The elements of s whose key is k, in their order in s. */
  function WithKey<T>(key: T -> int, k: int, s: seq<T>): seq<T> {
    if s == [] then [] else (if key(s[0]) == k then [s[0]] else []) + WithKey(key, k, s[1..])
  }

  /** Inserts x in front of the first element whose key is not smaller. */
  function Insert<T>(key: T -> int, x: T, s: seq<T>): seq<T> {
    if s == [] || key(x) <= key(s[0]) then [x] + s else [s[0]] + Insert(key, x, s[1..])
  }

  /** The groups one after the other (`extend` in a loop). */
  function Concat<T>(groups: seq<seq<T>>): seq<T> {
    if groups == [] then [] else groups[0] + Concat(groups[1..])
  }

  /** `[f(i) for i in range(n)]`. */
  function Tabulate<T>(f: nat -> T, n: nat): (r: seq<T>)
    ensures |r| == n
  {
    if n == 0 then [] else Tabulate(f, n - 1) + [f(n - 1)]
  }

  /** `[x for x in s if p(x)]`: the elements of s that satisfy p, in their order in s. */
  function Filter<T>(p: T -> bool, s: seq<T>): (r: seq<T>)
    ensures |r| <= |s|
    ensures forall i :: 0 <= i < |r| ==> p(r[i])
  {
    if s == [] then [] else (if p(s[0]) then [s[0]] else []) + Filter(p, s[1..])
  }

  /** Every element of a group has the key of the group's first element. */
  predicate Uniform<T(==)>(key: T -> int, groups: seq<seq<T>>) {
    forall g, x :: g in multiset(groups) && x in g ==> key(x) == key(g[0])
  }

  /**
   * Non-empty groups with the same key are the same group, and it occurs once.
   * Only the multiset of groups matters, not their order.
   */
  predicate Separated<T(==)>(key: T -> int, groups: seq<seq<T>>) {
    forall g, h :: g in multiset(groups) && h in multiset(groups) && g != [] && h != [] && key(g[0]) == key(h[0])
      ==> g == h && multiset(groups)[g] == 1
  }

  /** The stable sort of s by key. */
  function SortBy<T>(key: T -> int, s: seq<T>): (r: seq<T>)
    ensures SortedBy(key, r)
    ensures multiset(r) == multiset(s)
  {
    if s == [] then []
    else
      var rest := SortBy(key, s[1..]);
      InsertSorted(key, s[0], rest);
      InsertMultiset(key, s[0], rest);
      assert s == [s[0]] + s[1..];
      Insert(key, s[0], rest)
  }

  // ---------------------------------------------------------------------
  // Lemmas

  /** Entry i of a tabulation is f(i). */
  lemma {:induction false} TabulateIndex<T>(f: nat -> T, n: nat)
    ensures forall i :: 0 <= i < n ==> Tabulate(f, n)[i] == f(i)
  {
    if n > 0 {
      TabulateIndex(f, n - 1);
    }
  }

  /** Filtering commutes with concatenation. */
  lemma {:induction false} FilterAppend<T>(p: T -> bool, a: seq<T>, b: seq<T>)
    ensures Filter(p, a + b) == Filter(p, a) + Filter(p, b)
  {
    if a == [] {
      assert a + b == b;
    } else {
      var head := if p(a[0]) then [a[0]] else [];
      assert (a + b)[1..] == a[1..] + b;
      assert Filter(p, a + b) == head + Filter(p, a[1..] + b);
      FilterAppend(p, a[1..], b);
      assert head + (Filter(p, a[1..]) + Filter(p, b)) == (head + Filter(p, a[1..])) + Filter(p, b);
    }
  }

  /** An element satisfying p is kept as often as it occurs; any other never is. */
  lemma {:induction false} FilterMultiset<T>(p: T -> bool, s: seq<T>)
    ensures forall x :: multiset(Filter(p, s))[x] == if p(x) then multiset(s)[x] else 0
  {
    if s != [] {
      FilterMultiset(p, s[1..]);
      assert s == [s[0]] + s[1..];
    }
  }

  /** Nothing survives a filter that no element satisfies. */
  lemma {:induction false} FilterNone<T>(p: T -> bool, s: seq<T>)
    requires forall i :: 0 <= i < |s| ==> !p(s[i])
    ensures Filter(p, s) == []
  {
    if s != [] {
      FilterNone(p, s[1..]);
    }
  }

  /** Insertion adds exactly x. */
  lemma {:induction false} InsertMultiset<T>(key: T -> int, x: T, s: seq<T>)
    ensures |Insert(key, x, s)| == |s| + 1
    ensures multiset(Insert(key, x, s)) == multiset{x} + multiset(s)
  {
    if s != [] && key(x) > key(s[0]) {
      InsertMultiset(key, x, s[1..]);
      assert s == [s[0]] + s[1..];
    }
  }

  /** Insertion keeps a sorted sequence sorted. */
  lemma {:induction false} InsertSorted<T>(key: T -> int, x: T, s: seq<T>)
    requires SortedBy(key, s)
    ensures SortedBy(key, Insert(key, x, s))
  {
    if s != [] && key(x) > key(s[0]) {
      var t := Insert(key, x, s[1..]);
      InsertSorted(key, x, s[1..]);
      InsertMultiset(key, x, s[1..]);
      forall i | 0 <= i < |t| ensures key(s[0]) <= key(t[i]) {
        assert t[i] in multiset(t);
        if t[i] != x {
          assert t[i] in multiset(s[1..]);
          var j :| 0 <= j < |s[1..]| && s[1..][j] == t[i];
          assert s[j + 1] == t[i];
        }
      }
      var u := [s[0]] + t;
      forall i, j | 0 <= i < j < |u| ensures key(u[i]) <= key(u[j]) {
        assert u[j] == t[j - 1];
        if i > 0 {
          assert u[i] == t[i - 1];
        }
      }
    }
  }

  /** The key-k elements of a concatenation are those of each part, in turn. */
  lemma {:induction false} WithKeyAppend<T>(key: T -> int, k: int, a: seq<T>, b: seq<T>)
    ensures WithKey(key, k, a + b) == WithKey(key, k, a) + WithKey(key, k, b)
  {
    if a == [] {
      assert a + b == b;
    } else {
      WithKeyAppend(key, k, a[1..], b);
      assert (a + b)[1..] == a[1..] + b;
    }
  }

  /** Every key-k element comes from s. */
  lemma {:induction false} WithKeyMembers<T>(key: T -> int, k: int, s: seq<T>)
    ensures forall x :: x in WithKey(key, k, s) ==> x in s && key(x) == k
  {
    if s != [] {
      WithKeyMembers(key, k, s[1..]);
    }
  }

  /** A sequence with no key-k element has no key-k part. */
  lemma {:induction false} WithKeyAbsent<T>(key: T -> int, k: int, s: seq<T>)
    requires forall i :: 0 <= i < |s| ==> key(s[i]) != k
    ensures WithKey(key, k, s) == []
  {
    if s != [] {
      WithKeyAbsent(key, k, s[1..]);
    }
  }

  /** The first element's key has a non-empty part, headed by that element. */
  lemma WithKeyOfHead<T>(key: T -> int, s: seq<T>)
    requires s != []
    ensures WithKey(key, key(s[0]), s) != [] && WithKey(key, key(s[0]), s)[0] == s[0]
  {
  }

  /** A sequence whose part of every key is empty is itself empty. */
  lemma WithKeyEmpty<T>(key: T -> int, s: seq<T>)
    ensures (forall k :: WithKey(key, k, s) == []) ==> s == []
  {
    if s != [] {
      WithKeyOfHead(key, s);
    }
  }

  /** Insertion places x before the elements of its key that follow it. */
  lemma {:induction false} WithKeyInsert<T>(key: T -> int, k: int, x: T, s: seq<T>)
    ensures WithKey(key, k, Insert(key, x, s)) == WithKey(key, k, [x] + s)
  {
    if s != [] && key(x) > key(s[0]) {
      WithKeyInsert(key, k, x, s[1..]);
      assert ([s[0]] + Insert(key, x, s[1..]))[1..] == Insert(key, x, s[1..]);
      assert ([x] + s)[1..] == s;
      assert ([x] + s[1..])[1..] == s[1..];
    }
  }

  /** Stability: sorting keeps the elements of each key in their original order. */
  lemma {:induction false} SortStable<T>(key: T -> int, k: int, s: seq<T>)
    ensures WithKey(key, k, SortBy(key, s)) == WithKey(key, k, s)
  {
    if s != [] {
      SortStable(key, k, s[1..]);
      WithKeyInsert(key, k, s[0], SortBy(key, s[1..]));
      assert ([s[0]] + SortBy(key, s[1..]))[1..] == SortBy(key, s[1..]);
    }
  }

  /**
   * Two sequences sorted by key whose elements of every key come in the same
   * order are equal: the stable sort has only one possible outcome.
   */
  lemma {:induction false} SortedUnique<T>(key: T -> int, a: seq<T>, b: seq<T>)
    requires SortedBy(key, a) && SortedBy(key, b)
    requires forall k :: WithKey(key, k, a) == WithKey(key, k, b)
    ensures a == b
    decreases |a| + |b|
  {
    if a == [] || b == [] {
      WithKeyEmpty(key, a);
      WithKeyEmpty(key, b);
    } else {
      var ka, kb := key(a[0]), key(b[0]);
      assert WithKey(key, ka, a)[0] == a[0];
      assert WithKey(key, kb, b)[0] == b[0];
      WithKeyMembers(key, ka, b);
      WithKeyMembers(key, kb, a);
      assert WithKey(key, ka, b)[0] in b;
      assert WithKey(key, kb, a)[0] in a;
      assert ka == kb;
      assert a[0] == b[0];
      forall k ensures WithKey(key, k, a[1..]) == WithKey(key, k, b[1..]) {
        var head := if key(a[0]) == k then [a[0]] else [];
        assert WithKey(key, k, a) == head + WithKey(key, k, a[1..]);
        assert WithKey(key, k, b) == head + WithKey(key, k, b[1..]);
        assert WithKey(key, k, a[1..]) == WithKey(key, k, a)[|head|..];
        assert WithKey(key, k, b[1..]) == WithKey(key, k, b)[|head|..];
      }
      SortedUnique(key, a[1..], b[1..]);
      assert a == [a[0]] + a[1..];
      assert b == [b[0]] + b[1..];
    }
  }

  /** Appending a group at the end of the list appends its elements at the end. */
  lemma {:induction false} ConcatAppend<T>(groups: seq<seq<T>>, g: seq<T>)
    ensures Concat(groups + [g]) == Concat(groups) + g
  {
    if groups == [] {
      assert [g][1..] == [];
    } else {
      assert (groups + [g])[1..] == groups[1..] + [g];
      ConcatAppend(groups[1..], g);
    }
  }

  /** Every element of a uniform group has key k when its first element has. */
  lemma WithKeyWhole<T>(key: T -> int, k: int, g: seq<T>)
    requires forall i :: 0 <= i < |g| ==> key(g[i]) == k
    ensures WithKey(key, k, g) == g
  {
    if g != [] {
      WithKeyWhole(key, k, g[1..]);
      assert [g[0]] + g[1..] == g;
    }
  }

  /** Without a non-empty group of key k, the concatenation has no element of key k. */
  lemma {:induction false} WithKeyConcatAbsent<T>(key: T -> int, k: int, groups: seq<seq<T>>)
    requires Uniform(key, groups)
    requires forall g :: g in groups && g != [] ==> key(g[0]) != k
    ensures WithKey(key, k, Concat(groups)) == []
  {
    if groups != [] {
      assert multiset(groups) == multiset{groups[0]} + multiset(groups[1..]) by {
        assert groups == [groups[0]] + groups[1..];
      }
      assert forall i :: 0 <= i < |groups[0]| ==> key(groups[0][i]) != k by {
        forall i | 0 <= i < |groups[0]| ensures key(groups[0][i]) != k {
          assert groups[0][i] in groups[0];
        }
      }
      WithKeyAbsent(key, k, groups[0]);
      WithKeyConcatAbsent(key, k, groups[1..]);
      WithKeyAppend(key, k, groups[0], Concat(groups[1..]));
    }
  }

  /** With separated groups, the elements of key k in the concatenation are the one group of key k. */
  lemma {:induction false} WithKeyConcatGroup<T>(key: T -> int, k: int, groups: seq<seq<T>>, g: seq<T>)
    requires Uniform(key, groups) && Separated(key, groups)
    requires g in groups && g != [] && key(g[0]) == k
    ensures WithKey(key, k, Concat(groups)) == g
  {
    var head, tail := groups[0], groups[1..];
    SplitGroups(key, groups);
    WithKeyAppend(key, k, head, Concat(tail));
    if head == g {
      assert forall i :: 0 <= i < |g| ==> key(g[i]) == k by {
        forall i | 0 <= i < |g| ensures key(g[i]) == k {
          assert g[i] in g;
        }
      }
      WithKeyWhole(key, k, g);
      HeadGroupOnly(key, groups);
      WithKeyConcatAbsent(key, k, tail);
    } else {
      assert g in tail;
      assert forall i :: 0 <= i < |head| ==> key(head[i]) != k by {
        forall i | 0 <= i < |head| ensures key(head[i]) != k {
          assert head[i] in head;
        }
      }
      WithKeyAbsent(key, k, head);
      WithKeyConcatGroup(key, k, tail, g);
    }
  }

  /** The later groups of uniform, separated groups are uniform and separated too. */
  lemma SplitGroups<T>(key: T -> int, groups: seq<seq<T>>)
    requires groups != [] && Uniform(key, groups) && Separated(key, groups)
    ensures multiset(groups) == multiset{groups[0]} + multiset(groups[1..])
    ensures Uniform(key, groups[1..]) && Separated(key, groups[1..])
  {
    assert groups == [groups[0]] + groups[1..];
  }

  /** Once the first group has key k, no later group has it. */
  lemma HeadGroupOnly<T>(key: T -> int, groups: seq<seq<T>>)
    requires groups != [] && groups[0] != [] && Separated(key, groups)
    ensures forall h :: h in groups[1..] && h != [] ==> key(h[0]) != key(groups[0][0])
  {
    var head, tail := groups[0], groups[1..];
    assert multiset(groups) == multiset{head} + multiset(tail) by {
      assert groups == [head] + tail;
    }
    forall h | h in tail && h != [] ensures key(h[0]) != key(head[0]) {
      assert h in multiset(groups);
      assert h != head || multiset(groups)[h] >= 2;
    }
  }

  /**
   * Sorting a concatenation of uniform, separated groups gives the same
   * sequence whatever order the groups come in.
   */
  lemma SortConcatOrderFree<T>(key: T -> int, first: seq<seq<T>>, second: seq<seq<T>>)
    requires multiset(first) == multiset(second)
    requires Uniform(key, first) && Separated(key, first)
    ensures SortBy(key, Concat(first)) == SortBy(key, Concat(second))
  {
    forall k ensures WithKey(key, k, SortBy(key, Concat(first))) == WithKey(key, k, SortBy(key, Concat(second))) {
      SortStable(key, k, Concat(first));
      SortStable(key, k, Concat(second));
      if g :| g in first && g != [] && key(g[0]) == k {
        assert g in multiset(second);
        WithKeyConcatGroup(key, k, first, g);
        WithKeyConcatGroup(key, k, second, g);
      } else {
        forall h | h in second && h != [] ensures key(h[0]) != k {
          assert h in multiset(first);
        }
        WithKeyConcatAbsent(key, k, first);
        WithKeyConcatAbsent(key, k, second);
      }
    }
    SortedUnique(key, SortBy(key, Concat(first)), SortBy(key, Concat(second)));
  }

  /** The i-th element of the mapped sequence is f of the i-th element. */
  lemma {:induction false} MapIndex<A, B>(f: A -> B, s: seq<A>, i: int)
    requires 0 <= i < |s|
    ensures Map(f, s)[i] == f(s[i])
  {
    if i > 0 {
      MapIndex(f, s[1..], i - 1);
    }
  }

  /** Removing the element at position j removes one occurrence of it. */
  lemma MultisetRemove<T>(s: seq<T>, j: int)
    requires 0 <= j < |s|
    ensures multiset(s[..j] + s[j + 1..]) == multiset(s) - multiset{s[j]}
  {
    assert s == s[..j] + [s[j]] + s[j + 1..];
  }

  lemma {:induction false} MapAppend<A, B>(f: A -> B, a: seq<A>, b: seq<A>)
    ensures Map(f, a + b) == Map(f, a) + Map(f, b)
  {
    if a == [] {
      assert a + b == b;
    } else {
      var head := [f(a[0])];
      assert (a + b)[1..] == a[1..] + b;
      assert (a + b)[0] == a[0];
      assert Map(f, a + b) == head + Map(f, a[1..] + b);
      MapAppend(f, a[1..], b);
      assert head + (Map(f, a[1..]) + Map(f, b)) == (head + Map(f, a[1..])) + Map(f, b);
    }
  }
  lemma MapRemove<A, B>(f: A -> B, s: seq<A>, j: int)
    requires 0 <= j < |s|
    ensures multiset(Map(f, s)) == multiset(Map(f, s[..j] + s[j + 1..])) + multiset{f(s[j])}
  {
    var before, after := s[..j], s[j + 1..];
    assert s == before + ([s[j]] + after);
    calc {
      multiset(Map(f, s));
      { MapAppend(f, before, [s[j]] + after); }
      multiset(Map(f, before) + Map(f, [s[j]] + after));
      { MapAppend(f, [s[j]], after); assert Map(f, [s[j]]) == [f(s[j])]; }
      multiset(Map(f, before) + ([f(s[j])] + Map(f, after)));
      multiset(Map(f, before)) + multiset(Map(f, after)) + multiset{f(s[j])};
      { MapAppend(f, before, after); }
      multiset(Map(f, before + after)) + multiset{f(s[j])};
    }
  }

  /** A position at which an element of the multiset occurs. */
  lemma IndexOf<T>(b: seq<T>, x: T) returns (j: int)
    requires x in multiset(b)
    ensures 0 <= j < |b| && b[j] == x
  {
    j :| 0 <= j < |b| && b[j] == x;
  }

  lemma {:induction false} MapMultiset<A, B>(f: A -> B, a: seq<A>, b: seq<A>)
    requires multiset(a) == multiset(b)
    ensures multiset(Map(f, a)) == multiset(Map(f, b))
    decreases |a|
  {
    if a == [] {
      assert |b| == |multiset(b)|;
      assert b == [];
    } else {
      var j := IndexOf(b, a[0]);
      var ta, tb := a[..0] + a[1..], b[..j] + b[j + 1..];
      RemoveBoth(a, b, 0, j);
      calc {
        multiset(Map(f, a));
        { MapRemove(f, a, 0); }
        multiset(Map(f, ta)) + multiset{f(a[0])};
        { MapMultiset(f, ta, tb); }
        multiset(Map(f, tb)) + multiset{f(b[j])};
        { MapRemove(f, b, j); }
        multiset(Map(f, b));
      }
    }
  }

  /** Removing one occurrence of the same element from two permutations leaves permutations. */
  lemma RemoveBoth<T>(a: seq<T>, b: seq<T>, i: int, j: int)
    requires multiset(a) == multiset(b)
    requires 0 <= i < |a| && 0 <= j < |b| && a[i] == b[j]
    ensures multiset(a[..i] + a[i + 1..]) == multiset(b[..j] + b[j + 1..])
  {
    MultisetRemove(a, i);
    MultisetRemove(b, j);
  }
}
