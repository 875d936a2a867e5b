/**
 * `Array.prototype.sort` with a comparator `(a, b) => key(b) - key(a)`:
 * since ES2019 the sort is stable, so the result is the input ordered by
 * descending key with equal keys in their original order. `SortDesc` is
 * that ordering (an insertion sort), `SortInPlace` sorts an array to it,
 * and `SortDescUnique` shows that every stable descending sort of the same
 * input gives the same sequence, whatever algorithm the engine runs.
 */
module StableSort {

  /** Non-increasing by `key`. */
  ghost predicate SortedDesc<T>(s: seq<T>, key: T -> int)
  {
    forall i, j :: 0 <= i < j < |s| ==> key(s[i]) >= key(s[j])
  }

  /** The elements of `s` whose key is `k`, in their order in `s`. */
  function KeyClass<T>(s: seq<T>, key: T -> int, k: int): seq<T>
  {
    if s == [] then [] else (if key(s[0]) == k then [s[0]] else []) + KeyClass(s[1..], key, k)
  }

  /** `r` keeps the relative order of every group of equal keys of `s`. */
  ghost predicate StableWrt<T>(r: seq<T>, s: seq<T>, key: T -> int)
  {
    forall k :: KeyClass(r, key, k) == KeyClass(s, key, k)
  }

  /** Puts `x` after every element whose key is at least `key(x)`. */
  function Insert<T>(t: seq<T>, x: T, key: T -> int): seq<T>
  {
    if t == [] then [x]
    else if key(t[0]) < key(x) then [x] + t
    else [t[0]] + Insert(t[1..], x, key)
  }

  /** The stable descending sort of `s`. */
  function SortDesc<T>(s: seq<T>, key: T -> int): seq<T>
  {
    if s == [] then [] else Insert(SortDesc(s[..|s| - 1], key), s[|s| - 1], key)
  }

  // ---------------------------------------------------------------------
  // Group lemmas

  lemma KeyClassCons<T>(y: T, s: seq<T>, key: T -> int, k: int)
    ensures KeyClass([y] + s, key, k) == (if key(y) == k then [y] else []) + KeyClass(s, key, k)
  {
    assert ([y] + s)[1..] == s;
  }

  lemma SortedTail<T>(t: seq<T>, key: T -> int)
    requires t != [] && SortedDesc(t, key)
    ensures SortedDesc(t[1..], key)
    ensures forall m :: 0 <= m < |t| ==> key(t[0]) >= key(t[m])
  {
    forall i, j | 0 <= i < j < |t[1..]|
      ensures key(t[1..][i]) >= key(t[1..][j])
    {
      assert t[1..][i] == t[i + 1] && t[1..][j] == t[j + 1];
    }
    forall m | 0 < m < |t|
      ensures key(t[0]) >= key(t[m])
    {
    }
  }

  lemma {:induction false} KeyClassAppend<T>(a: seq<T>, b: seq<T>, key: T -> int, k: int)
    ensures KeyClass(a + b, key, k) == KeyClass(a, key, k) + KeyClass(b, key, k)
  {
    if a != [] {
      assert (a + b)[1..] == a[1..] + b;
      KeyClassAppend(a[1..], b, key, k);
    } else {
      assert a + b == b;
    }
  }

  lemma {:induction false} KeyClassAbsent<T>(s: seq<T>, key: T -> int, k: int)
    requires forall i :: 0 <= i < |s| ==> key(s[i]) != k
    ensures KeyClass(s, key, k) == []
  {
    if s != [] {
      KeyClassAbsent(s[1..], key, k);
    }
  }

  /** When every element has key `k`, the group of `k` is everything. */
  lemma {:induction false} KeyClassAll<T>(s: seq<T>, key: T -> int, k: int)
    requires forall i :: 0 <= i < |s| ==> key(s[i]) == k
    ensures KeyClass(s, key, k) == s
  {
    if s != [] {
      KeyClassAll(s[1..], key, k);
      assert s == [s[0]] + s[1..];
    }
  }

  // ---------------------------------------------------------------------
  // Insert

  lemma {:induction false} InsertMultiset<T>(t: seq<T>, x: T, key: T -> int)
    ensures multiset(Insert(t, x, key)) == multiset(t) + multiset{x}
  {
    if t != [] && key(t[0]) >= key(x) {
      InsertMultiset(t[1..], x, key);
      assert t == [t[0]] + t[1..];
    }
  }

  /** An upper bound on the keys of `t` and of `x` bounds the keys of the
      insertion. */
  lemma {:induction false} InsertBounded<T>(t: seq<T>, x: T, key: T -> int, b: int)
    requires forall m :: 0 <= m < |t| ==> key(t[m]) <= b
    requires key(x) <= b
    ensures forall m :: 0 <= m < |Insert(t, x, key)| ==> key(Insert(t, x, key)[m]) <= b
  {
    if t != [] && key(t[0]) >= key(x) {
      InsertBounded(t[1..], x, key, b);
    }
  }

  /** A sorted sequence stays sorted under a head whose key bounds it. */
  lemma ConsSorted<T>(y: T, rest: seq<T>, key: T -> int)
    requires SortedDesc(rest, key)
    requires forall m :: 0 <= m < |rest| ==> key(rest[m]) <= key(y)
    ensures SortedDesc([y] + rest, key)
  {
    var r := [y] + rest;
    forall i, j | 0 <= i < j < |r|
      ensures key(r[i]) >= key(r[j])
    {
      assert r[j] == rest[j - 1];
      if i > 0 {
        assert r[i] == rest[i - 1];
      }
    }
  }

  lemma {:induction false} InsertSorted<T>(t: seq<T>, x: T, key: T -> int)
    requires SortedDesc(t, key)
    ensures SortedDesc(Insert(t, x, key), key)
  {
    if t == [] {
    } else if key(t[0]) >= key(x) {
      SortedTail(t, key);
      InsertSorted(t[1..], x, key);
      assert forall m :: 0 <= m < |t[1..]| ==> t[1..][m] == t[m + 1];
      InsertBounded(t[1..], x, key, key(t[0]));
      ConsSorted(t[0], Insert(t[1..], x, key), key);
    } else {
      SortedTail(t, key);
      ConsSorted(x, t, key);
    }
  }

  /** Inserting into a sorted sequence adds `x` at the end of its own group. */
  lemma {:induction false} InsertKeyClass<T>(t: seq<T>, x: T, key: T -> int, k: int)
    requires SortedDesc(t, key)
    ensures KeyClass(Insert(t, x, key), key, k) == KeyClass(t, key, k) + (if key(x) == k then [x] else [])
  {
    var own: seq<T> := if key(x) == k then [x] else [];
    if t == [] {
      KeyClassCons(x, [], key, k);
      assert [x] + [] == [x];
    } else {
      SortedTail(t, key);
      KeyClassCons(t[0], t[1..], key, k);
      assert t == [t[0]] + t[1..];
      if key(t[0]) < key(x) {
        KeyClassCons(x, t, key, k);
        if key(x) == k {
          KeyClassAbsent(t, key, k);
        }
      } else {
        var rest := Insert(t[1..], x, key);
        InsertKeyClass(t[1..], x, key, k);
        KeyClassCons(t[0], rest, key, k);
        var own0: seq<T> := if key(t[0]) == k then [t[0]] else [];
        calc {
          KeyClass(Insert(t, x, key), key, k);
          KeyClass([t[0]] + rest, key, k);
          own0 + KeyClass(rest, key, k);
          own0 + (KeyClass(t[1..], key, k) + own);
          (own0 + KeyClass(t[1..], key, k)) + own;
          KeyClass(t, key, k) + own;
        }
      }
    }
  }

  /** The insertion point found from the right by an array insertion sort:
      if every element from `j` on has a smaller key than `x` and the one
      before `j` (if any) does not, `x` goes exactly at `j`. */
  lemma {:induction false} InsertAt<T>(t: seq<T>, x: T, j: nat, key: T -> int)
    requires SortedDesc(t, key)
    requires j <= |t|
    requires forall m :: j <= m < |t| ==> key(t[m]) < key(x)
    requires j == 0 || key(t[j - 1]) >= key(x)
    ensures Insert(t, x, key) == t[..j] + [x] + t[j..]
  {
    if j == 0 {
      assert t[j..] == t;
    } else {
      assert key(t[0]) >= key(t[j - 1]) || j - 1 == 0;
      InsertAt(t[1..], x, j - 1, key);
      assert t[1..][..j - 1] == t[1..j];
      assert t[1..][j - 1..] == t[j..];
      assert t[..j] == [t[0]] + t[1..j];
    }
  }

  // ---------------------------------------------------------------------
  // SortDesc: sorted, a permutation, stable, unique, idempotent

  lemma {:induction false} SortDescSorted<T>(s: seq<T>, key: T -> int)
    ensures SortedDesc(SortDesc(s, key), key)
    decreases |s|
  {
    if s != [] {
      SortDescSorted(s[..|s| - 1], key);
      InsertSorted(SortDesc(s[..|s| - 1], key), s[|s| - 1], key);
    }
  }

  lemma {:induction false} SortDescPermutation<T>(s: seq<T>, key: T -> int)
    ensures multiset(SortDesc(s, key)) == multiset(s)
    decreases |s|
  {
    if s != [] {
      SortDescPermutation(s[..|s| - 1], key);
      InsertMultiset(SortDesc(s[..|s| - 1], key), s[|s| - 1], key);
      assert s == s[..|s| - 1] + [s[|s| - 1]];
    }
  }

  /** Elements with equal keys keep their relative order. */
  lemma {:induction false} SortDescStable<T>(s: seq<T>, key: T -> int)
    ensures StableWrt(SortDesc(s, key), s, key)
    decreases |s|
  {
    if s != [] {
      var init, x := s[..|s| - 1], s[|s| - 1];
      SortDescStable(init, key);
      SortDescSorted(init, key);
      assert s == init + [x];
      forall k
        ensures KeyClass(SortDesc(s, key), key, k) == KeyClass(s, key, k)
      {
        InsertKeyClass(SortDesc(init, key), x, key, k);
        KeyClassAppend(init, [x], key, k);
        assert KeyClass([x], key, k) == (if key(x) == k then [x] else []) + KeyClass([], key, k);
      }
    }
  }

  /** The last position of `r` holding key `k`, or -1. */
  function LastWithKey<T>(r: seq<T>, key: T -> int, k: int): (p: int)
    ensures -1 <= p < |r|
    ensures p >= 0 ==> key(r[p]) == k
    ensures forall m :: p < m < |r| ==> key(r[m]) != k
  {
    if r == [] then -1
    else if key(r[|r| - 1]) == k then |r| - 1
    else LastWithKey(r[..|r| - 1], key, k)
  }

  /** In a stable rearrangement `r` of `init + [x]`, the last element with
      the key of `x` is `x` itself, and removing it leaves a stable
      rearrangement of `init`. */
  lemma RemoveLastOfGroup<T>(init: seq<T>, x: T, r: seq<T>, key: T -> int) returns (p: nat)
    requires StableWrt(r, init + [x], key)
    ensures p < |r| && p == LastWithKey(r, key, key(x)) && r[p] == x
    ensures StableWrt(r[..p] + r[p + 1..], init, key)
  {
    var s, k0 := init + [x], key(x);
    assert KeyClass(r, key, k0) == KeyClass(s, key, k0);
    p := RemoveOwnKey(init, x, r, key);
    var before, after := r[..p], r[p + 1..];
    forall k
      ensures KeyClass(before + after, key, k) == KeyClass(init, key, k)
    {
      KeyClassAppend(before, after, key, k);
      if k != k0 {
        assert KeyClass(r, key, k) == KeyClass(s, key, k);
        RemoveOtherKey(init, x, r, p, key, k);
      }
    }
  }

  /** The group of `x`'s key: its last member in `r` is `x`, and the rest of
      the group is the group in `init`. */
  lemma RemoveOwnKey<T>(init: seq<T>, x: T, r: seq<T>, key: T -> int) returns (p: nat)
    requires KeyClass(r, key, key(x)) == KeyClass(init + [x], key, key(x))
    ensures p < |r| && p == LastWithKey(r, key, key(x)) && r[p] == x
    ensures KeyClass(r[..p], key, key(x)) + KeyClass(r[p + 1..], key, key(x)) == KeyClass(init, key, key(x))
  {
    var k0 := key(x);
    KeyClassAppend(init, [x], key, k0);
    KeyClassCons(x, [], key, k0);
    assert KeyClass(r, key, k0) == KeyClass(init, key, k0) + [x];
    var q := LastWithKey(r, key, k0);
    if q < 0 {
      KeyClassAbsent(r, key, k0);
      assert false;
    }
    p := q;
    SplitGroup(r, p, key);
    SnocInjective(KeyClass(r[..p], key, k0), r[p], KeyClass(init, key, k0), x);
    KeyClassAbsent(r[p + 1..], key, k0);
  }

  lemma SnocInjective<T>(a: seq<T>, y: T, b: seq<T>, z: T)
    requires a + [y] == b + [z]
    ensures a == b && y == z
  {
    assert (a + [y])[|a|] == y && (b + [z])[|b|] == z;
    assert (a + [y])[..|a|] == a && (b + [z])[..|b|] == b;
  }

  /** The group of the last member's key ends with that member. */
  lemma SplitGroup<T>(r: seq<T>, p: nat, key: T -> int)
    requires p < |r|
    requires forall m :: p < m < |r| ==> key(r[m]) != key(r[p])
    ensures KeyClass(r, key, key(r[p])) == KeyClass(r[..p], key, key(r[p])) + [r[p]]
  {
    var k0 := key(r[p]);
    var before, after := r[..p], r[p + 1..];
    assert r[p..] == [r[p]] + after;
    assert r == before + r[p..];
    KeyClassAppend(before, [r[p]] + after, key, k0);
    KeyClassCons(r[p], after, key, k0);
    KeyClassAbsent(after, key, k0);
  }

  lemma RemoveOtherKey<T>(init: seq<T>, x: T, r: seq<T>, p: nat, key: T -> int, k: int)
    requires KeyClass(r, key, k) == KeyClass(init + [x], key, k)
    requires p < |r| && r[p] == x && key(x) != k
    ensures KeyClass(r[..p], key, k) + KeyClass(r[p + 1..], key, k) == KeyClass(init, key, k)
  {
    var before, after := r[..p], r[p + 1..];
    assert r == before + [x] + after;
    KeyClassAppend(before + [x], after, key, k);
    KeyClassAppend(before, [x], key, k);
    KeyClassAppend(init, [x], key, k);
    KeyClassCons(x, [], key, k);
  }

  /** Removing the element at `p` from a sorted sequence keeps it sorted, and
      the neighbours of the gap bound `key(r[p])` from both sides. */
  lemma RemoveAtSorted<T>(r: seq<T>, p: nat, rest: seq<T>, key: T -> int)
    requires SortedDesc(r, key) && p < |r| && rest == r[..p] + r[p + 1..]
    requires forall m :: p < m < |r| ==> key(r[m]) != key(r[p])
    ensures SortedDesc(rest, key)
    ensures forall m :: p <= m < |rest| ==> key(rest[m]) < key(r[p])
    ensures p == 0 || key(rest[p - 1]) >= key(r[p])
  {
    forall i, j | 0 <= i < j < |rest|
      ensures key(rest[i]) >= key(rest[j])
    {
      var i', j' := if i < p then i else i + 1, if j < p then j else j + 1;
      assert rest[i] == r[i'] && rest[j] == r[j'];
    }
    forall m | p <= m < |rest|
      ensures key(rest[m]) < key(r[p])
    {
      assert rest[m] == r[m + 1];
    }
    if p > 0 {
      assert rest[p - 1] == r[p - 1];
    }
  }

  /** Only the empty sequence is a stable rearrangement of the empty one. */
  lemma StableOfEmpty<T>(r: seq<T>, key: T -> int)
    requires StableWrt(r, [], key)
    ensures r == []
  {
    if r != [] {
      var head, tail := r[0], r[1..];
      assert r == [head] + tail;
      KeyClassCons(head, tail, key, key(head));
      assert false;
    }
  }

  /** Putting back the last element of its group where it was taken out. */
  lemma Reinsert<T>(r: seq<T>, p: nat, rest: seq<T>, key: T -> int)
    requires SortedDesc(r, key) && p < |r| && rest == r[..p] + r[p + 1..]
    requires forall m :: p < m < |r| ==> key(r[m]) != key(r[p])
    ensures SortedDesc(rest, key)
    ensures Insert(rest, r[p], key) == r
  {
    RemoveAtSorted(r, p, rest, key);
    InsertAt(rest, r[p], p, key);
    PutBack(r, p, rest);
  }

  lemma PutBack<T>(r: seq<T>, p: nat, rest: seq<T>)
    requires p < |r| && rest == r[..p] + r[p + 1..]
    ensures rest[..p] + [r[p]] + rest[p..] == r
  {
    assert rest[..p] == r[..p];
    assert rest[p..] == r[p + 1..];
    assert r == r[..p] + [r[p]] + r[p + 1..];
  }

  /** Every sorted, stable rearrangement of `s` is `SortDesc(s)`: any stable
      sort the engine uses produces this same sequence. */
  lemma {:induction false} SortDescUnique<T>(s: seq<T>, r: seq<T>, key: T -> int)
    requires SortedDesc(r, key)
    requires StableWrt(r, s, key)
    ensures r == SortDesc(s, key)
    decreases |s|
  {
    if s == [] {
      StableOfEmpty(r, key);
    } else {
      var init, x := s[..|s| - 1], s[|s| - 1];
      assert s == init + [x];
      var p := RemoveLastOfGroup(init, x, r, key);
      var rest := r[..p] + r[p + 1..];
      Reinsert(r, p, rest, key);
      SortDescUnique(init, rest, key);
    }
  }

  /** Sorting a sorted result again changes nothing. */
  lemma SortDescIdempotent<T>(s: seq<T>, key: T -> int)
    ensures SortDesc(SortDesc(s, key), key) == SortDesc(s, key)
  {
    var r := SortDesc(s, key);
    SortDescSorted(s, key);
    SortDescUnique(r, r, key);
  }

  // ---------------------------------------------------------------------
  // The in-place sort the engine runs on the copied array

  /** One step of the insertion sort: with `a[..i]` already sorted, moves
      `a[i]` left past every element whose key is smaller than its own. */
  method InsertInPlace<T>(a: array<T>, i: nat, key: T -> int)
    requires i < a.Length
    requires SortedDesc(a[..i], key)
    modifies a
    ensures a[..i + 1] == Insert(old(a[..i]), old(a[i]), key)
    ensures a[i + 1..] == old(a[i + 1..])
  {
    ghost var sorted := a[..i];
    var x := a[i];
    var j := i;
    while j > 0 && key(a[j - 1]) < key(x)
      invariant 0 <= j <= i
      invariant forall m :: 0 <= m < j ==> a[m] == sorted[m]
      invariant forall m :: j < m <= i ==> a[m] == sorted[m - 1]
      invariant forall m :: j <= m < i ==> key(sorted[m]) < key(x)
      invariant forall m :: i < m < a.Length ==> a[m] == old(a[m])
    {
      a[j] := a[j - 1];
      j := j - 1;
    }
    a[j] := x;
    InsertAt(sorted, x, j, key);
    Shifted(a[..i + 1], sorted, x, j);
  }

  /** A sequence that agrees with `sorted` before `j`, holds `x` at `j` and
      `sorted` shifted one place right after `j` is `sorted` with `x`
      inserted at `j`. */
  lemma Shifted<T>(b: seq<T>, sorted: seq<T>, x: T, j: nat)
    requires |b| == |sorted| + 1 && j <= |sorted|
    requires forall m :: 0 <= m < j ==> b[m] == sorted[m]
    requires b[j] == x
    requires forall m :: j < m < |b| ==> b[m] == sorted[m - 1]
    ensures b == sorted[..j] + [x] + sorted[j..]
  {
    var c := sorted[..j] + [x] + sorted[j..];
    assert |c| == |b|;
    forall m | 0 <= m < |b|
      ensures b[m] == c[m]
    {
      if m < j {
        assert c[m] == sorted[m];
      } else if m > j {
        assert c[m] == sorted[m - 1];
      }
    }
  }

  /** Sorts `a` in place (a stable insertion sort) by descending key. */
  method SortInPlace<T>(a: array<T>, key: T -> int)
    modifies a
    ensures a[..] == SortDesc(old(a[..]), key)
  {
    ghost var s := a[..];
    var i := 0;
    while i < a.Length
      invariant 0 <= i <= a.Length
      invariant a[..i] == SortDesc(s[..i], key)
      invariant a[i..] == s[i..]
    {
      SortDescSorted(s[..i], key);
      InsertInPlace(a, i, key);
      assert s[..i + 1][..i] == s[..i];
      i := i + 1;
    }
    assert s[..a.Length] == s;
  }

  /** `[...s].sort(cmp)`: copies `s` into a fresh array and sorts the copy,
      leaving `s` itself as it was. */
  method SortedCopy<T>(s: seq<T>, key: T -> int) returns (r: seq<T>)
    ensures r == SortDesc(s, key)
  {
    var a := new T[|s|](i requires 0 <= i < |s| => s[i]);
    assert a[..] == s;
    SortInPlace(a, key);
    r := a[..];
  }
}
