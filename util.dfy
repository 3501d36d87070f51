/** The helpers of include/util.h: lower_bound, the Error combinator,
    concat_strings, the reduce_by/max_by folds and SortedVector. */
module Util {

  // === ordering of sequences by an integer key ===

  /** Keys never decrease along s (what std::lower_bound needs). */
  ghost predicate SortedBy<T>(s: seq<T>, key: T -> int) {
    forall a, b :: 0 <= a < b < |s| ==> key(s[a]) <= key(s[b])
  }

  /** Keys strictly increase along s: sorted and no key twice. */
  ghost predicate StrictlySortedBy<T>(s: seq<T>, key: T -> int) {
    forall a, b :: 0 <= a < b < |s| ==> key(s[a]) < key(s[b])
  }

  /** The position std::lower_bound finds: the first element whose key is not
      less than u (|s| when there is none). */
  function LowerBoundPos<T>(s: seq<T>, key: T -> int, u: int): (i: nat)
    ensures i <= |s|
    ensures forall j :: 0 <= j < i ==> key(s[j]) < u
    ensures i < |s| ==> key(s[i]) >= u
    ensures SortedBy(s, key) ==> forall j :: i <= j < |s| ==> key(s[j]) >= u
  {
    if |s| == 0 || key(s[0]) >= u then 0
    else 1 + LowerBoundPos(s[1..], key, u)
  }

  /** On a sorted sequence the two lower-bound properties fix the position. */
  lemma {:induction false} LowerBoundUnique<T>(s: seq<T>, key: T -> int, u: int, i: nat)
    requires i <= |s|
    requires forall j :: 0 <= j < i ==> key(s[j]) < u
    requires forall j :: i <= j < |s| ==> key(s[j]) >= u
    ensures i == LowerBoundPos(s, key, u)
  {
    if |s| > 0 && key(s[0]) < u {
      LowerBoundUnique(s[1..], key, u, i - 1);
    }
  }

  /** lower_bound: binary search for the first element whose key is not less
      than u. */
  method LowerBound<T>(s: seq<T>, key: T -> int, u: int) returns (i: nat)
    requires SortedBy(s, key)
    ensures i == LowerBoundPos(s, key, u)
    ensures i <= |s|
    ensures forall j :: 0 <= j < i ==> key(s[j]) < u
    ensures forall j :: i <= j < |s| ==> key(s[j]) >= u
  {
    var lo, hi := 0, |s|;
    while lo < hi
      invariant 0 <= lo <= hi <= |s|
      invariant forall j :: 0 <= j < lo ==> key(s[j]) < u
      invariant forall j :: hi <= j < |s| ==> key(s[j]) >= u
      decreases hi - lo
    {
      var mid := lo + (hi - lo) / 2;
      if key(s[mid]) < u {
        lo := mid + 1;
      } else {
        hi := mid;
      }
    }
    i := lo;
    LowerBoundUnique(s, key, u, i);
  }

  function InsertAt<T>(s: seq<T>, i: nat, v: T): (r: seq<T>)
    requires i <= |s|
    ensures |r| == |s| + 1 && r[i] == v
    ensures forall j {:trigger r[j]} :: 0 <= j < i ==> r[j] == s[j]
    ensures forall j :: i < j < |r| ==> r[j] == s[j - 1]
  {
    s[..i] + [v] + s[i..]
  }

  /** InsertAt adds exactly v to the elements. */
  lemma InsertAtMultiset<T>(s: seq<T>, i: nat, v: T)
    requires i <= |s|
    ensures multiset(InsertAt(s, i, v)) == multiset(s) + multiset{v}
  {
    assert s == s[..i] + s[i..];
  }

  function RemoveAt<T>(s: seq<T>, i: nat): (r: seq<T>)
    requires i < |s|
    ensures |r| == |s| - 1
    ensures forall j {:trigger r[j]} :: 0 <= j < i ==> r[j] == s[j]
    ensures forall j :: i <= j < |r| ==> r[j] == s[j + 1]
  {
    s[..i] + s[i + 1..]
  }

  /** RemoveAt takes exactly s[i] from the elements. */
  lemma RemoveAtMultiset<T>(s: seq<T>, i: nat)
    requires i < |s|
    ensures multiset(RemoveAt(s, i)) == multiset(s) - multiset{s[i]}
  {
    assert s == s[..i] + [s[i]] + s[i + 1..];
  }

  /** Inserting at the lower-bound position keeps a sorted sequence sorted. */
  lemma InsertAtLowerBoundSorted<T>(s: seq<T>, key: T -> int, v: T)
    requires SortedBy(s, key)
    ensures SortedBy(InsertAt(s, LowerBoundPos(s, key, key(v)), v), key)
  {
    var i := LowerBoundPos(s, key, key(v));
    var r := InsertAt(s, i, v);
    forall a, b | 0 <= a < b < |r| ensures key(r[a]) <= key(r[b]) {
      if b < i {
      } else if a > i {
        assert r[a] == s[a - 1] && r[b] == s[b - 1];
      } else if a == i {
      } else {
        assert a < i <= b;
      }
    }
  }

  /** Inserting a key that is absent at its lower-bound position keeps a
      strictly sorted sequence strictly sorted. */
  lemma InsertAtLowerBoundStrict<T>(s: seq<T>, key: T -> int, v: T)
    requires StrictlySortedBy(s, key)
    requires forall j :: 0 <= j < |s| ==> key(s[j]) != key(v)
    ensures StrictlySortedBy(InsertAt(s, LowerBoundPos(s, key, key(v)), v), key)
  {
    var r := InsertAt(s, LowerBoundPos(s, key, key(v)), v);
    forall a, b | 0 <= a < b < |r| ensures key(r[a]) < key(r[b]) {
      InsertedPairOrdered(s, key, v, a, b);
    }
  }

  /** One pair of positions of the sequence InsertAtLowerBoundStrict builds. */
  lemma InsertedPairOrdered<T>(s: seq<T>, key: T -> int, v: T, a: nat, b: nat)
    requires StrictlySortedBy(s, key)
    requires forall j :: 0 <= j < |s| ==> key(s[j]) != key(v)
    requires a < b <= |s|
    ensures var i := LowerBoundPos(s, key, key(v));
      key(InsertAt(s, i, v)[a]) < key(InsertAt(s, i, v)[b])
  {
    var i := LowerBoundPos(s, key, key(v));
    StrictlySortedIsSorted(s, key);
    var r := InsertAt(s, i, v);
    if b < i {
      assert r[a] == s[a] && r[b] == s[b];
    } else if a > i {
      assert r[a] == s[a - 1] && r[b] == s[b - 1];
    } else if a == i {
      assert r[a] == v && r[b] == s[b - 1];
      assert key(s[b - 1]) >= key(v) && key(s[b - 1]) != key(v);
    } else if b == i {
      assert r[a] == s[a] && r[b] == v;
    } else {
      assert r[a] == s[a] && r[b] == s[b - 1];
      assert key(s[a]) < key(v) <= key(s[b - 1]);
    }
  }

  lemma StrictlySortedIsSorted<T>(s: seq<T>, key: T -> int)
    requires StrictlySortedBy(s, key)
    ensures SortedBy(s, key)
  {
  }

  lemma RemoveAtSorted<T>(s: seq<T>, key: T -> int, i: nat)
    requires i < |s|
    requires StrictlySortedBy(s, key)
    ensures StrictlySortedBy(RemoveAt(s, i), key)
  {
    var r := RemoveAt(s, i);
    forall a, b | 0 <= a < b < |r| ensures key(r[a]) < key(r[b]) {
      if b < i {
      } else if a >= i {
        assert r[a] == s[a + 1] && r[b] == s[b + 1];
      } else {
        assert r[b] == s[b + 1];
      }
    }
  }

  /** In a strictly sorted sequence, the lower-bound position of a key that is
      present is the one element carrying it. */
  lemma LowerBoundFindsKey<T>(s: seq<T>, key: T -> int, j: nat)
    requires j < |s|
    requires StrictlySortedBy(s, key)
    ensures LowerBoundPos(s, key, key(s[j])) == j
  {
    LowerBoundUnique(s, key, key(s[j]), j);
  }

  // === misc ===

  /** concat_strings: the strings appended one after another. */
  function ConcatStrings(ss: seq<string>): (r: string)
    ensures |ss| == 0 ==> r == ""
    ensures |ss| == 1 ==> r == ss[0]
    ensures forall i :: 0 <= i < |ss| ==> |ss[i]| <= |r|
  {
    if |ss| == 0 then "" else ConcatStrings(ss[..|ss| - 1]) + ss[|ss| - 1]
  }

  /** Concatenation distributes over splitting the argument list. */
  lemma {:induction false} ConcatStringsAppend(a: seq<string>, b: seq<string>)
    ensures ConcatStrings(a + b) == ConcatStrings(a) + ConcatStrings(b)
  {
    if |b| == 0 {
      assert a + b == a;
    } else {
      var ab := a + b;
      var b' := b[..|b| - 1];
      assert ab[..|ab| - 1] == a + b';
      assert ab[|ab| - 1] == b[|b| - 1];
      assert ConcatStrings(ab) == ConcatStrings(a + b') + b[|b| - 1];
      ConcatStringsAppend(a, b');
      assert ConcatStrings(b) == ConcatStrings(b') + b[|b| - 1];
    }
  }

  /** The result of concat_strings is as long as its arguments together. */
  lemma {:induction false} ConcatStringsLength(ss: seq<string>)
    ensures |ConcatStrings(ss)| == SumOf(seq(|ss|, i requires 0 <= i < |ss| => |ss[i]|))
  {
    if |ss| > 0 {
      var init := ss[..|ss| - 1];
      ConcatStringsLength(init);
      var lens := seq(|ss|, i requires 0 <= i < |ss| => |ss[i]|);
      var initLens := seq(|init|, i requires 0 <= i < |init| => |init[i]|);
      assert lens == initLens + [|ss[|ss| - 1]|];
      SumOfAppend(initLens, [|ss[|ss| - 1]|]);
    }
  }

  // === errors ===

  /** struct Error: ok when built from no strings; the reason concatenates
      the strings it was built from. */
  datatype Error = Error(ok: bool, reason: string)

  function MakeError(strings: seq<string>): (e: Error)
    ensures e.ok <==> |strings| == 0
    ensures |strings| == 1 ==> e.reason == strings[0]
  {
    assert |strings| == 1 ==> strings[..0] == [];
    assert |strings| == 1 ==> ConcatStrings(strings) == ConcatStrings(strings[..0]) + strings[0];
    Error(|strings| == 0, ConcatStrings(strings))
  }

  /** operator&&: the first error that is not ok, otherwise the second. */
  function And(e: Error, e2: Error): (r: Error)
    ensures r.ok <==> e.ok && e2.ok
    ensures !e.ok ==> r == e
    ensures e.ok ==> r == e2
  {
    if !e.ok then e else e2
  }

  /** Chaining errors with && left to right: the result is the first error
      that is not ok, or the last one when all are ok. */
  function AndAll(es: seq<Error>): (r: Error)
    requires |es| > 0
    ensures r.ok <==> forall i :: 0 <= i < |es| ==> es[i].ok
    ensures r.ok ==> r == es[|es| - 1]
  {
    if |es| == 1 then es[0] else And(es[0], AndAll(es[1..]))
  }

  lemma {:induction false} AndAllFirstFailure(es: seq<Error>)
    requires |es| > 0
    ensures AndAll(es).ok <==> forall i :: 0 <= i < |es| ==> es[i].ok
    ensures forall i :: 0 <= i < |es| && !es[i].ok && (forall j :: 0 <= j < i ==> es[j].ok)
              ==> AndAll(es) == es[i]
    ensures (forall i :: 0 <= i < |es| ==> es[i].ok) ==> AndAll(es) == es[|es| - 1]
  {
    if |es| > 1 {
      AndAllFirstFailure(es[1..]);
      forall i | 0 <= i < |es| && !es[i].ok && (forall j :: 0 <= j < i ==> es[j].ok)
        ensures AndAll(es) == es[i]
      {
        if i > 0 {
          assert es[1..][i - 1] == es[i];
          assert forall j :: 0 <= j < i - 1 ==> es[1..][j] == es[j + 1];
        }
      }
    }
  }

  /** && is associative, so the grouping of a chain does not matter. */
  lemma AndAssociative(a: Error, b: Error, c: Error)
    ensures And(And(a, b), c) == And(a, And(b, c))
  {
  }

  // === folds ===

  function SumOf(s: seq<int>): int {
    if |s| == 0 then 0 else SumOf(s[..|s| - 1]) + s[|s| - 1]
  }

  lemma {:induction false} SumOfAppend(a: seq<int>, b: seq<int>)
    ensures SumOf(a + b) == SumOf(a) + SumOf(b)
  {
    if |b| == 0 {
      assert a + b == a;
    } else {
      assert (a + b)[..|a + b| - 1] == a + b[..|b| - 1];
      SumOfAppend(a, b[..|b| - 1]);
    }
  }

  function MapSeq<X>(c: seq<X>, f: X -> int): (r: seq<int>)
    ensures |r| == |c| && forall i :: 0 <= i < |c| ==> r[i] == f(c[i])
  {
    seq(|c|, i requires 0 <= i < |c| => f(c[i]))
  }

  /** reduce_by: init plus the transform of every element. */
  method ReduceBy<X>(c: seq<X>, init: int, transform: X -> int) returns (r: int)
    ensures r == init + SumOf(MapSeq(c, transform))
  {
    r := init;
    for i := 0 to |c|
      invariant r == init + SumOf(MapSeq(c[..i], transform))
    {
      assert MapSeq(c[..i + 1], transform) == MapSeq(c[..i], transform) + [transform(c[i])];
      SumOfAppend(MapSeq(c[..i], transform), [transform(c[i])]);
      r := r + transform(c[i]);
    }
    assert c[..|c|] == c;
  }

  /** max_by: the largest of init and the transform of every element. */
  method MaxBy<X>(c: seq<X>, init: int, transform: X -> int) returns (r: int)
    ensures r >= init
    ensures forall i :: 0 <= i < |c| ==> r >= transform(c[i])
    ensures r == init || exists i :: 0 <= i < |c| && r == transform(c[i])
  {
    r := init;
    for i := 0 to |c|
      invariant r >= init
      invariant forall j :: 0 <= j < i ==> r >= transform(c[j])
      invariant r == init || exists j :: 0 <= j < i && r == transform(c[j])
    {
      if r < transform(c[i]) {
        r := transform(c[i]);
      }
    }
  }

  // === SortedVector ===

  function Filter<T>(s: seq<T>, keep: T -> bool): (r: seq<T>)
    ensures |r| <= |s|
    ensures forall i :: 0 <= i < |r| ==> r[i] in s && keep(r[i])
    ensures forall i :: 0 <= i < |s| && keep(s[i]) ==> s[i] in r
  {
    if |s| == 0 then []
    else if keep(s[0]) then [s[0]] + Filter(s[1..], keep)
    else Filter(s[1..], keep)
  }

  /** Dropping elements keeps the order of those that stay. */
  lemma {:induction false} FilterSorted<T>(s: seq<T>, key: T -> int, keep: T -> bool)
    requires StrictlySortedBy(s, key)
    ensures StrictlySortedBy(Filter(s, keep), key)
    ensures forall x :: x in Filter(s, keep) ==> exists j :: 0 <= j < |s| && s[j] == x
  {
    if |s| > 0 {
      FilterSorted(s[1..], key, keep);
      if keep(s[0]) {
        FilterAbove(s[1..], key, keep, key(s[0]));
        ConsSorted(s[0], Filter(s[1..], keep), key);
      }
    }
  }

  /** What Filter keeps of keys above `lo` stays above `lo`. */
  lemma FilterAbove<T>(s: seq<T>, key: T -> int, keep: T -> bool, lo: int)
    requires forall i :: 0 <= i < |s| ==> lo < key(s[i])
    ensures forall i :: 0 <= i < |Filter(s, keep)| ==> lo < key(Filter(s, keep)[i])
  {
    var r := Filter(s, keep);
    forall i | 0 <= i < |r|
      ensures lo < key(r[i])
    {
      var j :| 0 <= j < |s| && s[j] == r[i];
    }
  }

  lemma ConsSorted<T>(x: T, rest: seq<T>, key: T -> int)
    requires StrictlySortedBy(rest, key)
    requires forall i :: 0 <= i < |rest| ==> key(x) < key(rest[i])
    ensures StrictlySortedBy([x] + rest, key)
  {
    var r := [x] + rest;
    forall a, b | 0 <= a < b < |r| ensures key(r[a]) < key(r[b]) {
      assert r[b] == rest[b - 1];
      if a > 0 {
        assert r[a] == rest[a - 1];
      }
    }
  }


  /** A vector kept sorted by key, with at most one element per key. Elements
      are ordered and compared by their key. */
  class SortedVector<T> {
    const key: T -> int
    var data: seq<T>

    ghost predicate Valid()
      reads this
    {
      StrictlySortedBy(data, key)
    }

    constructor (key: T -> int)
      ensures Valid() && this.key == key && data == []
    {
      this.key := key;
      data := [];
    }

    function Size(): (n: nat)
      reads this
      ensures n == |data|
    {
      |data|
    }

    function Get(i: nat): (v: T)
      reads this
      requires i < |data|
      ensures Valid() ==> forall j :: 0 <= j < i ==> key(data[j]) < key(v)
      ensures Valid() ==> forall j :: i < j < |data| ==> key(v) < key(data[j])
    {
      data[i]
    }

    function Back(): (v: T)
      reads this
      requires |data| > 0
      ensures v == data[|data| - 1]
    {
      data[|data| - 1]
    }

    /** find: the lower-bound position of u, and whether the element there
        has key u. */
    method Find(u: int) returns (pos: nat, found: bool)
      requires Valid()
      ensures pos == LowerBoundPos(data, key, u)
      ensures found <==> pos < |data| && key(data[pos]) == u
      ensures found <==> exists j :: 0 <= j < |data| && key(data[j]) == u
    {
      pos := LowerBound(data, key, u);
      found := pos < |data| && key(data[pos]) == u;
    }

    /** contains: the found half of find. */
    method Contains(u: int) returns (found: bool)
      requires Valid()
      ensures found <==> exists j :: 0 <= j < |data| && key(data[j]) == u
    {
      var _, f := Find(u);
      found := f;
    }

    method Clear()
      modifies this
      ensures data == [] && Valid()
    {
      data := [];
    }

    /** push_back does not check the order: keeping the vector sorted is the
        caller's duty. */
    method PushBack(v: T)
      requires Valid()
      requires |data| == 0 || key(data[|data| - 1]) < key(v)
      modifies this
      ensures data == old(data) + [v] && Valid()
    {
      data := data + [v];
    }

    method PopBack()
      requires Valid() && |data| > 0
      modifies this
      ensures data == old(data)[..|old(data)| - 1] && Valid()
    {
      data := data[..|data| - 1];
    }

    /** emplace: inserts at a position chosen by the caller. */
    method Emplace(pos: nat, v: T)
      requires Valid() && pos <= |data|
      requires StrictlySortedBy(InsertAt(data, pos, v), key)
      modifies this
      ensures data == InsertAt(old(data), pos, v) && Valid()
    {
      data := InsertAt(data, pos, v);
    }

    /** erase_if: drops every element satisfying pred, returning how many. */
    method EraseIf(pred: T -> bool) returns (count: nat)
      requires Valid()
      modifies this
      ensures data == Filter(old(data), x => !pred(x)) && Valid()
      ensures count == |old(data)| - |data|
    {
      FilterSorted(data, key, x => !pred(x));
      var kept := Filter(data, x => !pred(x));
      count := |data| - |kept|;
      data := kept;
    }

    /** insert_if_not_present: inserts u at its lower-bound position unless an
        element with its key is there; says whether it inserted. */
    method InsertIfNotPresent(u: T) returns (pos: nat, inserted: bool)
      requires Valid()
      modifies this
      ensures Valid()
      ensures pos == LowerBoundPos(old(data), key, key(u))
      ensures inserted <==> forall j :: 0 <= j < |old(data)| ==> key(old(data)[j]) != key(u)
      ensures inserted ==> data == InsertAt(old(data), pos, u)
      ensures !inserted ==> data == old(data)
      ensures pos < |data| && key(data[pos]) == key(u)
    {
      var found;
      pos, found := Find(key(u));
      if !found {
        InsertAtLowerBoundStrict(data, key, u);
        data := InsertAt(data, pos, u);
      }
      inserted := !found;
    }

    /** insert_or_update: inserts u when its key is absent, otherwise
        overwrites the element with that key in place. */
    method InsertOrUpdate(u: T) returns (pos: nat)
      requires Valid()
      modifies this
      ensures Valid()
      ensures pos == LowerBoundPos(old(data), key, key(u))
      ensures (forall j :: 0 <= j < |old(data)| ==> key(old(data)[j]) != key(u))
                ==> data == InsertAt(old(data), pos, u)
      ensures (exists j :: 0 <= j < |old(data)| && key(old(data)[j]) == key(u))
                ==> pos < |old(data)| && data == old(data)[pos := u]
    {
      var inserted;
      pos, inserted := InsertIfNotPresent(u);
      if !inserted {
        data := data[pos := u];
      }
    }

    /** update: overwrites the element with u's key, if there is one. */
    method Update(u: T) returns (pos: nat, found: bool)
      requires Valid()
      modifies this
      ensures Valid()
      ensures pos == LowerBoundPos(old(data), key, key(u))
      ensures found <==> exists j :: 0 <= j < |old(data)| && key(old(data)[j]) == key(u)
      ensures found ==> data == old(data)[pos := u]
      ensures !found ==> data == old(data)
    {
      pos, found := Find(key(u));
      if found {
        data := data[pos := u];
      }
    }

    method Erase(pos: nat)
      requires Valid() && pos < |data|
      modifies this
      ensures data == RemoveAt(old(data), pos) && Valid()
    {
      RemoveAtSorted(data, key, pos);
      data := RemoveAt(data, pos);
    }

    /** find_erase: removes the element with key u, if there is one. */
    method FindErase(u: int)
      requires Valid()
      modifies this
      ensures Valid()
      ensures (exists j :: 0 <= j < |old(data)| && key(old(data)[j]) == u)
                ==> data == RemoveAt(old(data), LowerBoundPos(old(data), key, u))
      ensures (forall j :: 0 <= j < |old(data)| ==> key(old(data)[j]) != u)
                ==> data == old(data)
    {
      var pos, found := Find(u);
      if found {
        Erase(pos);
      }
    }
  }

  /** insert_or_update on a key that is present: the element with that key
      becomes u, every other element stays, the order is kept. */
  lemma UpdateInPlaceContents<T>(s: seq<T>, key: T -> int, u: T, i: nat)
    requires StrictlySortedBy(s, key)
    requires i < |s| && key(s[i]) == key(u)
    ensures StrictlySortedBy(s[i := u], key)
    ensures forall j :: 0 <= j < |s| && key(s[j]) != key(u) ==> s[j] in s[i := u]
    ensures forall j :: 0 <= j < |s| && j != i ==> key(s[j]) != key(u)
  {
    var r := s[i := u];
    forall j | 0 <= j < |s| && key(s[j]) != key(u) ensures s[j] in r {
      assert r[j] == s[j];
    }
  }

  /** insert_or_update on an absent key: the size grows by one, u is present,
      every old element stays, the order is kept. */
  lemma InsertAbsentContents<T>(s: seq<T>, key: T -> int, u: T)
    requires StrictlySortedBy(s, key)
    requires forall j :: 0 <= j < |s| ==> key(s[j]) != key(u)
    ensures var r := InsertAt(s, LowerBoundPos(s, key, key(u)), u);
            StrictlySortedBy(r, key) && |r| == |s| + 1 && u in r
            && forall j :: 0 <= j < |s| ==> s[j] in r
  {
    InsertAtLowerBoundStrict(s, key, u);
    var i := LowerBoundPos(s, key, key(u));
    var r := InsertAt(s, i, u);
    forall j | 0 <= j < |s| ensures s[j] in r {
      if j < i { assert r[j] == s[j]; } else { assert r[j + 1] == s[j]; }
    }
  }
}
