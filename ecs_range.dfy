/** The merge-join iterator of ecs.h (ConstComponentRange and, with the same
    algorithm, ComponentRange): one cursor per requested store, all advanced
    until they point at the same entity id. */
module EcsRange {
  import opened Util
  import opened Ecs

  /** x has an entry in each of the first n stores. */
  ghost predicate InFirst<T>(stores: seq<Store<T>>, x: nat, n: nat)
    requires n <= |stores|
  {
    n == 0 || (HasId(stores[n - 1], x) && InFirst(stores, x, n - 1))
  }

  /** x has an entry in every store. */
  ghost predicate InAll<T>(stores: seq<Store<T>>, x: nat) {
    InFirst(stores, x, |stores|)
  }

  lemma {:induction false} InFirstMeans<T>(stores: seq<Store<T>>, x: nat, n: nat)
    requires n <= |stores|
    ensures InFirst(stores, x, n) <==> forall i :: 0 <= i < n ==> HasId(stores[i], x)
  {
    if n > 0 {
      InFirstMeans(stores, x, n - 1);
    }
  }

  /** What InAll means: an entry in each store. */
  lemma InAllMeans<T>(stores: seq<Store<T>>, x: nat)
    ensures InAll(stores, x) <==> forall i :: 0 <= i < |stores| ==> HasId(stores[i], x)
  {
    InFirstMeans(stores, x, |stores|);
  }

  ghost predicate CursorsInRange<T>(stores: seq<Store<T>>, cursors: seq<nat>) {
    |cursors| == |stores| && forall i :: 0 <= i < |stores| ==> cursors[i] <= |stores[i]|
  }

  /** No entry the cursors have moved past carries an id at least lo that is
      present in every store. */
  ghost predicate Skipped<T>(stores: seq<Store<T>>, cursors: seq<nat>, lo: nat)
    requires CursorsInRange(stores, cursors)
  {
    forall i, j :: 0 <= i < |stores| && 0 <= j < cursors[i] && stores[i][j].id >= lo
      ==> !InAll(stores, stores[i][j].id)
  }

  /** Every cursor not at its end points at an id at least lo. */
  ghost predicate Ahead<T>(stores: seq<Store<T>>, cursors: seq<nat>, lo: nat)
    requires CursorsInRange(stores, cursors)
  {
    forall i :: 0 <= i < |stores| && cursors[i] < |stores[i]| ==> stores[i][cursors[i]].id >= lo
  }

  /** The entries the cursors still have ahead of them. */
  ghost function Remaining<T>(stores: seq<Store<T>>, cursors: seq<nat>, n: nat): nat
    requires CursorsInRange(stores, cursors) && n <= |stores|
  {
    if n == 0 then 0 else Remaining(stores, cursors, n - 1) + |stores[n - 1]| - cursors[n - 1]
  }

  lemma {:induction false} RemainingShrinks<T>(stores: seq<Store<T>>, c: seq<nat>, c': seq<nat>, n: nat)
    requires CursorsInRange(stores, c) && CursorsInRange(stores, c') && n <= |stores|
    requires forall i :: 0 <= i < |stores| ==> c[i] <= c'[i]
    ensures Remaining(stores, c', n) <= Remaining(stores, c, n)
    ensures (exists i :: 0 <= i < n && c[i] < c'[i]) ==> Remaining(stores, c', n) < Remaining(stores, c, n)
  {
    if n > 0 {
      RemainingShrinks(stores, c, c', n - 1);
    }
  }

  /** An id below what a cursor points at, and not below lo, is missing from
      some store: otherwise that cursor would have skipped it. */
  lemma NotCommonBelowCursor<T>(stores: seq<Store<T>>, cursors: seq<nat>, lo: nat, k: nat, x: nat)
    requires CursorsInRange(stores, cursors) && Skipped(stores, cursors, lo)
    requires forall i :: 0 <= i < |stores| ==> StrictlySortedBy(stores[i], IdKey)
    requires k < |stores| && cursors[k] < |stores[k]|
    requires lo <= x < stores[k][cursors[k]].id
    ensures !InAll(stores, x)
  {
    forall j | 0 <= j < |stores[k]| && stores[k][j].id == x ensures j < cursors[k] {
    }
    InAllMeans(stores, x);
  }

  /** Once some cursor is at its end, no id from lo up is in every store. */
  lemma NoCommonAfterEnd<T>(stores: seq<Store<T>>, cursors: seq<nat>, lo: nat, k: nat)
    requires CursorsInRange(stores, cursors) && Skipped(stores, cursors, lo)
    requires k < |stores| && cursors[k] == |stores[k]|
    ensures forall x :: x >= lo ==> !InAll(stores, x)
  {
    forall x | x >= lo ensures !InAll(stores, x) {
      InAllMeans(stores, x);
    }
  }

  /** One CatchUp round keeps the cursors' invariants: every cursor it steps
      pointed below m0, the id some cursor points at, so the entry it steps
      over is not common. */
  lemma RoundKeepsInvariants<T>(stores: seq<Store<T>>, c0: seq<nat>, c1: seq<nat>, lo: nat, m0: nat, k: nat)
    requires forall i :: 0 <= i < |stores| ==> StrictlySortedBy(stores[i], IdKey)
    requires CursorsInRange(stores, c0) && CursorsInRange(stores, c1)
    requires Skipped(stores, c0, lo) && Ahead(stores, c0, lo)
    requires forall j :: 0 <= j < |stores| ==> c0[j] < |stores[j]|
    requires k < |stores| && stores[k][c0[k]].id == m0
    requires forall j :: 0 <= j < |stores| ==>
               c1[j] == if stores[j][c0[j]].id < m0 then c0[j] + 1 else c0[j]
    ensures Skipped(stores, c1, lo) && Ahead(stores, c1, lo)
  {
    forall i, j | 0 <= i < |stores| && 0 <= j < c1[i] && stores[i][j].id >= lo
      ensures !InAll(stores, stores[i][j].id)
    {
      if j == c0[i] {
        NotCommonBelowCursor(stores, c0, lo, k, stores[i][j].id);
      }
    }
    forall i | 0 <= i < |stores| && c1[i] < |stores[i]| ensures stores[i][c1[i]].id >= lo {
      if c1[i] != c0[i] {
        assert IdKey(stores[i][c0[i]]) < IdKey(stores[i][c1[i]]);
      }
    }
  }

  /** What IncrementIfLower reports for cursor j: the id it points at, or
      the id it compared against when it is at the end. */
  function Reported<T>(stores: seq<Store<T>>, c: seq<nat>, j: nat, m0: nat): nat
    requires CursorsInRange(stores, c) && j < |stores|
  {
    if c[j] == |stores[j]| then m0 else stores[j][c[j]].id
  }

  /** Stepping cursor i leaves what the cursors before it report. */
  lemma ReportedBelowKept<T>(stores: seq<Store<T>>, c: seq<nat>, c': seq<nat>, i: nat, m0: nat)
    requires CursorsInRange(stores, c) && CursorsInRange(stores, c') && i <= |stores|
    requires forall j :: 0 <= j < i ==> c'[j] == c[j]
    ensures forall j :: 0 <= j < i ==> Reported(stores, c', j, m0) == Reported(stores, c, j, m0)
  {
  }

  /** After a round with no cursor at its end, the new maximum is the largest
      id the cursors point at, and one of them points at it. */
  lemma RoundMaximum<T>(stores: seq<Store<T>>, c1: seq<nat>, m0: nat, m: nat)
    requires CursorsInRange(stores, c1) && |stores| > 0
    requires forall j :: 0 <= j < |stores| ==> Reported(stores, c1, j, m0) <= m
    requires exists j :: 0 <= j < |stores| && Reported(stores, c1, j, m0) == m
    requires forall j :: 0 <= j < |stores| ==> c1[j] < |stores[j]|
    ensures forall j :: 0 <= j < |stores| ==> stores[j][c1[j]].id <= m
    ensures exists j :: 0 <= j < |stores| && stores[j][c1[j]].id == m
  {
    var j :| 0 <= j < |stores| && Reported(stores, c1, j, m0) == m;
    assert stores[j][c1[j]].id == m;
    forall j | 0 <= j < |stores| ensures stores[j][c1[j]].id <= m {
      assert Reported(stores, c1, j, m0) <= m;
    }
  }

  /** Everything a CatchUp round establishes, stated on the cursors before
      (c0) and after (c1) it. */
  lemma RoundPost<T>(stores: seq<Store<T>>, c0: seq<nat>, c1: seq<nat>, lo: nat, m0: nat, m: nat, k: nat, i0: nat)
    requires |stores| > 0
    requires forall i :: 0 <= i < |stores| ==> StrictlySortedBy(stores[i], IdKey)
    requires CursorsInRange(stores, c0) && CursorsInRange(stores, c1)
    requires Skipped(stores, c0, lo) && Ahead(stores, c0, lo)
    requires forall j :: 0 <= j < |stores| ==> c0[j] < |stores[j]|
    requires k < |stores| && stores[k][c0[k]].id == m0
    requires i0 < |stores| && stores[i0][c0[i0]].id != m0
    requires forall j :: 0 <= j < |stores| ==> stores[j][c0[j]].id <= m0
    requires forall j :: 0 <= j < |stores| ==>
               c1[j] == if stores[j][c0[j]].id < m0 then c0[j] + 1 else c0[j]
    requires forall j :: 0 <= j < |stores| ==> Reported(stores, c1, j, m0) <= m
    requires exists j :: 0 <= j < |stores| && Reported(stores, c1, j, m0) == m
    ensures Skipped(stores, c1, lo) && Ahead(stores, c1, lo)
    ensures Remaining(stores, c1, |stores|) < Remaining(stores, c0, |stores|)
    ensures (forall j :: 0 <= j < |stores| ==> c1[j] < |stores[j]|) ==>
              && (forall j :: 0 <= j < |stores| ==> stores[j][c1[j]].id <= m)
              && exists j :: 0 <= j < |stores| && stores[j][c1[j]].id == m
  {
    RoundKeepsInvariants(stores, c0, c1, lo, m0, k);
    RemainingShrinks(stores, c0, c1, |stores|);
    assert c0[i0] < c1[i0];
    if forall j :: 0 <= j < |stores| ==> c1[j] < |stores[j]| {
      RoundMaximum(stores, c1, m0, m);
    }
  }

  /** Putting every cursor at its end once one is there: nothing common is
      left from lo up. */
  lemma AllAtEndPost<T>(stores: seq<Store<T>>, c0: seq<nat>, c1: seq<nat>, lo: nat, k: nat)
    requires CursorsInRange(stores, c0) && Skipped(stores, c0, lo)
    requires k < |stores| && c0[k] == |stores[k]|
    requires |c1| == |stores| && forall i :: 0 <= i < |stores| ==> c1[i] == |stores[i]|
    ensures CursorsInRange(stores, c1) && Skipped(stores, c1, lo) && Ahead(stores, c1, lo)
    ensures Remaining(stores, c1, |stores|) <= Remaining(stores, c0, |stores|)
    ensures forall x :: x >= lo ==> !InAll(stores, x)
    ensures c1[k] == |stores[k]|
  {
    NoCommonAfterEnd(stores, c0, lo, k);
    RemainingShrinks(stores, c0, c1, |stores|);
  }

  /** Cursors that all point at m, with nothing common skipped from lo up:
      m is the smallest common id from lo up. */
  lemma AllSamePost<T>(stores: seq<Store<T>>, c: seq<nat>, lo: nat, m: nat)
    requires |stores| > 0
    requires forall i :: 0 <= i < |stores| ==> StrictlySortedBy(stores[i], IdKey)
    requires CursorsInRange(stores, c) && Skipped(stores, c, lo) && Ahead(stores, c, lo)
    requires forall i :: 0 <= i < |stores| ==> c[i] < |stores[i]| && stores[i][c[i]].id == m
    ensures m >= lo && InAll(stores, m)
    ensures forall x :: lo <= x < m ==> !InAll(stores, x)
  {
    forall i | 0 <= i < |stores| ensures HasId(stores[i], m) {
      assert stores[i][c[i]].id == m;
    }
    InAllMeans(stores, m);
    forall x | lo <= x < m ensures !InAll(stores, x) {
      NotCommonBelowCursor(stores, c, lo, 0, x);
    }
  }

  /** Stepping every cursor past the common id m keeps the invariants with
      lo raised to m + 1. */
  lemma StepKeepsInvariants<T>(stores: seq<Store<T>>, c0: seq<nat>, c1: seq<nat>, lo: nat, m: nat)
    requires forall i :: 0 <= i < |stores| ==> StrictlySortedBy(stores[i], IdKey)
    requires CursorsInRange(stores, c0) && CursorsInRange(stores, c1)
    requires Skipped(stores, c0, lo) && lo <= m
    requires forall j :: 0 <= j < |stores| ==> c0[j] < |stores[j]| && stores[j][c0[j]].id == m
    requires forall j :: 0 <= j < |stores| ==> c1[j] == c0[j] + 1
    ensures Skipped(stores, c1, m + 1) && Ahead(stores, c1, m + 1)
  {
    forall i | 0 <= i < |stores| && c1[i] < |stores[i]| ensures stores[i][c1[i]].id >= m + 1 {
      assert IdKey(stores[i][c0[i]]) < IdKey(stores[i][c1[i]]);
    }
  }

  /** An iterator over the given stores. */
  class ComponentIterator<T> {
    const stores: seq<Store<T>>
    var cursors: seq<nat>
    var maxId: nat
    /** Every common id below lo has been visited already. */
    ghost var lo: nat

    ghost predicate Valid()
      reads this
    {
      && |stores| > 0
      && (forall i :: 0 <= i < |stores| ==> StrictlySortedBy(stores[i], IdKey))
      && CursorsInRange(stores, cursors)
      && Skipped(stores, cursors, lo)
      && Ahead(stores, cursors, lo)
    }

    function AnyAtEnd(): (b: bool)
      reads this
      requires |cursors| == |stores|
    {
      exists i :: 0 <= i < |stores| && cursors[i] == |stores[i]|
    }

    function AllSame(): (b: bool)
      reads this
      requires CursorsInRange(stores, cursors) && !AnyAtEnd()
    {
      forall i :: 0 <= i < |stores| ==> stores[i][cursors[i]].id == maxId
    }

    /** Between steps: either every cursor is at its end and no common id is
        left, or all cursors point at maxId, the smallest common id not yet
        visited. */
    ghost predicate Positioned()
      reads this
    {
      && Valid()
      && (AnyAtEnd() ==>
            && (forall i :: 0 <= i < |stores| ==> cursors[i] == |stores[i]|)
            && forall x :: x >= lo ==> !InAll(stores, x))
      && (!AnyAtEnd() ==>
            && AllSame()
            && maxId >= lo
            && InAll(stores, maxId)
            && forall x :: lo <= x < maxId ==> !InAll(stores, x))
    }

    ghost function Left(): nat
      reads this
      requires CursorsInRange(stores, cursors)
    {
      Remaining(stores, cursors, |stores|)
    }

    /** begin(): every cursor at the start of its store, then caught up. */
    constructor Begin(stores: seq<Store<T>>)
      requires |stores| > 0
      requires forall i :: 0 <= i < |stores| ==> StrictlySortedBy(stores[i], IdKey)
      ensures Positioned() && this.stores == stores && lo == 0
    {
      this.stores := stores;
      cursors := seq(|stores|, _ => 0);
      maxId := NotAnId;
      lo := 0;
      new;
      CatchUp();
    }

    /** end(): every cursor at the end of its store. */
    constructor End(stores: seq<Store<T>>)
      requires |stores| > 0
      requires forall i :: 0 <= i < |stores| ==> StrictlySortedBy(stores[i], IdKey)
      ensures this.stores == stores && CursorsInRange(stores, cursors) && AnyAtEnd()
      ensures forall i :: 0 <= i < |stores| ==> cursors[i] == |stores[i]|
    {
      this.stores := stores;
      cursors := seq(|stores|, i requires 0 <= i < |stores| => |stores[i]|);
      maxId := NotAnId;
      lo := 0;
      new;
      assert cursors[0] == |stores[0]|;
    }

    /** IncrementIfLower: step cursor i once if it points below id; report the
        id it then points at, or id itself at the end. */
    method IncrementIfLower(i: nat, id: nat) returns (v: nat)
      requires CursorsInRange(stores, cursors) && i < |stores|
      modifies this
      ensures CursorsInRange(stores, cursors)
      ensures (old(cursors[i]) < |stores[i]| && stores[i][old(cursors[i])].id < id) ==>
                cursors == old(cursors)[i := old(cursors[i]) + 1]
      ensures !(old(cursors[i]) < |stores[i]| && stores[i][old(cursors[i])].id < id) ==>
                cursors == old(cursors)
      ensures v == if cursors[i] == |stores[i]| then id else stores[i][cursors[i]].id
      ensures maxId == old(maxId) && lo == old(lo)
    {
      if cursors[i] != |stores[i]| && stores[i][cursors[i]].id < id {
        cursors := cursors[i := cursors[i] + 1];
      }
      v := if cursors[i] == |stores[i]| then id else stores[i][cursors[i]].id;
    }

    /** The std::max over IncrementIfLower of every cursor, all against the
        same id m0. */
    method IncrementAllIfLower(m0: nat) returns (m: nat)
      requires CursorsInRange(stores, cursors)
      requires forall j :: 0 <= j < |stores| ==> cursors[j] < |stores[j]|
      modifies this
      ensures CursorsInRange(stores, cursors) && lo == old(lo) && maxId == old(maxId)
      ensures forall j :: 0 <= j < |stores| ==>
                cursors[j] == if stores[j][old(cursors)[j]].id < m0 then old(cursors)[j] + 1 else old(cursors)[j]
      ensures |stores| > 0 ==> forall j :: 0 <= j < |stores| ==> Reported(stores, cursors, j, m0) <= m
      ensures |stores| > 0 ==> exists j :: 0 <= j < |stores| && Reported(stores, cursors, j, m0) == m
    {
      var n := |stores|;
      ghost var c0 := cursors;
      ghost var w := 0;
      m := 0;
      for i := 0 to n
        invariant CursorsInRange(stores, cursors) && lo == old(lo) && maxId == old(maxId)
        invariant forall j :: i <= j < n ==> cursors[j] == c0[j]
        invariant forall j :: 0 <= j < i ==>
                    cursors[j] == if stores[j][c0[j]].id < m0 then c0[j] + 1 else c0[j]
        invariant i > 0 ==> forall j :: 0 <= j < i ==> Reported(stores, cursors, j, m0) <= m
        invariant i > 0 ==> w < i && Reported(stores, cursors, w, m0) == m
      {
        ghost var before := cursors;
        var v := IncrementIfLower(i, m0);
        ReportedBelowKept(stores, before, cursors, i, m0);
        if i == 0 || v > m {
          m, w := v, i;
        }
      }
    }

    /** One round of the CatchUp loop: every cursor below maxId steps once,
        and maxId becomes the largest reported id. */
    method CatchUpRound(ghost k: nat, ghost i0: nat)
      requires Valid() && !AnyAtEnd()
      requires forall i :: 0 <= i < |stores| ==> stores[i][cursors[i]].id <= maxId
      requires k < |stores| && stores[k][cursors[k]].id == maxId
      requires i0 < |stores| && stores[i0][cursors[i0]].id != maxId
      modifies this
      ensures Valid() && lo == old(lo)
      ensures Left() < old(Left())
      ensures !AnyAtEnd() ==>
                && (forall i :: 0 <= i < |stores| ==> stores[i][cursors[i]].id <= maxId)
                && exists k :: 0 <= k < |stores| && stores[k][cursors[k]].id == maxId
    {
      ghost var c0 := cursors;
      var m0 := maxId;
      var m := IncrementAllIfLower(m0);
      maxId := m;
      RoundPost(stores, c0, cursors, lo, m0, m, k, i0);
    }

    /** The std::max over the ids the cursors point at. */
    method MaxCurrent() returns (m: nat)
      requires CursorsInRange(stores, cursors) && |stores| > 0
      requires forall i :: 0 <= i < |stores| ==> cursors[i] < |stores[i]|
      ensures forall i :: 0 <= i < |stores| ==> stores[i][cursors[i]].id <= m
      ensures exists i :: 0 <= i < |stores| && stores[i][cursors[i]].id == m
    {
      m := stores[0][cursors[0]].id;
      for i := 1 to |stores|
        invariant forall j :: 0 <= j < i ==> stores[j][cursors[j]].id <= m
        invariant exists j :: 0 <= j < i && stores[j][cursors[j]].id == m
      {
        if stores[i][cursors[i]].id > m {
          m := stores[i][cursors[i]].id;
        }
      }
    }

    /** CatchUp: after initialisation or a step, advance the cursors that are
        behind until all agree or one reaches its end. */
    method CatchUp()
      requires Valid()
      modifies this
      ensures Positioned() && lo == old(lo)
      ensures Left() <= old(Left())
    {
      if !AnyAtEnd() {
        maxId := MaxCurrent();
      }
      CatchUpLoop();
      Settle();
    }

    /** The while loop of CatchUp. */
    method CatchUpLoop()
      requires Valid()
      requires !AnyAtEnd() ==>
                 && (forall i :: 0 <= i < |stores| ==> stores[i][cursors[i]].id <= maxId)
                 && exists k :: 0 <= k < |stores| && stores[k][cursors[k]].id == maxId
      modifies this
      ensures Valid() && lo == old(lo) && Left() <= old(Left())
      ensures AnyAtEnd() || AllSame()
    {
      var n := |stores|;
      while !AnyAtEnd() && !AllSame()
        invariant Valid() && lo == old(lo) && Left() <= old(Left())
        invariant !AnyAtEnd() ==>
                    && (forall i :: 0 <= i < n ==> stores[i][cursors[i]].id <= maxId)
                    && exists k :: 0 <= k < n && stores[k][cursors[k]].id == maxId
        decreases Left()
      {
        ghost var k :| 0 <= k < n && stores[k][cursors[k]].id == maxId;
        ghost var i0 :| 0 <= i0 < n && stores[i0][cursors[i0]].id != maxId;
        CatchUpRound(k, i0);
      }
    }

    /** The end of CatchUp: once one cursor is at its end, all are put there. */
    method Settle()
      requires Valid() && (AnyAtEnd() || AllSame())
      modifies this
      ensures Positioned() && lo == old(lo) && Left() <= old(Left())
    {
      var n := |stores|;
      if AnyAtEnd() {
        ghost var k :| 0 <= k < n && cursors[k] == |stores[k]|;
        ghost var c0 := cursors;
        cursors := seq(n, i requires 0 <= i < n => |stores[i]|);
        AllAtEndPost(stores, c0, cursors, lo, k);
      } else {
        AllSamePost(stores, cursors, lo, maxId);
      }
    }

    /** operator++: step every cursor once, then catch up. */
    method Increment()
      requires Positioned()
      modifies this
      ensures Positioned()
      ensures old(AnyAtEnd()) ==> cursors == old(cursors) && lo == old(lo)
      ensures !old(AnyAtEnd()) ==> lo == old(maxId) + 1 && Left() < old(Left())
    {
      if !AnyAtEnd() {
        var n := |stores|;
        var c0 := cursors;
        cursors := seq(n, i requires 0 <= i < n => c0[i] + 1);
        StepKeepsInvariants(stores, c0, cursors, lo, maxId);
        lo := maxId + 1;
        RemainingShrinks(stores, c0, cursors, n);
        assert c0[0] < cursors[0];
        CatchUp();
      }
    }

    /** operator*: the shared id and the data of each store at its cursor. */
    method Deref() returns (id: nat, data: seq<T>)
      requires Positioned() && !AnyAtEnd()
      ensures id == maxId && InAll(stores, id) && |data| == |stores|
      ensures forall i :: 0 <= i < |stores| ==> ComponentData(id, data[i]) in stores[i]
    {
      id := maxId;
      var c := cursors;
      data := seq(|stores|, i requires 0 <= i < |stores| => stores[i][c[i]].data);
      assert forall i :: 0 <= i < |stores| ==> ComponentData(id, data[i]) == stores[i][cursors[i]];
    }

    /** operator==: both at an end, or the same cursors. */
    function Equals(other: ComponentIterator<T>): bool
      reads this, other
      requires |cursors| == |stores| && |other.cursors| == |other.stores|
    {
      (AnyAtEnd() && other.AnyAtEnd()) || cursors == other.cursors
    }
  }

  /** Comparing with end() is asking whether some cursor is at its end. */
  lemma EqualsEndIffAtEnd<T>(it: ComponentIterator<T>, end: ComponentIterator<T>)
    requires |it.stores| > 0 && end.stores == it.stores
    requires CursorsInRange(it.stores, it.cursors) && CursorsInRange(end.stores, end.cursors)
    requires forall i :: 0 <= i < |end.stores| ==> end.cursors[i] == |end.stores[i]|
    ensures it.Equals(end) <==> it.AnyAtEnd()
  {
    if it.cursors == end.cursors {
      assert it.cursors[0] == |it.stores[0]|;
    }
    assert end.cursors[0] == |end.stores[0]|;
  }

  /** ReadAll: an iterator over the stores of the requested kinds, positioned
      at the first entity they share. */
  method ReadAll<T>(ecs: EntityComponentSystem<T>, ks: seq<nat>) returns (it: ComponentIterator<T>)
    requires ecs.Valid() && |ks| > 0
    requires forall i :: 0 <= i < |ks| ==> ks[i] < ecs.kinds
    requires forall i :: 0 <= i < |ks| ==> StrictlySortedBy(ecs.stores[ks[i]], IdKey)
    ensures fresh(it) && it.Positioned() && it.lo == 0
    ensures |it.stores| == |ks| && forall i :: 0 <= i < |ks| ==> it.stores[i] == ecs.stores[ks[i]]
  {
    var all := ecs.stores;
    var stores := seq(|ks|, i requires 0 <= i < |ks| => all[ks[i]]);
    it := new ComponentIterator.Begin(stores);
  }

  /** The entries a loop over the range has visited once it has reached lo:
      each common id below lo once, ascending, with its data from every
      store. */
  ghost predicate Emitted<T>(stores: seq<Store<T>>, out: seq<(nat, seq<T>)>, lo: nat) {
    && (forall k :: 0 <= k < |out| ==>
          && InAll(stores, out[k].0) && out[k].0 < lo && |out[k].1| == |stores|
          && forall i :: 0 <= i < |stores| ==> ComponentData(out[k].0, out[k].1[i]) in stores[i])
    && (forall k, k' :: 0 <= k < k' < |out| ==> out[k].0 < out[k'].0)
    && (forall x: nat :: InAll(stores, x) && x < lo ==> exists k :: 0 <= k < |out| && out[k].0 == x)
  }

  /** Visiting the smallest common id from lo up extends what was visited. */
  lemma EmitStep<T>(stores: seq<Store<T>>, out: seq<(nat, seq<T>)>, lo: nat, id: nat, data: seq<T>)
    requires Emitted(stores, out, lo)
    requires InAll(stores, id) && id >= lo
    requires forall x :: lo <= x < id ==> !InAll(stores, x)
    requires |data| == |stores|
    requires forall i :: 0 <= i < |stores| ==> ComponentData(id, data[i]) in stores[i]
    ensures Emitted(stores, out + [(id, data)], id + 1)
  {
    var out' := out + [(id, data)];
    forall x: nat | InAll(stores, x) && x < id + 1 ensures exists k :: 0 <= k < |out'| && out'[k].0 == x {
      if x == id {
        assert out'[|out|].0 == x;
      } else {
        var k :| 0 <= k < |out| && out[k].0 == x;
        assert out'[k].0 == x;
      }
    }
  }

  /** Once nothing common is left from lo up, every common id was visited. */
  lemma EmittedComplete<T>(stores: seq<Store<T>>, out: seq<(nat, seq<T>)>, lo: nat)
    requires Emitted(stores, out, lo)
    requires forall x :: x >= lo ==> !InAll(stores, x)
    ensures forall x: nat :: InAll(stores, x) ==> exists k :: 0 <= k < |out| && out[k].0 == x
  {
  }

  /** A range-based for over ReadAll of the given stores: the visited entities
      are exactly those with an entry in every store, once each, ascending,
      each with its entry from every store. */
  method Entries<T>(stores: seq<Store<T>>) returns (out: seq<(nat, seq<T>)>)
    requires |stores| > 0
    requires forall i :: 0 <= i < |stores| ==> StrictlySortedBy(stores[i], IdKey)
    ensures forall k :: 0 <= k < |out| ==>
              InAll(stores, out[k].0) && |out[k].1| == |stores|
              && forall i :: 0 <= i < |stores| ==> ComponentData(out[k].0, out[k].1[i]) in stores[i]
    ensures forall k, k' :: 0 <= k < k' < |out| ==> out[k].0 < out[k'].0
    ensures forall x: nat :: InAll(stores, x) ==> exists k :: 0 <= k < |out| && out[k].0 == x
  {
    var it := new ComponentIterator.Begin(stores);
    out := [];
    while !it.AnyAtEnd()
      invariant fresh(it) && it.stores == stores && it.Positioned()
      invariant Emitted(stores, out, it.lo)
      decreases it.Left()
    {
      out := Visit(it, stores, out);
    }
    PositionedAtEnd(it);
    EmittedComplete(stores, out, it.lo);
    EmittedInOrder(stores, out, it.lo);
  }

  /** One turn of the range-based for: visit the current entity, then step. */
  method Visit<T>(it: ComponentIterator<T>, ghost stores: seq<Store<T>>, out: seq<(nat, seq<T>)>)
    returns (out': seq<(nat, seq<T>)>)
    requires it.stores == stores && it.Positioned() && !it.AnyAtEnd()
    requires Emitted(stores, out, it.lo)
    modifies it
    ensures it.stores == stores && it.Positioned()
    ensures Emitted(stores, out', it.lo)
    ensures it.Left() < old(it.Left())
  {
    ghost var lo := it.lo;
    PositionedAtEntity(it);
    var id, data := it.Deref();
    EmitStep(stores, out, lo, id, data);
    out' := out + [(id, data)];
    it.Increment();
    assert it.lo == id + 1;
  }

  /** What Emitted says of the visited entities, without the bound. */
  lemma EmittedInOrder<T>(stores: seq<Store<T>>, out: seq<(nat, seq<T>)>, lo: nat)
    requires Emitted(stores, out, lo)
    ensures forall k :: 0 <= k < |out| ==>
              InAll(stores, out[k].0) && |out[k].1| == |stores|
              && forall i :: 0 <= i < |stores| ==> ComponentData(out[k].0, out[k].1[i]) in stores[i]
    ensures forall k, k' :: 0 <= k < k' < |out| ==> out[k].0 < out[k'].0
  {
  }

  /** What Positioned promises while the iterator is not at an end. */
  lemma PositionedAtEntity<T>(it: ComponentIterator<T>)
    requires it.Positioned() && !it.AnyAtEnd()
    ensures it.maxId >= it.lo && InAll(it.stores, it.maxId)
    ensures forall x :: it.lo <= x < it.maxId ==> !InAll(it.stores, x)
  {
  }

  /** What Positioned promises once the iterator is at an end. */
  lemma PositionedAtEnd<T>(it: ComponentIterator<T>)
    requires it.Positioned() && it.AnyAtEnd()
    ensures forall x :: x >= it.lo ==> !InAll(it.stores, x)
  {
  }
}
