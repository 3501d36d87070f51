/** The entity-component store of ecs.h: one vector of (id, data) pairs per
    component type, each kept sorted by id, and a sorted index of entity ids.
    The component types are numbered 0 .. kinds-1 and share one value type T;
    the store of type number k is stores[k]. */
module Ecs {
  import opened Wrappers
  import opened Util

  /** The reserved id that no entity receives. */
  const NotAnId: nat := 0

  datatype EcsError = Ok | AlreadyExists | NotFound

  datatype WriteAction = CreateEntry | CreateOrUpdate

  datatype ComponentData<T> = ComponentData(id: nat, data: T)

  type Store<T> = seq<ComponentData<T>>

  function IdKey<T>(c: ComponentData<T>): int { c.id }

  function NatKey(x: nat): int { x }

  ghost predicate HasId<T>(s: Store<T>, id: nat) {
    exists j :: 0 <= j < |s| && s[j].id == id
  }

  ghost predicate AllSorted<T>(stores: seq<Store<T>>) {
    forall k :: 0 <= k < |stores| ==> SortedBy(stores[k], IdKey)
  }

  // === the operations on one store, as values ===

  /** FindComponent: the lower-bound slot for id, and whether it holds id. */
  function FindComponent<T>(s: Store<T>, id: nat): (r: (bool, nat))
    requires SortedBy(s, IdKey)
    ensures r.1 == LowerBoundPos(s, IdKey, id)
    ensures r.0 <==> HasId(s, id)
    ensures r.0 ==> r.1 < |s| && s[r.1].id == id
    ensures forall j :: 0 <= j < r.1 ==> s[j].id < id
  {
    var p := LowerBoundPos(s, IdKey, id);
    assert HasId(s, id) ==> p < |s| && s[p].id == id by {
      if HasId(s, id) {
        var j :| 0 <= j < |s| && s[j].id == id;
        assert IdKey(s[j]) == id;
      }
    }
    (p < |s| && s[p].id == id, p)
  }

  /** Write on one store: with CreateEntry an id already present is refused;
      otherwise the entry goes in at the lower-bound slot, so with
      CreateOrUpdate it lands in front of the old entry rather than replacing
      it. */
  function StoreWrite<T>(s: Store<T>, id: nat, data: T, action: WriteAction): (r: (EcsError, Store<T>))
    requires SortedBy(s, IdKey)
    ensures r.0 == AlreadyExists <==> action == CreateEntry && HasId(s, id)
    ensures r.0 != NotFound
    ensures r.0 == AlreadyExists ==> r.1 == s
    ensures r.0 == Ok ==> |r.1| == |s| + 1 && SortedBy(r.1, IdKey)
    ensures r.0 == Ok ==> multiset(r.1) == multiset(s) + multiset{ComponentData(id, data)}
  {
    var (found, p) := FindComponent(s, id);
    if found && s[p].id == id && action == CreateEntry then
      (AlreadyExists, s)
    else
      InsertAtLowerBoundSorted(s, IdKey, ComponentData(id, data));
      InsertAtMultiset(s, p, ComponentData(id, data));
      (Ok, InsertAt(s, p, ComponentData(id, data)))
  }

  /** Read on one store: the data of the first entry with the id. */
  function StoreRead<T>(s: Store<T>, id: nat): (r: Option<T>)
    requires SortedBy(s, IdKey)
    ensures r.None? <==> !HasId(s, id)
    ensures r.Some? ==> LowerBoundPos(s, IdKey, id) < |s|
                        && s[LowerBoundPos(s, IdKey, id)] == ComponentData(id, r.value)
  {
    var (found, p) := FindComponent(s, id);
    if found then Some(s[p].data) else None
  }

  /** EraseComponent on one store: removes the first entry with the id. */
  function StoreErase<T>(s: Store<T>, id: nat): (r: Store<T>)
    requires SortedBy(s, IdKey)
    ensures SortedBy(r, IdKey)
    ensures !HasId(s, id) ==> r == s
    ensures HasId(s, id) ==>
              && |r| == |s| - 1
              && multiset(r) == multiset(s) - multiset{s[LowerBoundPos(s, IdKey, id)]}
              && s[LowerBoundPos(s, IdKey, id)].id == id
  {
    var (found, p) := FindComponent(s, id);
    if found then
      assert SortedBy(RemoveAt(s, p), IdKey) by {
        var r := RemoveAt(s, p);
        forall a, b | 0 <= a < b < |r| ensures IdKey(r[a]) <= IdKey(r[b]) {
          if b < p {
          } else if a >= p {
            assert r[a] == s[a + 1] && r[b] == s[b + 1];
          } else {
            assert r[b] == s[b + 1];
          }
        }
      }
      RemoveAtMultiset(s, p);
      RemoveAt(s, p)
    else s
  }

  /** A successful write is what the next read of that id returns, in either
      write mode. */
  lemma WriteThenRead<T>(s: Store<T>, id: nat, data: T, action: WriteAction)
    requires SortedBy(s, IdKey)
    requires StoreWrite(s, id, data, action).0 == Ok
    ensures StoreRead(StoreWrite(s, id, data, action).1, id) == Some(data)
  {
    var p := LowerBoundPos(s, IdKey, id);
    var s' := InsertAt(s, p, ComponentData(id, data));
    assert StoreWrite(s, id, data, action).1 == s';
    forall j | p <= j < |s'| ensures IdKey(s'[j]) >= id {
      if j > p { assert s'[j] == s[j - 1]; }
    }
    LowerBoundUnique(s', IdKey, id, p);
  }

  /** Inserting an entry at its lower-bound slot does not move the lower
      bound of a smaller id. */
  lemma LowerBoundAfterInsertBelow<T>(s: Store<T>, v: ComponentData<T>, other: nat)
    requires SortedBy(s, IdKey)
    requires other < v.id
    ensures LowerBoundPos(s, IdKey, other) <= LowerBoundPos(s, IdKey, v.id)
    ensures LowerBoundPos(InsertAt(s, LowerBoundPos(s, IdKey, v.id), v), IdKey, other)
            == LowerBoundPos(s, IdKey, other)
  {
    var p := LowerBoundPos(s, IdKey, v.id);
    var q := LowerBoundPos(s, IdKey, other);
    var s' := InsertAt(s, p, v);
    assert q <= p;
    forall j | 0 <= j < q ensures IdKey(s'[j]) < other {
      assert s'[j] == s[j];
    }
    forall j | q <= j < |s'| ensures IdKey(s'[j]) >= other {
      if j < p { assert s'[j] == s[j]; }
      else if j > p { assert s'[j] == s[j - 1]; }
    }
    LowerBoundUnique(s', IdKey, other, q);
  }

  /** Inserting an entry at its lower-bound slot moves the lower bound of a
      larger id one place on. */
  lemma LowerBoundAfterInsertAbove<T>(s: Store<T>, v: ComponentData<T>, other: nat)
    requires SortedBy(s, IdKey)
    requires other > v.id
    ensures LowerBoundPos(s, IdKey, v.id) <= LowerBoundPos(s, IdKey, other)
    ensures LowerBoundPos(InsertAt(s, LowerBoundPos(s, IdKey, v.id), v), IdKey, other)
            == LowerBoundPos(s, IdKey, other) + 1
    ensures LowerBoundPos(s, IdKey, other) < |s| ==>
              InsertAt(s, LowerBoundPos(s, IdKey, v.id), v)[LowerBoundPos(s, IdKey, other) + 1]
              == s[LowerBoundPos(s, IdKey, other)]
  {
    var p := LowerBoundPos(s, IdKey, v.id);
    var q := LowerBoundPos(s, IdKey, other);
    var s' := InsertAt(s, p, v);
    assert q >= p;
    forall j | 0 <= j < q + 1 ensures IdKey(s'[j]) < other {
      if j < p { assert s'[j] == s[j]; }
      else if j > p { assert s'[j] == s[j - 1]; }
    }
    forall j | q + 1 <= j < |s'| ensures IdKey(s'[j]) >= other {
      assert s'[j] == s[j - 1];
    }
    LowerBoundUnique(s', IdKey, other, q + 1);
  }

  /** Inserting an entry at its lower-bound slot leaves the reads of other
      ids unchanged. */
  lemma ReadAfterInsert<T>(s: Store<T>, v: ComponentData<T>, other: nat)
    requires SortedBy(s, IdKey)
    requires other != v.id
    ensures SortedBy(InsertAt(s, LowerBoundPos(s, IdKey, v.id), v), IdKey)
    ensures StoreRead(InsertAt(s, LowerBoundPos(s, IdKey, v.id), v), other) == StoreRead(s, other)
  {
    InsertAtLowerBoundSorted(s, IdKey, v);
    var s' := InsertAt(s, LowerBoundPos(s, IdKey, v.id), v);
    StoreReadAtLowerBound(s, other);
    StoreReadAtLowerBound(s', other);
    if other < v.id {
      SlotReadAfterInsertBelow(s, v, other);
    } else {
      SlotReadAfterInsertAbove(s, v, other);
    }
  }

  /** The read at a slot: the data there when it carries the id. */
  function SlotRead<T>(s: Store<T>, q: nat, id: nat): Option<T> {
    if q < |s| && s[q].id == id then Some(s[q].data) else None
  }

  lemma SlotReadAfterInsertBelow<T>(s: Store<T>, v: ComponentData<T>, other: nat)
    requires SortedBy(s, IdKey)
    requires other < v.id
    ensures var s' := InsertAt(s, LowerBoundPos(s, IdKey, v.id), v);
      SlotRead(s', LowerBoundPos(s', IdKey, other), other)
      == SlotRead(s, LowerBoundPos(s, IdKey, other), other)
  {
    var p := LowerBoundPos(s, IdKey, v.id);
    var s' := InsertAt(s, p, v);
    var q := LowerBoundPos(s, IdKey, other);
    LowerBoundAfterInsertBelow(s, v, other);
    if q < p {
      assert s'[q] == s[q];
    } else {
      assert s'[q] == v;
      assert q < |s| ==> s[q].id >= v.id;
    }
  }

  lemma SlotReadAfterInsertAbove<T>(s: Store<T>, v: ComponentData<T>, other: nat)
    requires SortedBy(s, IdKey)
    requires other > v.id
    ensures var s' := InsertAt(s, LowerBoundPos(s, IdKey, v.id), v);
      SlotRead(s', LowerBoundPos(s', IdKey, other), other)
      == SlotRead(s, LowerBoundPos(s, IdKey, other), other)
  {
    var p := LowerBoundPos(s, IdKey, v.id);
    var s' := InsertAt(s, p, v);
    var q := LowerBoundPos(s, IdKey, other);
    LowerBoundAfterInsertAbove(s, v, other);
    SlotReadShifted(s, s', q, other);
  }

  lemma SlotReadShifted<T>(s: Store<T>, s': Store<T>, q: nat, other: nat)
    requires |s'| == |s| + 1 && q <= |s|
    requires q < |s| ==> s'[q + 1] == s[q]
    ensures SlotRead(s', q + 1, other) == SlotRead(s, q, other)
  {
  }

  /** StoreWrite in terms of the lower-bound slot of the id. */
  lemma StoreWriteAt<T>(s: Store<T>, id: nat, data: T, action: WriteAction)
    requires SortedBy(s, IdKey)
    ensures var p := LowerBoundPos(s, IdKey, id);
      && SortedBy(InsertAt(s, p, ComponentData(id, data)), IdKey)
      && StoreWrite(s, id, data, action)
         == if p < |s| && s[p].id == id && action == CreateEntry then (AlreadyExists, s)
            else (Ok, InsertAt(s, p, ComponentData(id, data)))
  {
    InsertAtLowerBoundSorted(s, IdKey, ComponentData(id, data));
  }

  /** Read on one store together with the out-parameter it leaves: the data
      read, or the caller's value untouched when the id is missing. */
  function ReadResult<T>(s: Store<T>, id: nat, out: T): (r: (EcsError, T))
    requires SortedBy(s, IdKey)
    ensures r.0 == Ok <==> HasId(s, id)
    ensures r.0 == Ok || r.0 == NotFound
    ensures r.1 == StoreRead(s, id).GetOr(out)
  {
    match StoreRead(s, id)
    case None => (NotFound, out)
    case Some(d) => (Ok, d)
  }

  /** The first error of a list in order, or Ok when there is none. */
  method FirstError(errors: seq<EcsError>) returns (e: EcsError)
    ensures e == Ok <==> forall j :: 0 <= j < |errors| ==> errors[j] == Ok
    ensures e != Ok ==> exists j :: 0 <= j < |errors| && errors[j] == e
                                   && forall i :: 0 <= i < j ==> errors[i] == Ok
  {
    for i := 0 to |errors|
      invariant forall j :: 0 <= j < i ==> errors[j] == Ok
    {
      if errors[i] != Ok {
        return errors[i];
      }
    }
    e := Ok;
  }

  /** The reads of ReadMany, one per kind, and the first of their errors
      make up its result. */
  lemma ReadManyResult<T>(stores: seq<Store<T>>, ks: seq<nat>, id: nat, outs: seq<T>,
                          errors: seq<EcsError>, outs': seq<T>, e: EcsError)
    requires AllSorted(stores) && |ks| == |outs| == |errors| == |outs'|
    requires forall i :: 0 <= i < |ks| ==> ks[i] < |stores|
    requires forall j :: 0 <= j < |ks| ==> (errors[j], outs'[j]) == ReadResult(stores[ks[j]], id, outs[j])
    requires e == Ok <==> forall j :: 0 <= j < |errors| ==> errors[j] == Ok
    requires e != Ok ==> exists j :: 0 <= j < |errors| && errors[j] == e
    ensures forall i :: 0 <= i < |ks| ==> outs'[i] == StoreRead(stores[ks[i]], id).GetOr(outs[i])
    ensures e == Ok <==> forall i :: 0 <= i < |ks| ==> HasId(stores[ks[i]], id)
    ensures e == Ok || e == NotFound
  {
    if e != Ok {
      var j :| 0 <= j < |errors| && errors[j] == e;
      assert errors[j] == ReadResult(stores[ks[j]], id, outs[j]).0;
    }
  }

  /** Replacing one store by a sorted one keeps every store sorted. */
  lemma SortedStoreUpdate<T>(stores: seq<Store<T>>, k: nat, s: Store<T>)
    requires AllSorted(stores) && k < |stores| && SortedBy(s, IdKey)
    ensures AllSorted(stores[k := s])
  {
  }

  /** Every store holds each id at most once. */
  ghost predicate AllStrict<T>(stores: seq<Store<T>>) {
    forall k :: 0 <= k < |stores| ==> StrictlySortedBy(stores[k], IdKey)
  }

  /** A CREATE_ENTRY write never stores an id twice. */
  lemma CreateKeepsStrict<T>(s: Store<T>, id: nat, data: T)
    requires StrictlySortedBy(s, IdKey)
    ensures SortedBy(s, IdKey) && StrictlySortedBy(StoreWrite(s, id, data, CreateEntry).1, IdKey)
  {
    StrictlySortedIsSorted(s, IdKey);
    StoreWriteAt(s, id, data, CreateEntry);
    var p := LowerBoundPos(s, IdKey, id);
    if !(p < |s| && s[p].id == id) {
      assert !HasId(s, id) by {
        var (found, q) := FindComponent(s, id);
        assert q == p;
      }
      InsertAtLowerBoundStrict(s, IdKey, ComponentData(id, data));
    }
  }

  /** Erasing keeps a store free of repeated ids. */
  lemma EraseKeepsStrict<T>(s: Store<T>, id: nat)
    requires StrictlySortedBy(s, IdKey)
    ensures SortedBy(s, IdKey) && StrictlySortedBy(StoreErase(s, id), IdKey)
  {
    StrictlySortedIsSorted(s, IdKey);
    var (found, p) := FindComponent(s, id);
    if found {
      RemoveAtSorted(s, IdKey, p);
    }
  }

  /** A CREATE_ENTRY write of one component keeps every store free of
      repeated ids. */
  lemma CreateKeepsAllStrict<T>(stores: seq<Store<T>>, k: nat, id: nat, data: T)
    requires k < |stores| && AllStrict(stores)
    ensures SortedBy(stores[k], IdKey)
    ensures AllStrict(stores[k := StoreWrite(stores[k], id, data, CreateEntry).1])
  {
    CreateKeepsStrict(stores[k], id, data);
  }

  /** Erasing one component keeps every store free of repeated ids. */
  lemma EraseKeepsAllStrict<T>(stores: seq<Store<T>>, k: nat, id: nat)
    requires k < |stores| && AllStrict(stores)
    ensures SortedBy(stores[k], IdKey)
    ensures AllStrict(stores[k := StoreErase(stores[k], id)])
  {
    EraseKeepsStrict(stores[k], id);
  }

  /** Erasing an id from every store keeps them free of repeated ids. */
  lemma EraseEachKeepsStrict<T>(stores: seq<Store<T>>, erased: seq<Store<T>>, id: nat)
    requires AllSorted(stores) && AllStrict(stores) && |erased| == |stores|
    requires forall k :: 0 <= k < |stores| ==> erased[k] == StoreErase(stores[k], id)
    ensures AllStrict(erased)
  {
    forall k | 0 <= k < |stores| ensures StrictlySortedBy(erased[k], IdKey) {
      EraseKeepsStrict(stores[k], id);
    }
  }

  /** A read looks only at the lower-bound slot of the id. */
  lemma StoreReadAtLowerBound<T>(s: Store<T>, id: nat)
    requires SortedBy(s, IdKey)
    ensures StoreRead(s, id) == SlotRead(s, LowerBoundPos(s, IdKey, id), id)
  {
  }

  /** A write of one id leaves what every other id reads unchanged. */
  lemma WriteKeepsOtherReads<T>(s: Store<T>, id: nat, data: T, action: WriteAction, other: nat)
    requires SortedBy(s, IdKey)
    requires other != id
    ensures StoreRead(StoreWrite(s, id, data, action).1, other) == StoreRead(s, other)
  {
    var v := ComponentData(id, data);
    if StoreWrite(s, id, data, action).0 == Ok {
      assert StoreWrite(s, id, data, action).1 == InsertAt(s, LowerBoundPos(s, IdKey, id), v);
      ReadAfterInsert(s, v, other);
    }
  }

  /** Finding (as written): CreateOrUpdate on an id that is present keeps the
      old entry right behind the new one, so the store holds the id twice. */
  lemma UpdateKeepsOldEntry<T>(s: Store<T>, id: nat, data: T)
    requires SortedBy(s, IdKey)
    requires HasId(s, id)
    ensures var p := LowerBoundPos(s, IdKey, id);
            var s' := StoreWrite(s, id, data, CreateOrUpdate).1;
            |s'| == |s| + 1 && s'[p] == ComponentData(id, data) && s'[p + 1] == s[p]
            && s'[p + 1].id == id && !StrictlySortedBy(s', IdKey)
  {
    var p := LowerBoundPos(s, IdKey, id);
    var s' := StoreWrite(s, id, data, CreateOrUpdate).1;
    assert s' == InsertAt(s, p, ComponentData(id, data));
    assert s'[p + 1] == s[p];
    assert IdKey(s'[p]) == IdKey(s'[p + 1]);
  }

  /** A concrete store where an update write doubles the entry. */
  lemma UpdateDuplicatesExample()
    ensures StoreWrite([ComponentData(1, 'a')], 1, 'b', CreateOrUpdate)
            == (Ok, [ComponentData(1, 'b'), ComponentData(1, 'a')])
  {
    var s := [ComponentData(1, 'a')];
    var v := ComponentData(1, 'b');
    assert FindComponent(s, 1) == (true, 0);
    assert InsertAt(s, 0, v) == [v, ComponentData(1, 'a')];
    assert StoreWrite(s, 1, 'b', CreateOrUpdate) == (Ok, InsertAt(s, 0, v));
  }

  /** Corrected update write: overwrite the entry in place when the id is
      present, insert it otherwise. */
  function StoreUpsert<T>(s: Store<T>, id: nat, data: T): (r: Store<T>)
    requires StrictlySortedBy(s, IdKey)
    ensures StrictlySortedBy(r, IdKey)
    ensures |r| == if HasId(s, id) then |s| else |s| + 1
    ensures StoreRead(r, id) == Some(data)
  {
    assert SortedBy(s, IdKey);
    var (found, p) := FindComponent(s, id);
    var v := ComponentData(id, data);
    if found then
      UpdateInPlaceContents(s, IdKey, v, p);
      LowerBoundFindsKey(s[p := v], IdKey, p);
      s[p := v]
    else
      assert forall j :: 0 <= j < |s| ==> IdKey(s[j]) != IdKey(v);
      InsertAbsentContents(s, IdKey, v);
      InsertAtLowerBoundStrict(s, IdKey, v);
      LowerBoundFindsKey(InsertAt(s, p, v), IdKey, p);
      InsertAt(s, p, v)
  }

  /** The corrected write never reads differently for any other id. */
  lemma UpsertKeepsOtherReads<T>(s: Store<T>, id: nat, data: T, other: nat)
    requires StrictlySortedBy(s, IdKey)
    requires other != id
    ensures StoreRead(StoreUpsert(s, id, data), other) == StoreRead(s, other)
  {
    assert SortedBy(s, IdKey);
    var p := LowerBoundPos(s, IdKey, id);
    if HasId(s, id) {
      var r := StoreUpsert(s, id, data);
      assert r == s[p := ComponentData(id, data)];
      if HasId(s, other) {
        var j :| 0 <= j < |s| && s[j].id == other;
        assert j != p;
        LowerBoundFindsKey(s, IdKey, j);
        assert r[j] == s[j];
        assert StrictlySortedBy(r, IdKey);
        LowerBoundFindsKey(r, IdKey, j);
      } else {
        assert !HasId(r, other) by {
          forall j | 0 <= j < |r| ensures r[j].id != other {
            if j != p { assert r[j] == s[j]; }
          }
        }
      }
    } else {
      WriteKeepsOtherReads(s, id, data, CreateOrUpdate, other);
    }
  }

  // === the entity index ===

  /** HasEntity: a lower-bound search in the id index. */
  function HasEntityIn(ids: seq<nat>, id: nat): (b: bool)
    requires StrictlySortedBy(ids, NatKey)
    ensures b <==> id in ids
  {
    assert SortedBy(ids, NatKey);
    var p := LowerBoundPos(ids, NatKey, id);
    assert id in ids ==> p < |ids| && ids[p] == id by {
      if id in ids {
        var j :| 0 <= j < |ids| && ids[j] == id;
        LowerBoundFindsKey(ids, NatKey, j);
      }
    }
    p < |ids| && ids[p] == id
  }

  /** The index update of Erase as written: the first id not less than the
      erased one is dropped, whether or not it is equal. */
  function EraseIdAsWritten(ids: seq<nat>, id: nat): (r: seq<nat>)
    requires StrictlySortedBy(ids, NatKey)
    ensures StrictlySortedBy(r, NatKey)
    ensures |r| == |ids| || |r| == |ids| - 1
    ensures forall x :: x in r ==> x in ids
  {
    var p := LowerBoundPos(ids, NatKey, id);
    if p == |ids| then ids
    else
      RemoveAtSorted(ids, NatKey, p);
      assert forall x :: x in RemoveAt(ids, p) ==> x in multiset(RemoveAt(ids, p));
      RemoveAt(ids, p)
  }

  /** Finding (as written): erasing an id that is not an entity removes the
      next larger entity from the index. */
  lemma EraseUnknownIdRemovesOther()
    ensures HasEntityIn([1, 3], 3)
    ensures !HasEntityIn(EraseIdAsWritten([1, 3], 2), 3)
  {
    var ids: seq<nat> := [1, 3];
    assert LowerBoundPos(ids, NatKey, 2) == 1;
    assert RemoveAt(ids, 1) == [1];
  }

  /** Corrected index update: drop the id only when it is there. */
  function EraseIdExact(ids: seq<nat>, id: nat): (r: seq<nat>)
    requires StrictlySortedBy(ids, NatKey)
    ensures StrictlySortedBy(r, NatKey)
    ensures forall x :: x in r <==> x in ids && x != id
    ensures |r| == if id in ids then |ids| - 1 else |ids|
  {
    assert SortedBy(ids, NatKey);
    var p := LowerBoundPos(ids, NatKey, id);
    if HasEntityIn(ids, id) then
      RemoveAtSorted(ids, NatKey, p);
      RemoveAtMembers(ids, p);
      RemoveAt(ids, p)
    else ids
  }

  /** Removing the one occurrence of ids[p] from a strictly sorted list takes
      exactly that id out of it. */
  lemma RemoveAtMembers(ids: seq<nat>, p: nat)
    requires StrictlySortedBy(ids, NatKey) && p < |ids|
    ensures forall x :: x in RemoveAt(ids, p) <==> x in ids && x != ids[p]
  {
    var r := RemoveAt(ids, p);
    RemoveAtMultiset(ids, p);
    forall x ensures x in r <==> x in ids && x != ids[p] {
      assert x in r <==> x in multiset(r);
      assert x in ids <==> x in multiset(ids);
    }
    forall j | 0 <= j < |r| ensures r[j] != ids[p] {
      if j < p { assert r[j] == ids[j]; } else { assert r[j] == ids[j + 1]; }
    }
  }

  /** The two agree whenever the erased id is an entity. */
  lemma EraseKnownIdAgrees(ids: seq<nat>, id: nat)
    requires StrictlySortedBy(ids, NatKey)
    requires id in ids
    ensures EraseIdAsWritten(ids, id) == EraseIdExact(ids, id)
  {
  }

  // === writing several components ===

  /** The multi-component Write: CreateEntry writes left to right, stopping
      at the first one that fails. */
  function WriteAll<T>(stores: seq<Store<T>>, id: nat, items: seq<(nat, T)>): (r: (EcsError, seq<Store<T>>))
    requires |items| > 0
    requires forall i :: 0 <= i < |items| ==> items[i].0 < |stores|
    requires AllSorted(stores)
    ensures |r.1| == |stores| && AllSorted(r.1)
    decreases |items|
  {
    var (e, s) := StoreWrite(stores[items[0].0], id, items[0].1, CreateEntry);
    var stores' := stores[items[0].0 := s];
    if e != Ok || |items| == 1 then (e, stores')
    else WriteAll(stores', id, items[1..])
  }

  /** The multi-component write keeps every store free of repeated ids. */
  lemma {:induction false} WriteAllKeepsStrict<T>(stores: seq<Store<T>>, id: nat, items: seq<(nat, T)>)
    requires |items| > 0
    requires forall i :: 0 <= i < |items| ==> items[i].0 < |stores|
    requires AllSorted(stores) && AllStrict(stores)
    ensures AllStrict(WriteAll(stores, id, items).1)
    decreases |items|
  {
    var k := items[0].0;
    CreateKeepsStrict(stores[k], id, items[0].1);
    var (e, s) := StoreWrite(stores[k], id, items[0].1, CreateEntry);
    var stores' := stores[k := s];
    assert AllStrict(stores');
    if e != Ok || |items| == 1 {
    } else {
      assert forall i :: 0 <= i < |items[1..]| ==> items[1..][i].0 < |stores'| by {
        forall i | 0 <= i < |items[1..]| ensures items[1..][i].0 < |stores'| {
          assert items[1..][i] == items[i + 1];
        }
      }
      WriteAllKeepsStrict(stores', id, items[1..]);
    }
  }

  /** A successful write stores the id. */
  lemma StoreWriteOkHasId<T>(s: Store<T>, id: nat, data: T, action: WriteAction)
    requires SortedBy(s, IdKey)
    requires StoreWrite(s, id, data, action).0 == Ok
    ensures HasId(StoreWrite(s, id, data, action).1, id)
  {
    WriteThenRead(s, id, data, action);
  }

  /** Entries only ever grow along the chain: earlier writes persist. */
  lemma {:induction false} WriteAllKeeps<T>(stores: seq<Store<T>>, id: nat, items: seq<(nat, T)>)
    requires |items| > 0
    requires forall i :: 0 <= i < |items| ==> items[i].0 < |stores|
    requires AllSorted(stores)
    ensures WriteAll(stores, id, items).0 != NotFound
    ensures forall k :: 0 <= k < |stores| ==> multiset(stores[k]) <= multiset(WriteAll(stores, id, items).1[k])
    decreases |items|
  {
    var (e, s) := StoreWrite(stores[items[0].0], id, items[0].1, CreateEntry);
    var stores' := stores[items[0].0 := s];
    if e == Ok && |items| > 1 {
      WriteAllKeeps(stores', id, items[1..]);
      assert WriteAll(stores, id, items) == WriteAll(stores', id, items[1..]);
      forall k | 0 <= k < |stores|
        ensures multiset(stores[k]) <= multiset(WriteAll(stores, id, items).1[k])
      {
        assert multiset(stores[k]) <= multiset(stores'[k]);
      }
    }
  }

  /** A store whose entries include those of one holding the id holds it. */
  lemma HasIdGrows<T>(a: Store<T>, b: Store<T>, id: nat)
    requires HasId(a, id) && multiset(a) <= multiset(b)
    ensures HasId(b, id)
  {
    var j :| 0 <= j < |a| && a[j].id == id;
    assert a[j] in multiset(b);
    var j' :| 0 <= j' < |b| && b[j'] == a[j];
  }

  /** When the whole chain succeeds every component is stored for the id. */
  lemma {:induction false} WriteAllOkStoresAll<T>(stores: seq<Store<T>>, id: nat, items: seq<(nat, T)>)
    requires |items| > 0
    requires forall i :: 0 <= i < |items| ==> items[i].0 < |stores|
    requires AllSorted(stores)
    requires WriteAll(stores, id, items).0 == Ok
    ensures forall i :: 0 <= i < |items| ==> HasId(WriteAll(stores, id, items).1[items[i].0], id)
    decreases |items|
  {
    var r := WriteAll(stores, id, items);
    var k0 := items[0].0;
    var (e, s) := StoreWrite(stores[k0], id, items[0].1, CreateEntry);
    var stores' := stores[k0 := s];
    StoreWriteOkHasId(stores[k0], id, items[0].1, CreateEntry);
    if |items| > 1 {
      WriteAllOkStoresAll(stores', id, items[1..]);
      WriteAllKeeps(stores', id, items[1..]);
      assert r == WriteAll(stores', id, items[1..]);
      HasIdGrows(s, r.1[k0], id);
      forall i | 0 <= i < |items| ensures HasId(r.1[items[i].0], id) {
        if i > 0 {
          assert items[1..][i - 1] == items[i];
        }
      }
    }
  }

  /** The entity-component system over `kinds` component types. */
  class EntityComponentSystem<T> {
    const kinds: nat
    var entityIds: seq<nat>
    var nextId: nat
    var stores: seq<Store<T>>

    ghost predicate Valid()
      reads this
    {
      && |stores| == kinds
      && nextId >= 1
      && StrictlySortedBy(entityIds, NatKey)
      && (forall j :: 0 <= j < |entityIds| ==> NotAnId < entityIds[j] < nextId)
      && AllSorted(stores)
    }

    constructor (kinds: nat)
      ensures Valid()
      ensures this.kinds == kinds && entityIds == [] && nextId == 1
      ensures stores == seq(kinds, _ => [])
      ensures AllStrict(stores)
    {
      this.kinds := kinds;
      entityIds := [];
      nextId := 1;
      stores := seq(kinds, _ => []);
    }

    /** NewEntity: the next id, appended to the index. */
    method NewEntity() returns (id: nat)
      requires Valid()
      modifies this
      ensures Valid()
      ensures id == old(nextId) && id != NotAnId
      ensures nextId == old(nextId) + 1
      ensures entityIds == old(entityIds) + [id]
      ensures stores == old(stores)
    {
      entityIds := entityIds + [nextId];
      nextId := nextId + 1;
      id := entityIds[|entityIds| - 1];
    }

    /** Write one component of kind k for id. */
    method Write(k: nat, id: nat, data: T, action: WriteAction) returns (e: EcsError)
      requires Valid() && k < kinds
      modifies this
      ensures Valid()
      ensures (e, stores[k]) == StoreWrite(old(stores[k]), id, data, action)
      ensures stores == old(stores)[k := stores[k]]
      ensures entityIds == old(entityIds) && nextId == old(nextId)
      ensures old(AllStrict(stores)) && action == CreateEntry ==> AllStrict(stores)
    {
      label L:
      var s := stores[k];
      var pos := LowerBound(s, IdKey, id);
      StoreWriteAt(s, id, data, action);
      if pos < |s| && s[pos].id == id && action == CreateEntry {
        return AlreadyExists;
      }
      var s' := InsertAt(s, pos, ComponentData(id, data));
      SortedStoreUpdate(stores, k, s');
      stores := stores[k := s'];
      e := Ok;
      if old@L(AllStrict(stores)) && action == CreateEntry {
        CreateKeepsAllStrict(old@L(stores), k, id, data);
      }
    }

    /** The multi-component Write. */
    method WriteMany(id: nat, items: seq<(nat, T)>) returns (e: EcsError)
      requires Valid() && |items| > 0
      requires forall i :: 0 <= i < |items| ==> items[i].0 < kinds
      modifies this
      ensures Valid()
      ensures (e, stores) == WriteAll(old(stores), id, items)
      ensures entityIds == old(entityIds) && nextId == old(nextId)
      ensures old(AllStrict(stores)) ==> AllStrict(stores)
    {
      var i := 0;
      while true
        invariant Valid() && 0 <= i < |items|
        invariant entityIds == old(entityIds) && nextId == old(nextId)
        invariant WriteAll(stores, id, items[i..]) == WriteAll(old(stores), id, items)
        decreases |items| - i
      {
        e := Write(items[i].0, id, items[i].1, CreateEntry);
        if e != Ok || i == |items| - 1 {
          if old(AllStrict(stores)) {
            WriteAllKeepsStrict(old(stores), id, items);
          }
          return;
        }
        assert items[i..][1..] == items[i + 1..];
        i := i + 1;
      }
    }

    /** WriteNewEntity: a new id and its components. */
    method WriteNewEntity(items: seq<(nat, T)>) returns (id: nat)
      requires Valid() && |items| > 0
      requires forall i :: 0 <= i < |items| ==> items[i].0 < kinds
      modifies this
      ensures Valid()
      ensures id == old(nextId) && entityIds == old(entityIds) + [id]
      ensures stores == WriteAll(old(stores), id, items).1
      ensures old(AllStrict(stores)) ==> AllStrict(stores)
    {
      id := NewEntity();
      var _ := WriteMany(id, items);
    }

    /** Read: out is left as it was when the id has no component of kind k. */
    method Read(k: nat, id: nat, out: T) returns (e: EcsError, out': T)
      requires Valid() && k < kinds
      ensures StoreRead(stores[k], id).None? ==> e == NotFound && out' == out
      ensures StoreRead(stores[k], id).Some? ==> e == Ok && out' == StoreRead(stores[k], id).value
    {
      var pos := LowerBound(stores[k], IdKey, id);
      if !(pos < |stores[k]| && stores[k][pos].id == id) {
        return NotFound, out;
      }
      e, out' := Ok, stores[k][pos].data;
    }

    /** ReadOrPanic: reading a missing component crashes the program. */
    method ReadOrPanic(k: nat, id: nat) returns (data: T)
      requires Valid() && k < kinds && HasId(stores[k], id)
      ensures StoreRead(stores[k], id) == Some(data)
    {
      var pos := LowerBound(stores[k], IdKey, id);
      data := stores[k][pos].data;
    }

    /** The multi-component Read: every read is performed, then the first
        error in argument order is returned. */
    method ReadMany(id: nat, ks: seq<nat>, outs: seq<T>) returns (e: EcsError, outs': seq<T>)
      requires Valid() && |ks| == |outs|
      requires forall i :: 0 <= i < |ks| ==> ks[i] < kinds
      ensures |outs'| == |outs|
      ensures forall i :: 0 <= i < |ks| ==> outs'[i] == StoreRead(stores[ks[i]], id).GetOr(outs[i])
      ensures e == Ok <==> forall i :: 0 <= i < |ks| ==> HasId(stores[ks[i]], id)
      ensures e == Ok || e == NotFound
    {
      var errors: seq<EcsError> := [];
      outs' := [];
      for i := 0 to |ks|
        invariant |errors| == i && |outs'| == i
        invariant forall j :: 0 <= j < i ==> (errors[j], outs'[j]) == ReadResult(stores[ks[j]], id, outs[j])
      {
        var ei, oi := Read(ks[i], id, outs[i]);
        assert (ei, oi) == ReadResult(stores[ks[i]], id, outs[i]);
        errors := errors + [ei];
        outs' := outs' + [oi];
      }
      e := FirstError(errors);
      ReadManyResult(stores, ks, id, outs, errors, outs', e);
    }

    /** HasEntity: binary search in the id index. */
    method HasEntity(id: nat) returns (b: bool)
      requires Valid()
      ensures b <==> id in entityIds
    {
      var p := LowerBound(entityIds, NatKey, id);
      b := p < |entityIds| && entityIds[p] == id;
      assert b == HasEntityIn(entityIds, id);
    }

    method EraseComponent(k: nat, id: nat)
      requires Valid() && k < kinds
      modifies this
      ensures Valid()
      ensures stores == old(stores)[k := StoreErase(old(stores[k]), id)]
      ensures entityIds == old(entityIds) && nextId == old(nextId)
      ensures old(AllStrict(stores)) ==> AllStrict(stores)
    {
      var pos := LowerBound(stores[k], IdKey, id);
      if pos < |stores[k]| && stores[k][pos].id == id {
        stores := stores[k := RemoveAt(stores[k], pos)];
      }
      if old(AllStrict(stores)) {
        EraseKeepsAllStrict(old(stores), k, id);
      }
    }

    /** Erase: the id's component of every kind, then the lower-bound entry of
        the index. */
    method Erase(id: nat)
      requires Valid()
      modifies this
      ensures Valid()
      ensures |stores| == kinds
      ensures forall k :: 0 <= k < kinds ==> stores[k] == StoreErase(old(stores)[k], id)
      ensures entityIds == EraseIdAsWritten(old(entityIds), id)
      ensures nextId == old(nextId)
      ensures old(AllStrict(stores)) ==> AllStrict(stores)
    {
      for k := 0 to kinds
        invariant Valid() && entityIds == old(entityIds) && nextId == old(nextId)
        invariant forall j :: 0 <= j < k ==> stores[j] == StoreErase(old(stores)[j], id)
        invariant forall j :: k <= j < kinds ==> stores[j] == old(stores)[j]
      {
        EraseComponent(k, id);
      }
      if old(AllStrict(stores)) {
        EraseEachKeepsStrict(old(stores), stores, id);
      }
      var p := LowerBound(entityIds, NatKey, id);
      if p == |entityIds| {
        return;
      }
      RemoveAtSorted(entityIds, NatKey, p);
      entityIds := RemoveAt(entityIds, p);
    }
  }
}
