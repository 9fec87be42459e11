/**
  Single-threaded call sequences on both tables, stated as methods whose
  postconditions follow from the operations' contracts alone.
 */
module Scenarios {
  import opened Wrappers
  import opened Packing
  import SA = SafeArray
  import TS = TsArray

  /** A pop right after a push hands back the pushed index and restores the
      free list: the stack is last in, first out. */
  method SafePushThenPop<T(==)>(a: SA.SafeArray<T>, index: nat) returns (ok: bool, popped: nat)
    requires a.FreeListValid() && index < a.data.Length && index !in a.freeList
    modifies a, a.data
    ensures ok && popped == index
    ensures a.freeList == old(a.freeList)
    ensures Unpack(a.head).0 == Unpack(old(a.head)).0
  {
    a.PushFreeIndex(index);
    ok, popped := a.PopFreeIndex();
  }

  /** Erasing the same index twice in a row: the second call always fails,
      and the first succeeds exactly when the slot was READY. */
  method SafeEraseTwice<T(==)>(a: SA.SafeArray<T>, idx: nat) returns (first: bool, second: bool)
    requires a.Valid()
    modifies a, a.data
    ensures first <==> idx < a.data.Length && old(SA.IsLive(a.data[idx]))
    ensures !second
  {
    first := a.Erase(idx);
    second := a.Erase(idx);
  }

  /** Reading the index an insert returns gives back the inserted value. */
  method SafeInsertThenAt<T(==)>(a: SA.SafeArray<T>, v: T) returns (r: Option<SA.OpResult<T>>, got: Option<SA.OpResult<T>>)
    requires a.Valid()
    modifies a, a.data
    ensures r.None? <==> old(a.LiveCount()) == a.data.Length
    ensures r.Some? ==> got == Some(SA.OpResult(r.value.index, v))
  {
    r := a.Insert(v);
    if r.Some? {
      got := a.At(r.value.index);
    } else {
      got := None;
    }
  }

  /** After a successful erase, the erased index reads as empty. */
  method SafeEraseThenAt<T(==)>(a: SA.SafeArray<T>, idx: nat) returns (ok: bool, got: Option<SA.OpResult<T>>)
    requires a.Valid()
    modifies a, a.data
    ensures ok ==> got == None
  {
    ok := a.Erase(idx);
    got := a.At(idx);
  }

  /** Capacity 2: insert 10 and 20 take slots 0 and 1, a third insert fails,
      erasing slot 0 lets 30 reuse it, 20 is found at 1 and two are live. */
  method SafeCapacityTwo() returns (i10: Option<SA.OpResult<int>>, i20: Option<SA.OpResult<int>>,
                                     full: Option<SA.OpResult<int>>, erased: bool,
                                     i30: Option<SA.OpResult<int>>, found: Option<SA.OpResult<int>>, size: nat)
    ensures i10 == Some(SA.OpResult(0, 10)) && i20 == Some(SA.OpResult(1, 20))
    ensures full == None && erased
    ensures i30 == Some(SA.OpResult(0, 30))
    ensures found == Some(SA.OpResult(1, 20))
    ensures size == 2
  {
    var a := new SA.SafeArray<int>(2);
    assert a.freeList == [0, 1];
    i10 := a.Insert(10);
    assert a.freeList == [1] && a.LiveCount() == 1;
    assert a.data[1].state == SA.EMPTY;
    i20 := a.Insert(20);
    assert a.freeList == [] && a.LiveCount() == 2;
    assert a.data[1].storage == Some(20);
    full := a.Insert(30);
    assert a.data[1].storage == Some(20);
    erased := a.Erase(0);
    assert a.freeList == [0] && a.LiveCount() == 1;
    assert a.data[1].storage == Some(20);
    i30 := a.Insert(30);
    assert a.data[0].storage == Some(30) && a.data[1].storage == Some(20);
    found := a.Find(20);
    size := a.Size();
  }

  /** A pop right after a push hands back the pushed index. */
  method TsPushThenPop<T(==)>(a: TS.TsArray<T>, index: nat) returns (ok: bool, popped: nat)
    requires a.FreeListValid() && index < a.data.Length && index !in a.freeList
    modifies a, a.data
    ensures ok && popped == index
    ensures a.freeList == old(a.freeList)
    ensures Unpack(a.head).0 == Unpack(old(a.head)).0
  {
    a.PushFreeIndex(index);
    ok, popped := a.PopFreeIndex();
  }

  /** Erasing the same index twice in a row: the second call always fails. */
  method TsEraseTwice<T(==)>(a: TS.TsArray<T>, idx: nat) returns (first: bool, second: bool)
    requires a.Valid()
    modifies a, a.data
    ensures first <==> idx < a.data.Length && old(a.data[idx].value).Some?
    ensures !second
  {
    first := a.Erase(idx);
    second := a.Erase(idx);
  }

  /** Reading the index an insert returns gives back the inserted value. */
  method TsInsertThenAt<T(==)>(a: TS.TsArray<T>, v: T) returns (r: Option<nat>, got: Option<T>)
    requires a.Valid()
    modifies a, a.data
    ensures r.None? <==> old(a.Count()) == a.data.Length
    ensures r.Some? ==> got == Some(v)
  {
    r := a.Insert(v);
    if r.Some? {
      got := a.At(r.value);
    } else {
      got := None;
    }
  }

  /** After a successful erase, the erased index reads as null. */
  method TsEraseThenAt<T(==)>(a: TS.TsArray<T>, idx: nat) returns (ok: bool, got: Option<T>)
    requires a.Valid()
    modifies a, a.data
    ensures ok ==> got == None
  {
    ok := a.Erase(idx);
    got := a.At(idx);
  }

  /** The capacity-2 sequence on the handle-based table. */
  method TsCapacityTwo() returns (i10: Option<nat>, i20: Option<nat>, full: Option<nat>, erased: bool,
                                   i30: Option<nat>, found: Option<nat>, size: nat)
    ensures i10 == Some(0) && i20 == Some(1)
    ensures full == None && erased
    ensures i30 == Some(0)
    ensures found == Some(1)
    ensures size == 2
  {
    var a := new TS.TsArray<int>(2);
    i10 := a.Insert(10);
    i20 := a.Insert(20);
    full := a.Insert(30);
    erased := a.Erase(0);
    i30 := a.Insert(30);
    found := a.Find(20);
    size := a.Size();
  }
}
