/**
  The handle-based slot table: N slots, each holding a nullable shared handle
  to an element and a next-free link, with the same packed free-list head as
  the in-place table. A slot is occupied exactly when its handle is non-null.

  The handle is modelled as `Option<T>`. Every compare-and-set is one atomic
  step that succeeds at once, as it does when one thread runs the table.
 */
module TsArray {
  import opened Wrappers
  import opened Packing
  import opened FreeStack

  /** One slot: the element behind the handle (None for a null handle) and
      the index of the next free slot. */
  datatype Entry<T> = Entry(value: Option<T>, nextFree: nat)

  function NextFree<T>(e: Entry<T>): nat {
    e.nextFree
  }

  /** A slot whose handle is non-null. */
  predicate Occupied<T>(e: Entry<T>) {
    e.value.Some?
  }

  /** A non-null slot whose element satisfies `pred`. */
  predicate Matches<T>(e: Entry<T>, pred: T -> bool) {
    e.value.Some? && pred(e.value.value)
  }

  /** A slot is on the free list `free` exactly when its handle is null. */
  ghost predicate SlotsAgree<T>(slots: seq<Entry<T>>, free: seq<nat>) {
    forall i :: 0 <= i < |slots| ==> (i in free <==> slots[i].value.None?)
  }

  /** Storing an element into the slot popped from the top leaves slots and
      the rest of the stack in agreement. */
  lemma FillAgrees<T>(slots: seq<Entry<T>>, free: seq<nat>, v: T)
    requires SlotsAgree(slots, free) && NoDup(free)
    requires free != [] && free[0] < |slots|
    ensures SlotsAgree(slots[free[0] := Entry(Some(v), slots[free[0]].nextFree)], free[1..])
  {
    forall i | i in free[1..]
      ensures i in free && i != free[0]
    {
      var k :| 0 <= k < |free[1..]| && free[1..][k] == i;
      assert free[k + 1] == i;
    }
    forall i | i in free && i != free[0]
      ensures i in free[1..]
    {
      var k :| 0 <= k < |free| && free[k] == i;
      assert free[1..][k - 1] == i;
    }
  }

  /** Nulling an occupied slot and pushing it keeps slots and stack in agreement. */
  lemma ClearAgrees<T>(slots: seq<Entry<T>>, free: seq<nat>, idx: nat, top: nat)
    requires SlotsAgree(slots, free)
    requires idx < |slots| && Occupied(slots[idx])
    ensures SlotsAgree(slots[idx := Entry(None, top)], [idx] + free)
  {
    forall i | 0 <= i < |slots|
      ensures i in [idx] + free <==> i == idx || i in free
    {
    }
  }

  class TsArray<T(==)> {
    /** The slots; the capacity N is data.Length. */
    const data: array<Entry<T>>
    /** The packed (top index, counter) head of the free list. */
    var head: Word64
    /** The free-list stack, top first, as spelled out by head and links. */
    ghost var freeList: seq<nat>

    /** The free list is the chain read from the head's index through the
        slots' links down to the sentinel N, with no index twice. */
    ghost predicate FreeListValid()
      reads this, data
    {
      && 1 <= data.Length < TWO_32
      && IsChain(data[..], NextFree, Unpack(head).0, freeList)
      && NoDup(freeList)
    }

    /** Between calls a slot is on the free list exactly when its handle is null. */
    ghost predicate Valid()
      reads this, data
    {
      FreeListValid() && SlotsAgree(data[..], freeList)
    }

    /** The number of non-null slots. */
    ghost function Count(): nat
      reads this, data
    {
      CountWhere(data[..], Occupied)
    }

    /** Every slot is counted once: null slots are on the stack, the others occupied. */
    lemma FreeListSize()
      requires Valid()
      ensures |freeList| + Count() == data.Length
    {
      ChainInRange(data[..], NextFree, Unpack(head).0, freeList);
      forall i: nat
        ensures i in freeList <==> i < data.Length && !Occupied(data[..][i])
      {
        if i in freeList {
          var k :| 0 <= k < |freeList| && freeList[k] == i;
        }
      }
      FreeCount(data[..], Occupied, freeList);
    }

    /** Builds the chain 0 -> 1 -> ... -> N-1 -> N with head (0, 0); every handle is null. */
    constructor (capacity: nat)
      requires 1 <= capacity < TWO_32
      ensures Valid() && fresh(data)
      ensures data.Length == capacity
      ensures forall i :: 0 <= i < capacity ==> data[i] == Entry(None, i + 1)
      ensures head == Pack(0, 0) && freeList == Range(0, capacity)
      ensures Count() == 0
    {
      var d := new Entry<T>[capacity](_ => Entry(None, 0));
      for i := 0 to capacity - 1
        invariant forall j :: 0 <= j < i ==> d[j] == Entry(None, j + 1)
        invariant forall j :: i <= j < capacity ==> d[j] == Entry(None, 0)
      {
        d[i] := d[i].(nextFree := i + 1);
      }
      d[capacity - 1] := d[capacity - 1].(nextFree := capacity);
      data := d;
      head := Pack(0, 0);
      freeList := Range(0, capacity);
      new;
      InitialChain(data[..], NextFree, 0);
      forall i | 0 <= i < capacity
        ensures i in freeList
      {
        assert freeList[i] == i;
      }
      FreeListSize();
    }

    /** Links `index` in front of the old top and raises the head counter. */
    method PushFreeIndex(index: nat)
      requires FreeListValid() && index < data.Length && index !in freeList
      modifies this, data
      ensures FreeListValid()
      ensures freeList == [index] + old(freeList)
      ensures head == Pack(index, Unpack(old(head)).1 + 1)
      ensures data[..] == old(data[..])[index := old(data[index]).(nextFree := Unpack(old(head)).0)]
    {
      ghost var slots := data[..];
      var (oldIdx, oldCtr) := Unpack(head);
      data[index] := data[index].(nextFree := oldIdx);
      // The compare-and-set finds head unchanged and installs the new word.
      head := Pack(index, oldCtr + 1);
      freeList := [index] + freeList;
      PushChain(slots, NextFree, oldIdx, old(freeList), index, data[index]);
      assert data[..] == slots[index := data[index]];
    }

    /** Takes the top index off the free list; false when the head index is the sentinel. */
    method PopFreeIndex() returns (ok: bool, index: nat)
      requires FreeListValid()
      modifies this
      ensures FreeListValid()
      ensures ok <==> old(freeList) != []
      ensures !ok ==> head == old(head) && freeList == old(freeList)
      ensures ok ==> && index == old(freeList)[0] == Unpack(old(head)).0
                     && index < data.Length
                     && freeList == old(freeList)[1..]
                     && data[index].nextFree <= data.Length
                     && head == Pack(data[index].nextFree, Unpack(old(head)).1 + 1)
    {
      var (oldIdx, oldCtr) := Unpack(head);
      if oldIdx == data.Length {
        return false, 0;
      }
      index := oldIdx;
      var nextIdx := data[index].nextFree;
      PopChain(data[..], NextFree, oldIdx, freeList);
      ChainTop(data[..], NextFree, nextIdx, freeList[1..]);
      // The compare-and-set finds head unchanged and installs the new word.
      head := Pack(nextIdx, oldCtr + 1);
      freeList := freeList[1..];
      ok := true;
    }

    /** Pops a free slot and installs `v` in it by a compare-and-set that
        expects a null handle. When the popped slot is not null the call fails
        and the popped index stays off the free list. */
    method Insert(v: T) returns (r: Option<nat>)
      requires FreeListValid()
      modifies this, data
      ensures FreeListValid()
      ensures old(freeList) == [] ==>
                r == None && head == old(head) && freeList == old(freeList) && data[..] == old(data[..])
      ensures old(freeList) != [] ==>
                var idx := old(freeList)[0];
                && idx < data.Length
                && freeList == old(freeList)[1..]
                && old(data[idx].nextFree) <= data.Length
                && head == Pack(old(data[idx].nextFree), Unpack(old(head)).1 + 1)
                && (old(data[idx].value).Some? ==> r == None && data[..] == old(data[..]))
                && (old(data[idx].value).None? ==>
                      && r == Some(idx)
                      && data[..] == old(data[..])[idx := Entry(Some(v), old(data[idx].nextFree))])
      ensures old(Valid()) ==> Valid()
      ensures old(Valid()) ==> (r.None? <==> old(Count()) == data.Length)
      ensures old(Valid()) ==> Count() == old(Count()) + (if r.Some? then 1 else 0)
    {
      ghost var h0 := head;
      ghost var wasValid := Valid();
      if wasValid {
        FreeListSize();
      }
      var ok, idx := PopFreeIndex();
      if !ok {
        return None;
      }
      if data[idx].value.Some? {
        // Lost race: the popped index is not pushed back.
        return None;
      }
      ghost var slots := data[..];
      assert head == Pack(slots[idx].nextFree, Unpack(h0).1 + 1);
      data[idx] := data[idx].(value := Some(v));
      assert data[..] == slots[idx := Entry(Some(v), slots[idx].nextFree)];
      r := Some(idx);
      ChainFrame(slots, data[..], NextFree, Unpack(head).0, freeList);
      if wasValid {
        FillAgrees(slots, old(freeList), v);
        FreeListSize();
      }
    }

    /** Nulls a non-null slot by a compare-and-set on its handle and pushes its
        index back; false for an index out of range or a null slot. */
    method Erase(idx: nat) returns (ok: bool)
      requires Valid()
      modifies this, data
      ensures Valid()
      ensures ok <==> idx < data.Length && old(data[idx].value).Some?
      ensures !ok ==> head == old(head) && freeList == old(freeList) && data[..] == old(data[..])
      ensures ok ==> && freeList == [idx] + old(freeList)
                     && head == Pack(idx, Unpack(old(head)).1 + 1)
                     && data[..] == old(data[..])[idx := Entry(None, Unpack(old(head)).0)]
      ensures Count() == old(Count()) - (if ok then 1 else 0)
    {
      ghost var h0 := head;
      FreeListSize();
      if idx >= data.Length {
        return false;
      }
      var expected := data[idx].value;
      if expected.None? {
        return false;
      }
      ghost var slots := data[..];
      data[idx] := data[idx].(value := None);
      assert data[..] == slots[idx := slots[idx].(value := None)];
      ChainFrame(slots, data[..], NextFree, Unpack(head).0, freeList);
      ghost var top := Unpack(head).0;
      PushFreeIndex(idx);
      assert head == Pack(idx, Unpack(h0).1 + 1);
      ok := true;
      assert data[..] == slots[idx := Entry(None, top)];
      ClearAgrees(slots, old(freeList), idx, top);
      FreeListSize();
    }

    /** A copy of the element at `idx`: present exactly when `idx` is in range
        and its handle is non-null. */
    method At(idx: nat) returns (r: Option<T>)
      ensures r.Some? <==> idx < data.Length && Occupied(data[idx])
      ensures r.Some? ==> data[idx].value == r
    {
      if idx >= data.Length {
        return None;
      }
      var element := data[idx].value;
      if element.Some? {
        return Some(element.value);
      }
      return None;
    }

    /** The lowest index whose non-null element satisfies `pred`. */
    method FindIf(pred: T -> bool) returns (r: Option<nat>)
      ensures r.Some? ==> && r.value < data.Length
                          && Matches(data[r.value], pred)
                          && forall j :: 0 <= j < r.value ==> !Matches(data[j], pred)
      ensures r.None? ==> forall j :: 0 <= j < data.Length ==> !Matches(data[j], pred)
    {
      for i := 0 to data.Length
        invariant forall j :: 0 <= j < i ==> !Matches(data[j], pred)
      {
        var element := data[i].value;
        if element.Some? && pred(element.value) {
          return Some(i);
        }
      }
      return None;
    }

    /** The lowest index whose element equals `value`. */
    method Find(value: T) returns (r: Option<nat>)
      ensures r.Some? ==> && r.value < data.Length
                          && data[r.value].value == Some(value)
                          && forall j :: 0 <= j < r.value ==> data[j].value != Some(value)
      ensures r.None? ==> forall j :: 0 <= j < data.Length ==> data[j].value != Some(value)
    {
      r := FindIf(x => x == value);
    }

    /** The number of non-null slots; with the invariant, the capacity less the
        length of the free list. */
    method Size() returns (n: nat)
      ensures n == Count() && n <= data.Length
      ensures Valid() ==> n + |freeList| == data.Length
    {
      n := 0;
      for i := 0 to data.Length
        invariant n == CountWhere(data[..i], Occupied)
      {
        assert data[..i + 1][..i] == data[..i];
        if data[i].value.Some? {
          n := n + 1;
        }
      }
      assert data[..data.Length] == data[..];
      if Valid() {
        FreeListSize();
      }
    }

    /** The fixed capacity N: every slot is either free or occupied. */
    method Capacity() returns (c: nat)
      ensures c == data.Length
      ensures Valid() ==> c == |freeList| + Count()
    {
      c := data.Length;
      if Valid() {
        FreeListSize();
      }
    }
  }
}
