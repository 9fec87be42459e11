/**
  The in-place slot table: N slots held in a fixed array. Each slot has a
  32-bit state word, storage for one element and a next-free link. One packed
  head word holds the top of the free-list stack.

  Every compare-and-set of the lock-free code is modelled as one atomic step
  that succeeds at once, as it does when one thread runs the table. A retry
  loop therefore runs its body exactly once.
 */
module SafeArray {
  import opened Wrappers
  import opened Packing
  import opened FreeStack

  /** An unsigned 32-bit state word. Its low two bits are the lifecycle phase
      (`st & 0x3` is `st % 4`); the other bits are the ABA counter, so the
      counter is bumped by adding 4. */
  type Word32 = w: nat | w < TWO_32

  const EMPTY: nat := 0
  const INIT: nat := 1
  const READY: nat := 2
  const REMOVING: nat := 3

  /** One slot: its state word, the element constructed in its storage (if
      any) and the index of the next free slot. */
  datatype Entry<T> = Entry(state: Word32, storage: Option<T>, nextFree: nat)

  /** What a successful operation hands back: the slot index and its element. */
  datatype OpResult<T> = OpResult(index: nat, value: T)

  /** The lifecycle phase of a state word: `st & STATE_MASK`. */
  function Phase(st: Word32): (p: nat)
    ensures p < 4
  {
    st % 4
  }

  /** The counter bits of a state word, `st & ~STATE_MASK`: the word with its
      phase cleared. */
  function Generation(st: Word32): (g: Word32)
    ensures Phase(g) == EMPTY
    ensures g % 4 == 0 && g + Phase(st) == st
    ensures g <= st
  {
    st - st % 4
  }

  /** Setting the phase bits of a word whose phase bits are clear. */
  lemma WithPhase(g: nat, phase: nat)
    requires g % 4 == 0 && phase < 4
    ensures (g + phase) % 4 == phase
    ensures (g + phase) - (g + phase) % 4 == g
  {
  }

  /** Adding 4 to counter bits keeps the phase bits clear, also when the sum
      wraps to 0, and leaves room for a phase. */
  lemma BumpedGeneration(g: Word32)
    requires g % 4 == 0
    ensures ((g + 4) % TWO_32) % 4 == 0
    ensures (g + 4) % TWO_32 + 3 < TWO_32
  {
    if g + 4 < TWO_32 {
      assert (g + 4) % TWO_32 == g + 4;
    } else {
      assert g + 4 == TWO_32;
    }
  }

  /** The word written by the compare-and-set that starts insert (EMPTY to
      INIT) and erase (READY to REMOVING): `ctr | phase`, same counter, new
      phase. */
  function Claim(st: Word32, phase: nat): (r: Word32)
    requires phase < 4
    ensures Phase(r) == phase
    ensures Generation(r) == Generation(st)
  {
    WithPhase(Generation(st), phase);
    Generation(st) + phase
  }

  /** The store that ends insert (phase READY) and erase (phase EMPTY):
      `((ctr + 4) & ~STATE_MASK) | phase`, the counter raised by 4 modulo
      2^32 and the phase set. */
  function Advance(st: Word32, phase: nat): (r: Word32)
    requires phase < 4
    ensures Phase(r) == phase
    ensures Generation(r) == (Generation(st) + 4) % TWO_32
  {
    BumpedGeneration(Generation(st));
    WithPhase((Generation(st) + 4) % TWO_32, phase);
    (Generation(st) + 4) % TWO_32 + phase
  }

  /** The counter read back after a claim is the one before it, so claim then
      publish (or retire) raises the original counter by 4. */
  lemma ClaimThenAdvance(st: Word32, claimed: nat, phase: nat)
    requires claimed < 4 && phase < 4
    ensures Advance(Claim(st, claimed), phase) == Advance(st, phase)
  {
  }

  /** Every publish or retire store changes the word, so a compare-and-set
      that still expects the previous word fails. */
  lemma AdvanceChangesWord(st: Word32, phase: nat)
    requires phase < 4
    ensures Advance(st, phase) != st
  {
  }

  function NextFree<T>(e: Entry<T>): nat {
    e.nextFree
  }

  /** Readers treat a slot as live exactly when its phase is READY. */
  predicate IsLive<T>(e: Entry<T>) {
    Phase(e.state) == READY
  }

  /** A live slot whose element satisfies `pred`. */
  predicate Matches<T>(e: Entry<T>, pred: T -> bool) {
    IsLive(e) && e.storage.Some? && pred(e.storage.value)
  }

  /** Every slot is EMPTY or READY, is on the free list `free` exactly when
      EMPTY and holds an element exactly when READY. */
  ghost predicate SlotsAgree<T>(slots: seq<Entry<T>>, free: seq<nat>) {
    forall i :: 0 <= i < |slots| ==>
      && (Phase(slots[i].state) == EMPTY || Phase(slots[i].state) == READY)
      && (i in free <==> Phase(slots[i].state) == EMPTY)
      && (slots[i].storage.Some? <==> Phase(slots[i].state) == READY)
  }

  /** Publishing the slot popped from the top leaves slots and the rest of the
      stack in agreement. */
  lemma PublishAgrees<T>(slots: seq<Entry<T>>, free: seq<nat>, v: T)
    requires SlotsAgree(slots, free) && NoDup(free)
    requires free != [] && free[0] < |slots|
    ensures SlotsAgree(slots[free[0] := Entry(Advance(slots[free[0]].state, READY), Some(v), slots[free[0]].nextFree)], free[1..])
  {
    forall i | i in free[1..]
      ensures i in free && i != free[0]
    {
      var k :| 0 <= k < |free[1..]| && free[1..][k] == i;
      assert free[k + 1] == i;
    }
    forall i | i in free && i != free[0]
      ensures i in free[1..]
    {
      var k :| 0 <= k < |free| && free[k] == i;
      assert free[1..][k - 1] == i;
    }
  }

  /** Retiring a READY slot and pushing it keeps slots and stack in agreement. */
  lemma RetireAgrees<T>(slots: seq<Entry<T>>, free: seq<nat>, idx: nat, top: nat)
    requires SlotsAgree(slots, free)
    requires idx < |slots| && IsLive(slots[idx])
    ensures SlotsAgree(slots[idx := Entry(Advance(slots[idx].state, EMPTY), None, top)], [idx] + free)
  {
    forall i | 0 <= i < |slots|
      ensures i in [idx] + free <==> i == idx || i in free
    {
    }
  }

  /** The (index, element) pairs of the READY slots of `slots` that hold an
      element, in index order: what a scan over the slots visits. */
  function LiveEntries<T>(slots: seq<Entry<T>>): seq<OpResult<T>>
    decreases |slots|
  {
    if slots == [] then []
    else
      var n := |slots| - 1;
      LiveEntries(slots[..n]) + (if IsLive(slots[n]) && slots[n].storage.Some? then [OpResult(n, slots[n].storage.value)] else [])
  }

  /** A scan visits only READY slots, and hands back the element each holds. */
  lemma {:induction false} LiveEntriesSound<T>(slots: seq<Entry<T>>)
    ensures forall k :: 0 <= k < |LiveEntries(slots)| ==>
              var r := LiveEntries(slots)[k];
              r.index < |slots| && IsLive(slots[r.index]) && slots[r.index].storage == Some(r.value)
    decreases |slots|
  {
    if slots != [] {
      var n := |slots| - 1;
      LiveEntriesSound(slots[..n]);
    }
  }

  /** A scan visits the slots in increasing index order, each at most once. */
  lemma {:induction false} LiveEntriesSorted<T>(slots: seq<Entry<T>>)
    ensures forall k, m :: 0 <= k < m < |LiveEntries(slots)| ==>
              LiveEntries(slots)[k].index < LiveEntries(slots)[m].index
    decreases |slots|
  {
    if slots != [] {
      var n := |slots| - 1;
      LiveEntriesSorted(slots[..n]);
      LiveEntriesSound(slots[..n]);
    }
  }

  /** Some visited pair names slot `i`. */
  predicate Visits<T>(visited: seq<OpResult<T>>, i: nat) {
    exists k :: 0 <= k < |visited| && visited[k].index == i
  }

  /** A scan visits every READY slot that holds an element. */
  lemma {:induction false} LiveEntriesComplete<T>(slots: seq<Entry<T>>)
    ensures forall i :: 0 <= i < |slots| && IsLive(slots[i]) && slots[i].storage.Some? ==>
              Visits(LiveEntries(slots), i)
    decreases |slots|
  {
    if slots != [] {
      var n := |slots| - 1;
      var prefix := LiveEntries(slots[..n]);
      var last := if IsLive(slots[n]) && slots[n].storage.Some? then [OpResult(n, slots[n].storage.value)] else [];
      assert LiveEntries(slots) == prefix + last;
      LiveEntriesComplete(slots[..n]);
      forall i | 0 <= i < |slots| && IsLive(slots[i]) && slots[i].storage.Some?
        ensures Visits(LiveEntries(slots), i)
      {
        if i < n {
          assert slots[..n][i] == slots[i];
          assert IsLive(slots[..n][i]) && slots[..n][i].storage.Some?;
          assert Visits(prefix, i);
          var k :| 0 <= k < |prefix| && prefix[k].index == i;
          assert (prefix + last)[k] == prefix[k];
          assert LiveEntries(slots)[k].index == i;
        } else {
          assert (prefix + last)[|prefix|].index == i;
          assert LiveEntries(slots)[|prefix|].index == i;
        }
      }
    }
  }

  /** When every READY slot holds an element, a scan visits as many slots as
      there are READY slots. */
  lemma {:induction false} LiveEntriesCount<T>(slots: seq<Entry<T>>, free: seq<nat>)
    requires SlotsAgree(slots, free)
    ensures |LiveEntries(slots)| == CountWhere(slots, IsLive)
    decreases |slots|
  {
    if slots != [] {
      var n := |slots| - 1;
      assert SlotsAgree(slots[..n], free);
      LiveEntriesCount(slots[..n], free);
    }
  }

  class SafeArray<T(==)> {
    /** The slots; the capacity N is data.Length. */
    const data: array<Entry<T>>
    /** The packed (top index, counter) head of the free list. */
    var head: Word64
    /** The free-list stack, top first, as spelled out by head and links. */
    ghost var freeList: seq<nat>

    /** The free list is the chain read from the head's index through the
        slots' links down to the sentinel N, with no index twice. */
    ghost predicate FreeListValid()
      reads this, data
    {
      && 1 <= data.Length < TWO_32
      && IsChain(data[..], NextFree, Unpack(head).0, freeList)
      && NoDup(freeList)
    }

    /** Between calls every slot is EMPTY or READY; a slot is on the free list
        exactly when it is EMPTY and holds an element exactly when READY. */
    ghost predicate Valid()
      reads this, data
    {
      FreeListValid() && SlotsAgree(data[..], freeList)
    }

    /** The number of READY slots. */
    ghost function LiveCount(): nat
      reads this, data
    {
      CountWhere(data[..], IsLive)
    }

    /** Every slot is counted once: free slots are on the stack, the others are live. */
    lemma FreeListSize()
      requires Valid()
      ensures |freeList| + LiveCount() == data.Length
    {
      ChainInRange(data[..], NextFree, Unpack(head).0, freeList);
      forall i: nat
        ensures i in freeList <==> i < data.Length && !IsLive(data[..][i])
      {
        if i in freeList {
          var k :| 0 <= k < |freeList| && freeList[k] == i;
        }
      }
      FreeCount(data[..], IsLive, freeList);
    }

    /** Builds the chain 0 -> 1 -> ... -> N-1 -> N with head (0, 0); every slot is EMPTY. */
    constructor (capacity: nat)
      requires 1 <= capacity < TWO_32
      ensures Valid() && fresh(data)
      ensures data.Length == capacity
      ensures forall i :: 0 <= i < capacity ==> data[i] == Entry(EMPTY, None, i + 1)
      ensures head == Pack(0, 0) && freeList == Range(0, capacity)
      ensures LiveCount() == 0
    {
      var d := new Entry<T>[capacity](_ => Entry(EMPTY, None, 0));
      for i := 0 to capacity - 1
        invariant forall j :: 0 <= j < i ==> d[j] == Entry(EMPTY, None, j + 1)
        invariant forall j :: i <= j < capacity ==> d[j] == Entry(EMPTY, None, 0)
      {
        d[i] := d[i].(nextFree := i + 1);
      }
      d[capacity - 1] := d[capacity - 1].(nextFree := capacity);
      data := d;
      head := Pack(0, 0);
      freeList := Range(0, capacity);
      new;
      InitialChain(data[..], NextFree, 0);
      forall i | 0 <= i < capacity
        ensures i in freeList
      {
        assert freeList[i] == i;
      }
      FreeListSize();
    }

    /** Links `index` in front of the old top and raises the head counter. */
    method PushFreeIndex(index: nat)
      requires FreeListValid() && index < data.Length && index !in freeList
      modifies this, data
      ensures FreeListValid()
      ensures freeList == [index] + old(freeList)
      ensures head == Pack(index, Unpack(old(head)).1 + 1)
      ensures data[..] == old(data[..])[index := old(data[index]).(nextFree := Unpack(old(head)).0)]
    {
      ghost var slots := data[..];
      var (oldIdx, oldCtr) := Unpack(head);
      data[index] := data[index].(nextFree := oldIdx);
      // The compare-and-set finds head unchanged and installs the new word.
      head := Pack(index, oldCtr + 1);
      freeList := [index] + freeList;
      PushChain(slots, NextFree, oldIdx, old(freeList), index, data[index]);
      assert data[..] == slots[index := data[index]];
    }

    /** Takes the top index off the free list; false when the head index is the sentinel. */
    method PopFreeIndex() returns (ok: bool, index: nat)
      requires FreeListValid()
      modifies this
      ensures FreeListValid()
      ensures ok <==> old(freeList) != []
      ensures !ok ==> head == old(head) && freeList == old(freeList)
      ensures ok ==> && index == old(freeList)[0] == Unpack(old(head)).0
                     && index < data.Length
                     && freeList == old(freeList)[1..]
                     && data[index].nextFree <= data.Length
                     && head == Pack(data[index].nextFree, Unpack(old(head)).1 + 1)
    {
      var (oldIdx, oldCtr) := Unpack(head);
      if oldIdx == data.Length {
        return false, 0;
      }
      index := oldIdx;
      var nextIdx := data[index].nextFree;
      PopChain(data[..], NextFree, oldIdx, freeList);
      ChainTop(data[..], NextFree, nextIdx, freeList[1..]);
      // The compare-and-set finds head unchanged and installs the new word.
      head := Pack(nextIdx, oldCtr + 1);
      freeList := freeList[1..];
      ok := true;
    }

    /** Steps 1-3 of insert on a slot found EMPTY: the compare-and-set to
        INIT (same counter), construction of `v` in the storage, and the
        release store of READY with the counter raised by 4. */
    method Publish(idx: nat, v: T)
      requires idx < data.Length && Phase(data[idx].state) == EMPTY
      modifies data
      ensures data[idx] == Entry(Advance(old(data[idx].state), READY), Some(v), old(data[idx].nextFree))
      ensures forall j :: 0 <= j < data.Length && j != idx ==> data[j] == old(data[j])
    {
      var e := data[idx];
      var initSt := Claim(e.state, INIT);
      data[idx] := data[idx].(state := initSt);
      data[idx] := data[idx].(storage := Some(v));
      var bumped := Advance(initSt, READY);
      ClaimThenAdvance(e.state, INIT, READY);
      data[idx] := data[idx].(state := bumped);
    }

    /** Steps 1-3 of erase on a slot found READY: the compare-and-set to
        REMOVING (same counter), destruction of the element, and the release
        store of EMPTY with the counter raised by 4. */
    method Retire(idx: nat)
      requires idx < data.Length && Phase(data[idx].state) == READY
      modifies data
      ensures data[idx] == old(data[idx]).(state := Advance(old(data[idx].state), EMPTY), storage := None)
      ensures forall j :: 0 <= j < data.Length && j != idx ==> data[j] == old(data[j])
    {
      var e := data[idx];
      var remSt := Claim(e.state, REMOVING);
      data[idx] := data[idx].(state := remSt);
      data[idx] := data[idx].(storage := None);
      var bumped := Advance(remSt, EMPTY);
      ClaimThenAdvance(e.state, REMOVING, EMPTY);
      data[idx] := data[idx].(state := bumped);
    }

    /** Pops a free slot, claims it (EMPTY to INIT), stores `v` and publishes it
        as READY with its counter raised by 4. When the popped slot is not
        EMPTY the call fails and the popped index stays off the free list. */
    method Insert(v: T) returns (r: Option<OpResult<T>>)
      requires FreeListValid()
      modifies this, data
      ensures FreeListValid()
      ensures old(freeList) == [] ==>
                r == None && head == old(head) && freeList == old(freeList) && data[..] == old(data[..])
      ensures old(freeList) != [] ==>
                var idx := old(freeList)[0];
                && idx < data.Length
                && freeList == old(freeList)[1..]
                && old(data[idx].nextFree) <= data.Length
                && head == Pack(old(data[idx].nextFree), Unpack(old(head)).1 + 1)
                && (Phase(old(data[idx].state)) != EMPTY ==> r == None && data[..] == old(data[..]))
                && (Phase(old(data[idx].state)) == EMPTY ==>
                      && r == Some(OpResult(idx, v))
                      && data[..] == old(data[..])[idx := Entry(Advance(old(data[idx].state), READY), Some(v), old(data[idx].nextFree))])
      ensures old(Valid()) ==> Valid()
      ensures old(Valid()) ==> (r.None? <==> old(LiveCount()) == data.Length)
      ensures old(Valid()) ==> LiveCount() == old(LiveCount()) + (if r.Some? then 1 else 0)
    {
      ghost var wasValid := Valid();
      if wasValid {
        FreeListSize();
      }
      var ok, idx := PopFreeIndex();
      if !ok {
        return None;
      }
      if Phase(data[idx].state) != EMPTY {
        // Lost race: the popped index is not pushed back.
        return None;
      }
      ghost var slots := data[..];
      Publish(idx, v);
      assert data[..] == slots[idx := Entry(Advance(slots[idx].state, READY), Some(v), slots[idx].nextFree)];
      r := Some(OpResult(idx, v));
      ChainFrame(slots, data[..], NextFree, Unpack(head).0, freeList);
      if wasValid {
        PublishAgrees(slots, old(freeList), v);
        FreeListSize();
      }
    }

    /** Retires a READY slot (READY to REMOVING), destroys its element, marks it
        EMPTY with its counter raised by 4 and pushes its index back. */
    method Erase(idx: nat) returns (ok: bool)
      requires Valid()
      modifies this, data
      ensures Valid()
      ensures ok <==> idx < data.Length && old(IsLive(data[idx]))
      ensures !ok ==> head == old(head) && freeList == old(freeList) && data[..] == old(data[..])
      ensures ok ==> && freeList == [idx] + old(freeList)
                     && head == Pack(idx, Unpack(old(head)).1 + 1)
                     && data[..] == old(data[..])[idx := Entry(Advance(old(data[idx].state), EMPTY), None, Unpack(old(head)).0)]
      ensures LiveCount() == old(LiveCount()) - (if ok then 1 else 0)
    {
      ghost var h0 := head;
      FreeListSize();
      if idx >= data.Length {
        return false;
      }
      if Phase(data[idx].state) != READY {
        return false;
      }
      ghost var slots := data[..];
      Retire(idx);
      assert data[..] == slots[idx := slots[idx].(state := Advance(slots[idx].state, EMPTY), storage := None)];
      ChainFrame(slots, data[..], NextFree, Unpack(head).0, freeList);
      ghost var top := Unpack(head).0;
      PushFreeIndex(idx);
      assert head == Pack(idx, Unpack(h0).1 + 1);
      ok := true;
      assert data[..] == slots[idx := Entry(Advance(slots[idx].state, EMPTY), None, top)];
      RetireAgrees(slots, old(freeList), idx, top);
      FreeListSize();
    }

    /** The element at `idx`, exactly when `idx` is in range and its slot is READY. */
    method At(idx: nat) returns (r: Option<OpResult<T>>)
      requires Valid()
      ensures r.Some? <==> idx < data.Length && IsLive(data[idx])
      ensures r.Some? ==> r.value.index == idx && data[idx].storage == Some(r.value.value)
    {
      if idx >= data.Length {
        return None;
      }
      var st := data[idx].state;
      if Phase(st) != READY {
        return None;
      }
      r := Some(OpResult(idx, data[idx].storage.value));
    }

    /** The lowest-indexed READY slot whose element satisfies `pred`. */
    method FindIf(pred: T -> bool) returns (r: Option<OpResult<T>>)
      requires Valid()
      ensures r.Some? ==> && r.value.index < data.Length
                          && Matches(data[r.value.index], pred)
                          && data[r.value.index].storage == Some(r.value.value)
                          && forall j :: 0 <= j < r.value.index ==> !Matches(data[j], pred)
      ensures r.None? ==> forall j :: 0 <= j < data.Length ==> !Matches(data[j], pred)
    {
      for i := 0 to data.Length
        invariant forall j :: 0 <= j < i ==> !Matches(data[j], pred)
      {
        var st := data[i].state;
        if Phase(st) == READY {
          var x := data[i].storage.value;
          if pred(x) {
            return Some(OpResult(i, x));
          }
        }
      }
      return None;
    }

    /** The lowest-indexed READY slot holding an element equal to `value`. */
    method Find(value: T) returns (r: Option<OpResult<T>>)
      requires Valid()
      ensures r.Some? ==> && r.value.index < data.Length
                          && IsLive(data[r.value.index])
                          && data[r.value.index].storage == Some(value)
                          && r.value.value == value
                          && forall j :: 0 <= j < r.value.index ==> !(IsLive(data[j]) && data[j].storage == Some(value))
      ensures r.None? ==> forall j :: 0 <= j < data.Length ==> !(IsLive(data[j]) && data[j].storage == Some(value))
    {
      r := FindIf(x => x == value);
    }

    /** The number of READY slots; with the invariant, the capacity less the
        length of the free list. */
    method Size() returns (n: nat)
      ensures n == LiveCount() && n <= data.Length
      ensures Valid() ==> n + |freeList| == data.Length
    {
      n := 0;
      for i := 0 to data.Length
        invariant n == CountWhere(data[..i], IsLive)
      {
        assert data[..i + 1][..i] == data[..i];
        var st := data[i].state;
        if Phase(st) == READY {
          n := n + 1;
        }
      }
      assert data[..data.Length] == data[..];
      if Valid() {
        FreeListSize();
      }
    }

    /** The fixed capacity N: every slot is either free or live. */
    method Capacity() returns (c: nat)
      ensures c == data.Length
      ensures Valid() ==> c == |freeList| + LiveCount()
    {
      c := data.Length;
      if Valid() {
        FreeListSize();
      }
    }

    /** The (index, element) pairs of the READY slots, in index order: each
        live slot once and nothing else. */
    method ForEach() returns (visited: seq<OpResult<T>>)
      requires Valid()
      ensures visited == LiveEntries(data[..])
      ensures |visited| == LiveCount()
      ensures forall k :: 0 <= k < |visited| ==>
                && visited[k].index < data.Length
                && IsLive(data[visited[k].index])
                && data[visited[k].index].storage == Some(visited[k].value)
      ensures forall k, m :: 0 <= k < m < |visited| ==> visited[k].index < visited[m].index
      ensures forall i :: 0 <= i < data.Length && IsLive(data[i]) ==> Visits(visited, i)
    {
      visited := [];
      for i := 0 to data.Length
        invariant visited == LiveEntries(data[..i])
      {
        assert data[..i + 1][..i] == data[..i];
        var opt := At(i);
        if opt.Some? {
          visited := visited + [opt.value];
        }
      }
      assert data[..data.Length] == data[..];
      LiveEntriesSound(data[..]);
      LiveEntriesSorted(data[..]);
      LiveEntriesComplete(data[..]);
      LiveEntriesCount(data[..], freeList);
    }

    /** Teardown: the element of every READY slot is destroyed. State words
        and links are left as they are, and afterwards no slot holds an element. */
    method Destroy()
      requires Valid()
      modifies data
      ensures forall i :: 0 <= i < data.Length ==>
                data[i] == old(data[i]).(storage := None)
    {
      for i := 0 to data.Length
        invariant forall j :: 0 <= j < i ==> data[j] == old(data[j]).(storage := None)
        invariant forall j :: i <= j < data.Length ==> data[j] == old(data[j])
      {
        var st := data[i].state;
        if Phase(st) == READY {
          data[i] := data[i].(storage := None);
        }
      }
    }
  }
}
