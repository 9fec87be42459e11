# thread-safe-array, modelled in Dafny

The repository provides two fixed-capacity, lock-free slot tables ("arenas")
for C++. Each holds N slots and hands out slot indices from an intrusive
free-list stack. The stack's top index and a generation counter share one
64-bit head word: the index sits in the low 32 bits and the counter in the
high 32 bits. The counter is raised on every push and pop, so a stale
compare-and-set on the head cannot succeed (the ABA problem) unless the
32-bit counter has wrapped back to the same value, after 2^32 updates.

- `Safe_Array` (`safe_array.h`) stores each element in place. Every slot has
  a 32-bit state word whose low two bits are the phase EMPTY, INIT, READY or
  REMOVING. The other bits are a counter.
  - Insert pops an index and moves the slot EMPTY to INIT with the counter
    kept. It then constructs the element and stores READY with the counter
    raised by 4.
  - Erase moves the slot READY to REMOVING. It then destroys the element,
    stores EMPTY with the counter raised by 4 and pushes the index back.
  - Readers treat a slot as live only when its phase is READY.
- `Array` (`ts_array.h`) keeps a nullable shared handle per slot instead. A
  slot is occupied when its handle is non-null. Insert installs the handle by
  a compare-and-set that expects null; erase swaps it back to null.

The model is sequential: every compare-and-set is one step that succeeds,
which is what happens when one thread uses the table. On that model the
project proves several things:

- The free-list stack the links spell out is exactly a ghost list of
  distinct indices.
- Between calls, an index is on that list exactly when its slot is free
  (EMPTY, or a null handle).
- Insert and erase keep that invariant, so the "slot not free" failure branch
  of insert cannot happen single-threaded.
- size() plus the free-list length is the capacity.
- Scans return the lowest matching index.

Modules:

- `Wrappers`: the `Option` type.
- `Packing`: the head word.
- `FreeStack`: the free-list chain and the counting facts, on plain values.
- `SafeArray`: the in-place table as a class over an `array` of entries.
- `TsArray`: the handle-based table, also a class over an `array`.
- `Scenarios`: call sequences (LIFO reuse, erase twice, insert then read,
  the capacity-2 walk-through) proved from the operations' contracts.

The counter in a state word does not rise on every transition. The
claiming compare-and-set (EMPTY to INIT, READY to REMOVING) keeps it
(`safe_array.h:137`, `179`). Only the final store raises it by 4 modulo 2^32
(`148-150`, `190-192`). In the model, `Claim` keeps `Generation` and `Advance`
raises it by 4 modulo 2^32.

## Model

| member | source | states |
|---|---|---|
| Packing.Pack | safe_array.h:47-50 | Unpacking the packed word gives back the index and the counter modulo 2^32, the bits a 32-bit shift of the counter keeps |
| Packing.Unpack | safe_array.h:52-56 | The index half and the counter half of a 64-bit word both fit in 32 bits |
| Packing.UnpackPack | ts_array.h:33-42 | Every 64-bit head word is the packing of its own index and counter halves |
| Packing.BumpChangesWord | safe_array.h:69 | Raising the counter by one with the index kept always produces a different head word |
| Packing.CounterWraps | safe_array.h:47-50 | Raising the counter by 2^32 with the index kept gives back the same head word, so the ABA guard holds only until the counter wraps |
| FreeStack.ChainTop | safe_array.h:87-93 | The head index of a chain is either a slot index or the sentinel N |
| FreeStack.ChainInRange | safe_array.h:92-93 | Every index reached by following next-free links from the head is a valid slot index |
| FreeStack.ChainUnique | safe_array.h:44-45 | The head word and the links determine the free list: two lists read from the same links are equal |
| FreeStack.ChainFrame | safe_array.h:143-150 | Rewriting slots without touching the links of slots on the list leaves the list intact |
| FreeStack.PushChain | safe_array.h:59-74 | Writing the old top into slot i's link and making i the top yields the list with i in front, still without repetitions |
| FreeStack.PopChain | safe_array.h:77-102 | A non-empty list's top is the head index, and moving the head to that slot's link yields the rest of the list |
| FreeStack.InitialChain | safe_array.h:285-296 | When slot j links to j+1, the chain from k is k, ..., N-1 ending at the sentinel N, with no repetitions |
| FreeStack.CountWhere | safe_array.h:250-265 | The count is at most the length, and equals it exactly when every element qualifies |
| FreeStack.UnmarkedCount | safe_array.h:250-265 | The unqualified indices below n plus the qualified count of the first n elements is n |
| FreeStack.NoDupCard | safe_array.h:59-102 | A list with no repetitions has as many distinct elements as entries |
| FreeStack.FreeCount | safe_array.h:250-265 | When the list holds exactly the unoccupied indices once each, its length plus the occupied count is the capacity |
| SafeArray.Phase | safe_array.h:28-36 | `st & STATE_MASK` is one of the four phases |
| SafeArray.Generation | safe_array.h:28-36 | `st & ~STATE_MASK` has phase EMPTY, and the word is exactly its counter bits plus its phase |
| SafeArray.Claim | safe_array.h:137 | `ctr OR phase` has the requested phase and the same counter bits |
| SafeArray.Advance | safe_array.h:148-150 | `((ctr + 4) & ~STATE_MASK) OR phase` has the requested phase and counter bits raised by 4 modulo 2^32 |
| SafeArray.ClaimThenAdvance | safe_array.h:189-192 | Advancing the claimed word equals advancing the word seen before the claim |
| SafeArray.AdvanceChangesWord | safe_array.h:149-150 | The publish or retire store always writes a word different from the one before it |
| SafeArray.PublishAgrees | safe_array.h:117-152 | Publishing the popped top slot as READY keeps every slot agreeing with the rest of the free list |
| SafeArray.RetireAgrees | safe_array.h:165-195 | Marking a READY slot EMPTY without an element and pushing it keeps slots and free list in agreement |
| SafeArray.LiveEntriesSound | safe_array.h:274-283 | Every pair a scan visits names a READY slot and the element it holds |
| SafeArray.LiveEntriesSorted | safe_array.h:276 | A scan visits slots in strictly increasing index order |
| SafeArray.LiveEntriesComplete | safe_array.h:276-282 | A scan visits every READY slot that holds an element |
| SafeArray.LiveEntriesCount | safe_array.h:274-283 | With the invariant, a scan visits as many slots as there are READY slots |
| SafeArray.SafeArray.FreeListSize | safe_array.h:250-265 | With the invariant, the free-list length plus the READY count is the capacity |
| SafeArray.SafeArray.constructor | safe_array.h:285-296 | The chain is 0 -> 1 -> ... -> N-1 -> N, the head is (0, 0), every slot is EMPTY and none is live |
| SafeArray.SafeArray.PushFreeIndex | safe_array.h:59-74 | The slot's link gets the old top, the head becomes (index, counter+1), the list gains index in front, no other slot changes |
| SafeArray.SafeArray.PopFreeIndex | safe_array.h:77-102 | False with nothing changed on an empty list; otherwise it returns the top and the head becomes (that slot's link, counter+1) |
| SafeArray.SafeArray.Publish | safe_array.h:124-150 | The slot ends READY with its counter raised by 4 and holding v; no other slot changes |
| SafeArray.SafeArray.Retire | safe_array.h:165-192 | The slot ends EMPTY with its counter raised by 4 and no element; no other slot changes |
| SafeArray.SafeArray.Insert | safe_array.h:114-153 | Full list: none, no change. Otherwise pops the top; a non-EMPTY slot gives none and the index is not pushed back; an EMPTY slot ends READY, counter +4, holding v, and (index, v) is returned. Keeps the invariant, under which it fails exactly when all N slots are live |
| SafeArray.SafeArray.Erase | safe_array.h:156-197 | True exactly when idx < N and the slot is READY, else no change; on success the slot ends EMPTY, counter +4, no element, idx is pushed, one live slot fewer; keeps the invariant |
| SafeArray.SafeArray.At | safe_array.h:231-247 | Present exactly when idx < N and the slot is READY, and then it is (idx, the slot's element) |
| SafeArray.SafeArray.FindIf | safe_array.h:201-219 | The lowest READY slot whose element satisfies the predicate, or none when no READY slot does |
| SafeArray.SafeArray.Find | safe_array.h:222-228 | The lowest READY slot holding an element equal to the value, or none when there is none |
| SafeArray.SafeArray.Size | safe_array.h:250-265 | The number of READY slots, at most N; with the invariant, N minus the free-list length |
| SafeArray.SafeArray.Capacity | safe_array.h:267-270 | N, which with the invariant is the free-list length plus the READY count |
| SafeArray.SafeArray.ForEach | safe_array.h:274-283 | Every READY slot once as (index, element), in increasing index order, and nothing else |
| SafeArray.SafeArray.Destroy | safe_array.h:298-309 | Afterwards no slot holds an element; state words and links are unchanged |
| TsArray.FillAgrees | ts_array.h:105-126 | Filling the popped top slot keeps every slot agreeing with the rest of the free list |
| TsArray.ClearAgrees | ts_array.h:162-171 | Nulling a non-null slot and pushing it keeps slots and free list in agreement |
| TsArray.TsArray.FreeListSize | ts_array.h:198-211 | With the invariant, the free-list length plus the non-null count is the capacity |
| TsArray.TsArray.constructor | ts_array.h:218-230 | The chain is 0 -> 1 -> ... -> N-1 -> N, the head is (0, 0) and every handle is null |
| TsArray.TsArray.PushFreeIndex | ts_array.h:45-63 | The slot's link gets the old top, the head becomes (index, counter+1), the list gains index in front |
| TsArray.TsArray.PopFreeIndex | ts_array.h:66-96 | False with nothing changed on an empty list; otherwise it returns the top and the head becomes (that slot's link, counter+1) |
| TsArray.TsArray.Insert | ts_array.h:101-127 | Full list: none, no change. Otherwise pops the top; a non-null slot gives none and the index is not pushed back; a null slot gets v and its index is returned. Keeps the invariant, under which it fails exactly when all N slots are full |
| TsArray.TsArray.Erase | ts_array.h:153-177 | True exactly when index < N and the handle is non-null, else no change; on success the handle becomes null and the index is pushed back; keeps the invariant |
| TsArray.TsArray.At | ts_array.h:180-195 | A copy of the element exactly when index < N and the handle is non-null |
| TsArray.TsArray.FindIf | ts_array.h:131-144 | The lowest index whose non-null element satisfies the predicate, or none when no slot does |
| TsArray.TsArray.Find | ts_array.h:147-150 | The lowest index holding an element equal to the value, or none when none does |
| TsArray.TsArray.Size | ts_array.h:198-211 | The number of non-null slots, at most N; with the invariant, N minus the free-list length |
| TsArray.TsArray.Capacity | ts_array.h:213-216 | N, which with the invariant is the free-list length plus the non-null count |
| Scenarios.SafePushThenPop | safe_array.h:59-102 | A pop right after a push returns the pushed index and restores the free list and head index |
| Scenarios.SafeEraseTwice | safe_array.h:156-197 | Erasing an index twice in a row: the first call succeeds exactly when the slot was READY, the second always fails |
| Scenarios.SafeInsertThenAt | safe_array.h:114-153 | An insert fails only when all N slots are live; reading the returned index gives the inserted value |
| Scenarios.SafeEraseThenAt | safe_array.h:231-247 | After a successful erase, reading that index gives nothing |
| Scenarios.SafeCapacityTwo | safe_array.h:114-265 | Capacity 2: inserts of 10 and 20 get slots 0 and 1, a third fails, erase 0 succeeds, 30 reuses slot 0, 20 is found at 1, size is 2 |
| Scenarios.TsPushThenPop | ts_array.h:45-96 | A pop right after a push returns the pushed index and restores the free list and head index |
| Scenarios.TsEraseTwice | ts_array.h:153-177 | Erasing an index twice in a row: the first call succeeds exactly when the handle was non-null, the second always fails |
| Scenarios.TsInsertThenAt | ts_array.h:101-195 | An insert fails only when all N slots are full; reading the returned index gives the inserted value |
| Scenarios.TsEraseThenAt | ts_array.h:153-195 | After a successful erase, reading that index gives nothing |
| Scenarios.TsCapacityTwo | ts_array.h:101-211 | The capacity-2 walk-through on the handle-based table gives the same indices and results |

## Left out

- Memory orderings and thread interleavings are not modelled.
  - Each `compare_exchange_weak` or `atomic_compare_exchange_*` is one
    compare-and-set that succeeds, so each retry loop runs its body once.
  - The properties about concurrent inserts and erasures are not modelled
    either: the count bound under any interleaving, index uniqueness across
    threads, the four-thread fill and the stress run.
- Placement construction and destruction (`::new (ptr) T(...)`, `ptr->~T()`)
  are not modelled, nor the raw aligned byte buffer. The storage is an
  `Option<T>` set and cleared next to the state word.
- `shared_ptr` reference counting and `make_shared` allocation are not
  modelled; the handle is an `Option<T>`.
- `Op_Result` holds a reference to the element, and how long that reference
  stays valid is not modelled. Operations return an (index, value) pair.
- Perfect forwarding of constructor arguments and constructor exceptions are
  not modelled; insert takes a value of T. A constructor that throws, which
  would lose the popped index, is therefore not modelled.
- `for_each` does not call a visitor. `SafeArray.SafeArray.ForEach` returns
  the sequence of (index, value) pairs the visitor would be called with.
- Element equality: the source needs a user-defined `operator==` on T only
  when `find` is instantiated (`safe_array.h:226`, `ts_array.h:149`). The
  model requires Dafny's built-in equality on T for the whole class and uses
  it in `Find`.
- The include guard shared by both headers and the `static_assert` on a
  non-throwing destructor are build-time concerns.
- The `Capacity` template parameter is a constructor argument between 1 and
  2^32 - 1.
  - With 0, `Capacity - 1` underflows and the sentinel store indexes outside
    the array.
  - With 2^32 or more, indices no longer fit the low half of the head word.
- Packing.Pack: requires the index to be below 2^32, which every caller
  meets because indices are at most the capacity. With that, the bitwise OR
  in the source equals the addition in the model.
- The table operations that need the between-calls invariant (`Valid`)
  require it:
  - Erase, At, FindIf, Find, ForEach and Destroy of `SafeArray`;
  - Erase of `TsArray`.
  `Insert`, `PushFreeIndex` and `PopFreeIndex` of both tables require only
  its free-list half, `FreeListValid`: the head and links spell out a list
  of distinct slot indices.
  Every object built by the constructor has the invariant, and Insert and
  Erase keep it. The source states no precondition, because it relies on
  the same invariant.
- Release of the arena's storage at the end of the destructor is not
  modelled; `Destroy` models only the destruction of live elements.
