# Robin Hood HashMap with insertion order

This project models `HashMap<KeyType, ValueType, Hash>` from `hashmap.h` and
proves properties of the model in Dafny.

The map is an open-addressing hash table that uses Robin Hood placement and
backward-shift deletion. The entries themselves live in a `std::list` kept in
insertion order. Each table slot holds an iterator into that list, or
`end()` for an empty slot. A parallel vector holds each slot's probe sequence
length (PSL): how far the occupant sits from its home slot.

## Structure

- `ordered_map.dfy` (module `OrderedMap`): the abstract value. It is the
  sequence of `(key, value)` pairs in insertion order, with `Lookup`,
  `Insert` (first write wins), `Remove`, `SetValue` and `InsertAll`/`FromSeq`
  (the range constructor), plus the lemmas that say what each one does.
- `entry_store.dfy` (module `EntryStore`): the list, modelled as an arena.
  `nodes` maps a handle (a list node) to its pair, and `order` lists the live
  handles front to back. `View` is what iteration from `begin()` to `end()`
  visits. `Linked` is the well-formedness of the list: the live nodes are
  exactly the linked ones, handles are fresh, and no two entries share a key.
- `slots.dfy` (module `Slots`): arithmetic on the circular table (`Next`,
  `Dist`, `Fwd`, `Back`). It also holds the Robin Hood ordering of PSLs
  (`RobinHoodOrdered`), the proof that this ordering gives reachability, and
  the effect on the ordering of each table update made by insert and erase.
- `slot_index.dfy` (module `SlotIndex`): the table as a value. `Indexed`
  says that each occupied slot holds a placed node, and that each PSL is the
  distance from the occupant's home. Each update to the table (fill, evict,
  clear, shift) is stated as a lemma.
- `hashmap.dfy` (module `RobinHood`): the class `HashMap`.
  - Fields: the list (`nodes`, `order`, `nextHandle`), `table: array<int>`
    (with `Empty` = -1 for `end()`), and `psl: array<nat>`.
  - A ghost map `slot` from each handle to its slot.
  - The methods follow the C++ member functions loop by loop.
  - `Valid()` is the object invariant; every public operation keeps it. It
    says:
    - the capacity is at least 8;
    - `4 * size <= 3 * capacity` (the load bound);
    - the list is well formed;
    - the table holds exactly the list's nodes, each PSL being its distance
      from home;
    - the Robin Hood ordering holds.

What the ordering means: an occupied slot that is not at its home has an
occupied slot before it, whose PSL is at least its own minus one. This local
ordering is what placement, rehash and backward-shift erase preserve. Plain
reachability alone is not enough for that. Take `C` at its home `h`, `A` at
its home `h+1`, and `B` (home `h`) at `h+2` with PSL 2. Every entry is
reachable, but erasing `C` stops the shift at once at `A` (PSL 0) and leaves
`B` out of reach. The ordering rules such tables out, and it implies reachability
(`Slots.ProbeRunIsOccupied`, `RobinHood.HashMap.Reachable`).

The probe loops in find and in insert_already_existed terminate because a
table that is not full has an empty slot (`SlotIndex.EmptySlot`, a pigeonhole
argument). The load bound keeps every table from being full.

## Model

| member | source | states |
|---|---|---|
| `RobinHood.HashMap.constructor` | hashmap.h:16-17 | a new map is empty, has 8 slots, all empty with PSL 0, and keeps the injected hash |
| `RobinHood.HashMap.FromRange` | hashmap.h:19-29 | the range and initializer-list constructors hold `FromSeq(pairs)`: one insert per pair, front to back |
| `RobinHood.HashMap.Copy` | hashmap.h:31 | the copy constructor holds exactly the other map's entries in the same order, with the other map's hash |
| `RobinHood.HashMap.InsertAll` | hashmap.h:23-25 | inserting pairs one after another gives `OrderedMap.InsertAll` of the old entries and the pairs |
| `RobinHood.HashMap.TableMatchesList` | hashmap.h:276-279 | a node is in the list exactly when some slot of the table holds it |
| `RobinHood.HashMap.DisplacementIsModulo` | hashmap.h:250-266 | each occupied slot's PSL is `(slot - hash(key) mod capacity) mod capacity` |
| `RobinHood.HashMap.Reachable` | hashmap.h:198-210 | from an occupant's home, the occupant is PSL steps forward and every slot up to it is occupied |
| `RobinHood.HashMap.Size` | hashmap.h:48-50 | size is the number of entries |
| `RobinHood.HashMap.IsEmpty` | hashmap.h:52-54 | empty holds exactly when there are no entries |
| `RobinHood.HashMap.Locate` | hashmap.h:198-210 | the probe stops at an empty slot exactly when the key is absent, and otherwise at the slot of the node carrying the key and its value |
| `RobinHood.HashMap.Find` | hashmap.h:212-224 | find returns `end()` exactly when the key is absent, and otherwise the node carrying the key, whose value is the stored one |
| `RobinHood.HashMap.At` | hashmap.h:235-241 | at fails with out_of_range exactly when the key is absent, and otherwise returns the stored value |
| `RobinHood.HashMap.Place` | hashmap.h:250-266 | placement keeps the slot consistency and the Robin Hood ordering, and the set of placed nodes gains exactly the new node |
| `RobinHood.HashMap.Visit` | hashmap.h:254-257 | one probe step swaps the carried node with a resident whose PSL is strictly smaller, and otherwise changes nothing |
| `RobinHood.HashMap.Evict` | hashmap.h:255-256 | the two swaps put the carried node and its PSL in the slot and hand back the resident and its PSL |
| `RobinHood.HashMap.Fill` | hashmap.h:264-265 | the carried node takes the empty slot at its PSL; the slot consistency and the ordering are kept |
| `RobinHood.HashMap.Rehash` | hashmap.h:268-274 | rehash doubles the capacity and leaves the list untouched; every node is placed again |
| `RobinHood.HashMap.PlaceAll` | hashmap.h:271-273 | placing the list's nodes front to back places each of them exactly once |
| `RobinHood.HashMap.Insert` | hashmap.h:56-66 | insert leaves `OrderedMap.Insert(old entries, key, value)`; the capacity doubles exactly when `4*(size+1) > 3*capacity`, even for a duplicate key; every existing node keeps its pair, so references and iterators stay valid across growth |
| `RobinHood.HashMap.InsertWithRoom` | hashmap.h:60-65 | a present key leaves the map alone; an absent key is appended |
| `RobinHood.HashMap.InsertAbsent` | hashmap.h:63-65 | an absent key is appended to the entries and placed in the table |
| `RobinHood.HashMap.PushBack` | hashmap.h:63-64 | emplace_back links a fresh node at the back: the entries gain the pair at the end |
| `RobinHood.HashMap.Erase` | hashmap.h:68-98 | erase leaves `OrderedMap.Remove(old entries, key)`; the capacity is unchanged; every node with another key stays, with its pair, and no node is added |
| `RobinHood.HashMap.EraseAt` | hashmap.h:79-98 | erasing the found node removes its key from the entries, unlinks that node and no other, and keeps the invariant |
| `RobinHood.HashMap.UnlinkNode` | hashmap.h:79 | unlinking the node removes exactly its key from the entries, keeping the others in order |
| `RobinHood.HashMap.Unplace` | hashmap.h:80-97 | emptying the slot and shifting back leaves the table holding exactly the remaining nodes, consistent and ordered |
| `RobinHood.HashMap.Vacate` | hashmap.h:80-81 | the slot becomes end() with PSL 0; the ordering can only break at the next slot |
| `RobinHood.HashMap.ShiftFrom` | hashmap.h:82-97 | the backward-shift loop, run until an empty slot or a PSL of 0, leaves the table consistent and Robin Hood ordered with the same placed nodes |
| `RobinHood.HashMap.ShiftBack` | hashmap.h:89-91 | one shift moves the next occupant into the hole with its PSL lowered by one, and moves the hole on |
| `RobinHood.HashMap.Index` | hashmap.h:226-233 | operator[] inserts `(key, default)` when the key is missing, and returns a reference to a value that is the old one or the default; every existing node keeps its pair |
| `RobinHood.HashMap.InsertDefault` | hashmap.h:228-231 | the miss branch of operator[] appends `(key, default)` and returns the node holding it; every existing node keeps its pair |
| `RobinHood.HashMap.SetValue` | hashmap.h:226-233 | writing through the reference from operator[] or find sets the value of that key only; the node keeps its key, every other node its pair, and the list its order |
| `RobinHood.HashMap.Clear` | hashmap.h:243-247 | clear leaves no entries, every slot empty with PSL 0, and the same capacity |
| `OrderedMap.InsertSpec` | hashmap.h:56-66 | inserting an absent key appends the pair and adds one to size; a present key changes nothing; keys stay distinct |
| `OrderedMap.FromSeqFirstWins` | hashmap.h:19-26 | a map built from a range reads each key's first value in the range |
| `OrderedMap.FromSeqOfDistinct` | hashmap.h:31 | built from distinct keys (another map's entries), the map holds exactly the range, in order |
| `OrderedMap.LookupInsertAll` | hashmap.h:19-26 | inserting a range reads each key as the concatenation of old entries and range does |
| `OrderedMap.InsertAllDistinct` | hashmap.h:19-26 | inserting a range keeps the keys distinct |
| `OrderedMap.RemoveAbsent` | hashmap.h:76-78 | erasing an absent key changes nothing |
| `OrderedMap.RemoveAt` | hashmap.h:79 | removing the key of the only entry carrying it cuts out exactly that entry, keeping the others in order |
| `OrderedMap.RemoveSpec` | hashmap.h:68-98 | erasing a present key removes one entry, an absent key none; keys stay distinct |
| `OrderedMap.LookupRemove` | hashmap.h:68-98 | after erase the key is absent and every other key reads as before |
| `OrderedMap.SetValueSpec` | hashmap.h:226-233 | writing through a reference changes the value under that key only, at the same position |
| `OrderedMap.LookupSetValue` | hashmap.h:226-233 | after the write the key reads the new value and other keys read as before |
| `OrderedMap.LookupDistinct` | hashmap.h:198-210 | with distinct keys, the entry carrying a key is what lookup finds |
| `EntryStore.LinkedLookup` | hashmap.h:198-210 | the list node carrying a key holds the value the entries give that key; no node carries an absent key |
| `EntryStore.LinkedAppend` | hashmap.h:63 | emplace_back of an absent key keeps the list well formed, and iteration shows the insertion of the pair |
| `EntryStore.LinkedUnlink` | hashmap.h:79 | list erase of a live node keeps the list well formed, and iteration shows the removal of its key |
| `EntryStore.LinkedSetValue` | hashmap.h:232 | writing a node's value keeps the list well formed, and iteration shows the new value for its key |
| `EntryStore.ViewUnlink` | hashmap.h:79 | unlinking the only node carrying a key removes exactly that key from what iteration visits |
| `EntryStore.Unlink` | hashmap.h:79 | the handles still linked after list erase are the old ones minus the erased node |
| `Slots.DistIsModulo` | hashmap.h:251-263 | the forward distance from home is `(slot - home) mod capacity` |
| `Slots.ProbeRunIsOccupied` | hashmap.h:198-210 | under the Robin Hood ordering, every slot from an occupant's home up to the occupant is occupied |
| `Slots.RunBehindIsOccupied` | hashmap.h:198-210 | walking back from an occupant over its PSL, each slot is occupied with a large enough PSL |
| `Slots.EvictKeepsOrder` | hashmap.h:254-257 | evicting a resident with a strictly smaller PSL keeps the ordering |
| `Slots.FillKeepsOrder` | hashmap.h:264-265 | filling the empty slot that ends the probe keeps the ordering |
| `Slots.ClearKeepsOrder` | hashmap.h:80-81 | emptying the erased slot breaks the ordering at most at the next slot |
| `Slots.ShiftKeepsOrder` | hashmap.h:88-91 | one backward shift moves the possible break one slot on |
| `Slots.StopRestoresOrder` | hashmap.h:88 | stopping at an empty slot or a PSL of 0 restores the ordering everywhere |
| `SlotIndex.EmptySlot` | hashmap.h:57-59 | while fewer nodes than slots are placed (the load bound), some slot is empty, so every probe ends |
| `SlotIndex.ProbeEndsAtEmpty` | hashmap.h:206-208 | a probe that passes only other keys and meets an empty slot proves the key absent |
| `SlotIndex.IndexedFill` | hashmap.h:264-265 | filling an empty slot at its distance from home keeps the slots consistent |
| `SlotIndex.IndexedEvict` | hashmap.h:255-256 | evicting a resident keeps the slots consistent; the resident becomes unplaced |
| `SlotIndex.IndexedClear` | hashmap.h:80-81 | emptying a slot unplaces its node and keeps the other slots consistent |
| `SlotIndex.IndexedShift` | hashmap.h:89-91 | moving the next occupant back with its PSL lowered by one keeps the slots consistent |
| `SlotIndex.HomeSlot` | hashmap.h:199 | the home slot `hash(key) mod capacity` is a slot of the table |

## Left out

- Copy assignment `operator=` (hashmap.h:33-42) is not modelled. It copies the other map's
  `table_`, whose slots are iterators into the other map's list. The result
  therefore aliases that list, and this map's sentinel tests compare
  iterators from two lists. On self-assignment it clears `elements_` before
  copying from it, so every entry is lost. Copying is modelled by the copy
  constructor only.
- The iterator classes (hashmap.h:100-196) are not modelled; iteration is the entry sequence
  `Contents()`. The converting constructor at line 149 reads a private
  member of `iterator`, because the friendship is declared the wrong way round.
- The float `LOAD_FACTOR_` is replaced by the integer test
  `4 * (size + 1) > 3 * capacity`. Every capacity is 8 times a power of two,
  so `0.75 * capacity` is exact in `float`, but `size() + 1` is rounded when
  it is converted to `float` at hashmap.h:57. The two tests agree while
  `size + 1 <= 2^24`. Above that the model can grow earlier than the code: at
  capacity `2^25` and size 25165824, `float(25165825)` rounds to 25165824,
  which is not greater than `0.75f * 2^25`. The code then does not grow, and
  it ends up holding more than three quarters of its slots, which the model's
  load bound excludes.
- `std::hash` and the `Hash` parameter become an arbitrary fixed function
  `K -> nat`, passed to the constructors. `hash_function()` is modelled by
  `RobinHood.HashMap.HashFunction`, which just returns it and has no contract.
- `std::size_t` arithmetic is taken as unbounded. On the sizes the load bound
  allows, nothing in the code can wrap.
- `rehash` resizes the two vectors in place with `assign`. The model
  allocates two fresh arrays of twice the length instead, since a Dafny array
  cannot change its length.
- `ValueType()` is passed to `Index` as the parameter `dflt`, because the model
  has no default constructor for an arbitrary type.
- The reference that operator[] returns is modelled as the node handle. Assignment through it is modelled as `SetValue`.
- Some effects are not modelled: list node allocation and its failure, the
  exception object and message of `at`, and the unused `<unordered_map>`
  include.
- The model's operations are split more finely than the C++ member functions,
  so that each proof stays small. `Insert` calls `InsertWithRoom`,
  `InsertAbsent` and `PushBack`; `Erase` calls `EraseAt`, `UnlinkNode`,
  `Unplace`, `Vacate`, `ShiftFrom` and `ShiftBack`;
  `insert_already_existed` becomes `Place`, `Visit`, `Evict` and `Fill`;
  `rehash`'s loop becomes `PlaceAll`; operator[]'s miss branch becomes `InsertDefault`. The statements and their order are the
  source's.
- `erase` has its own copy of find's probe loop (hashmap.h:69-75). The model
  runs the same loop through `Locate`.
