/**
 * HashMap<K, V>: an open-addressing hash map with Robin Hood placement and
 * backward-shift deletion.  Its entries live in a list kept in insertion
 * order; the index table holds, for each slot, a handle to a list node (or
 * the end() sentinel) and, in a parallel array, the displacement (probe
 * sequence length) of that node from its home slot.
 */
module RobinHood {
  import OrderedMap
  import opened Slots
  import opened SlotIndex
  import opened EntryStore

  /** The capacity of a freshly constructed table. */
  const InitialSize: nat := 8

  /** The result of `at`: the value, or the out_of_range failure on a missing key. */
  datatype Result<T> = Ok(value: T) | OutOfRange

  class HashMap<K(==), V> {
    /** The injected hash function. */
    const hasher: K -> nat

    // The entry store (a std::list of pairs): the nodes by handle, the live
    // handles front to back, and the next fresh handle.
    var nodes: map<nat, (K, V)>
    var order: seq<nat>
    var nextHandle: nat

    // The index table: one handle per slot, Empty for the list's end(), and
    // the displacement of each slot's occupant.
    var table: array<int>
    var psl: array<nat>

    /** The slot of each node placed in the table (the inverse of `table`). */
    ghost var slot: map<nat, nat>
    ghost var Repr: set<object>

    /** The entries, in insertion order: what iteration from begin() to end() visits. */
    ghost function Contents(): seq<(K, V)>
      reads this
      requires nodes.Keys == Handles(order)
    {
      View(order, nodes)
    }

    /** The object invariant, which every public operation keeps. */
    ghost predicate Valid()
      reads this, Repr
    {
      && Repr == {this, table, psl}
      && InitialSize <= table.Length
      && 4 * |order| <= 3 * table.Length
      && Linked(order, nodes, nextHandle)
      && slot.Keys == nodes.Keys
      && Indexed(hasher, table[..], psl[..], slot, nodes)
      && RobinHoodOrdered(table[..], psl[..])
    }

    // -------------------------------------------------------------------------
    // Construction

    /** HashMap(hash): an empty map of the initial capacity. */
    constructor (hasher: K -> nat)
      ensures Valid() && fresh(Repr)
      ensures Contents() == [] && table.Length == InitialSize && this.hasher == hasher
    {
      this.hasher := hasher;
      nodes, order, nextHandle := map[], [], 0;
      table := new int[InitialSize](_ => Empty);
      psl := new nat[InitialSize](_ => 0);
      slot := map[];
      Repr := {this, table, psl};
      new;
      EmptyIndexed(hasher, table[..], psl[..], nodes);
    }

    /** HashMap(begin, end, hash) and the initializer-list form: insert the range in order. */
    constructor FromRange(pairs: seq<(K, V)>, hasher: K -> nat)
      ensures Valid() && fresh(Repr)
      ensures Contents() == OrderedMap.FromSeq(pairs) && this.hasher == hasher
    {
      this.hasher := hasher;
      nodes, order, nextHandle := map[], [], 0;
      table := new int[InitialSize](_ => Empty);
      psl := new nat[InitialSize](_ => 0);
      slot := map[];
      Repr := {this, table, psl};
      new;
      EmptyIndexed(hasher, table[..], psl[..], nodes);
      assert Contents() == [];
      InsertAll(pairs);
    }

    /** The copy constructor: rebuild from the other map's entries and hash function. */
    constructor Copy(other: HashMap<K, V>)
      requires other.Valid()
      ensures Valid() && fresh(Repr)
      ensures Contents() == other.Contents() && hasher == other.hasher
    {
      hasher := other.hasher;
      nodes, order, nextHandle := map[], [], 0;
      table := new int[InitialSize](_ => Empty);
      psl := new nat[InitialSize](_ => 0);
      slot := map[];
      Repr := {this, table, psl};
      new;
      EmptyIndexed(hasher, table[..], psl[..], nodes);
      var entries := View(other.order, other.nodes);
      LinkedKeys(other.order, other.nodes, other.nextHandle);
      OrderedMap.FromSeqOfDistinct(entries);
      InsertAll(entries);
    }

    /** The loop of the range constructor: insert each pair, front to back. */
    method InsertAll(pairs: seq<(K, V)>)
      requires Valid()
      modifies Repr
      ensures Valid() && fresh(Repr - old(Repr))
      ensures Contents() == OrderedMap.InsertAll(old(Contents()), pairs)
    {
      for i := 0 to |pairs|
        invariant Valid() && fresh(Repr - old(Repr))
        invariant Contents() == OrderedMap.InsertAll(old(Contents()), pairs[..i])
      {
        Insert(pairs[i].0, pairs[i].1);
        assert pairs[..i + 1][..i] == pairs[..i];
      }
      assert pairs[..|pairs|] == pairs;
    }

    // -------------------------------------------------------------------------
    // What the invariant says about the table

    /** The table and the list hold the same nodes: a node is live exactly when some slot holds it. */
    lemma TableMatchesList()
      requires Valid()
      ensures forall h: nat :: h in nodes <==> exists i :: 0 <= i < table.Length && table[i] == h
    {
      forall h: nat | h in nodes ensures exists i :: 0 <= i < table.Length && table[i] == h {
        assert PlacedAt(table[..], slot, h);
        assert table[slot[h]] == h;
      }
      forall h: nat, i | 0 <= i < table.Length && table[i] == h ensures h in nodes {
        assert SlotAt(hasher, table[..], psl[..], slot, nodes, i);
      }
    }

    /** Every occupied slot's displacement is its distance from its key's home, modulo the capacity. */
    lemma DisplacementIsModulo(i: nat)
      requires Valid() && i < table.Length && table[i] != Empty
      ensures table[i] >= 0 && table[i] in nodes
      ensures psl[i] == (i - HomeSlot(hasher, nodes[table[i] as nat].0, table.Length)) % table.Length
    {
      assert SlotAt(hasher, table[..], psl[..], slot, nodes, i);
      DistIsModulo(HomeSlot(hasher, nodes[table[i] as nat].0, table.Length), i, table.Length);
    }

    /**
     * Reachability: walking forward from an occupant's home, the occupant sits
     * `psl[i]` steps on, and every slot up to it is occupied.
     */
    lemma Reachable(i: nat, d: nat)
      requires Valid() && i < table.Length && table[i] != Empty && d <= psl[i]
      ensures table[i] >= 0 && table[i] in nodes && psl[i] < table.Length
      ensures Fwd(HomeSlot(hasher, nodes[table[i] as nat].0, table.Length), psl[i], table.Length) == i
      ensures table[Fwd(HomeSlot(hasher, nodes[table[i] as nat].0, table.Length), d, table.Length)] != Empty
    {
      var t, p := table[..], psl[..];
      assert SlotAt(hasher, t, p, slot, nodes, i);
      var home := HomeSlot(hasher, nodes[table[i] as nat].0, table.Length);
      DistInverse(home, i, table.Length);
      ProbeRunIsOccupied(t, p, i, d);
    }

    // -------------------------------------------------------------------------
    // Observers

    function HashFunction(): K -> nat {
      hasher
    }

    function Size(): (r: nat)
      reads this, Repr
      requires Valid()
      ensures r == |Contents()|
    {
      |order|
    }

    function IsEmpty(): (r: bool)
      reads this, Repr
      requires Valid()
      ensures r <==> Contents() == []
    {
      |order| == 0
    }

    /**
     * The probe of find and erase: walk forward from the key's home until the
     * key or an empty slot.  It stops at the key exactly when the key is present.
     */
    method Locate(key: K) returns (pos: nat)
      requires Valid()
      ensures pos < table.Length
      ensures table[pos] == Empty <==> OrderedMap.Lookup(Contents(), key).None?
      ensures table[pos] != Empty ==>
                table[pos] >= 0 && table[pos] in nodes && nodes[table[pos] as nat].0 == key &&
                OrderedMap.Lookup(Contents(), key) == OrderedMap.Some(nodes[table[pos] as nat].1)
    {
      ghost var n: nat := table.Length;
      ghost var t, p := table[..], psl[..];
      ghost var e := EmptySlot(hasher, t, p, slot, nodes);
      var home := HomeSlot(hasher, key, table.Length);
      pos := home;
      ghost var steps: nat := 0;
      while table[pos] != Empty && nodes[table[pos] as nat].0 != key
        invariant steps <= Dist(home, e, n) && pos == Fwd(home, steps, n)
        invariant SlotAt(hasher, t, p, slot, nodes, pos)
        invariant forall d :: 0 <= d < steps ==> OtherKeyAt(t, nodes, Fwd(home, d, n), key)
        decreases Dist(home, e, n) - steps
      {
        DistInverse(home, e, n);
        assert OtherKeyAt(t, nodes, Fwd(home, steps, n), key);
        pos := pos + 1;
        if pos == table.Length {
          pos := 0;
        }
        steps := steps + 1;
      }
      LinkedLookup(order, nodes, nextHandle, key);
      if table[pos] == Empty {
        ProbeEndsAtEmpty(hasher, t, p, slot, nodes, key, steps);
      }
    }

    /** find: an iterator to the key's entry (its node handle), or end(). */
    method Find(key: K) returns (it: int)
      requires Valid()
      ensures it == Empty <==> OrderedMap.Lookup(Contents(), key).None?
      ensures it != Empty ==>
                it in nodes && nodes[it as nat].0 == key &&
                OrderedMap.Lookup(Contents(), key) == OrderedMap.Some(nodes[it as nat].1)
    {
      var pos := Locate(key);
      it := table[pos];
    }

    /** at: the value stored under the key, or out_of_range when it is missing. */
    method At(key: K) returns (r: Result<V>)
      requires Valid()
      ensures r.OutOfRange? <==> OrderedMap.Lookup(Contents(), key).None?
      ensures r.Ok? ==> OrderedMap.Lookup(Contents(), key) == OrderedMap.Some(r.value)
    {
      var it := Find(key);
      if it == Empty {
        r := OutOfRange;
      } else {
        r := Ok(nodes[it as nat].1);
      }
    }

    // -------------------------------------------------------------------------
    // Robin Hood placement

    /**
     * insert_already_existed: place node `h0` by probing from its home; a
     * resident displaced strictly less than the incoming node is evicted and
     * carried on.
     */
    method Place(h0: nat)
      requires Indexed(hasher, table[..], psl[..], slot, nodes) && RobinHoodOrdered(table[..], psl[..])
      requires h0 in nodes && h0 !in slot && |slot.Keys| < table.Length
      modifies this`slot, table, psl
      ensures Indexed(hasher, table[..], psl[..], slot, nodes) && RobinHoodOrdered(table[..], psl[..])
      ensures slot.Keys == old(slot.Keys) + {h0}
    {
      ghost var n: nat := table.Length;
      ghost var S := slot.Keys;
      ghost var e := EmptySlot(hasher, table[..], psl[..], slot, nodes);
      var cur: nat := h0;
      var pos: nat := HomeSlot(hasher, nodes[h0].0, table.Length);
      var d: nat := 0;
      while table[pos] != Empty
        invariant pos < n && table[e] == Empty
        invariant cur in nodes && cur !in slot && slot.Keys + {cur} == S + {h0}
        invariant Indexed(hasher, table[..], psl[..], slot, nodes) && RobinHoodOrdered(table[..], psl[..])
        invariant d == Dist(HomeSlot(hasher, nodes[cur].0, n), pos, n)
        invariant d + Dist(pos, e, n) < n
        invariant d > 0 ==> table[Prev(pos, n)] != Empty && d <= psl[Prev(pos, n)] + 1
        decreases Dist(pos, e, n)
      {
        cur, d := Visit(pos, cur, d, e);
        StepFacts(HomeSlot(hasher, nodes[cur].0, n), pos, e, n);
        ghost var was := pos;
        pos := pos + 1;
        if pos == table.Length {
          pos := 0;
        }
        assert pos == Next(was, n);
        d := d + 1;
      }
      Fill(pos, cur, d);
    }

    /** The end of insert_already_existed: node `x`, displaced by `d`, takes the empty slot `pos`. */
    method Fill(pos: nat, x: nat, d: nat)
      requires Indexed(hasher, table[..], psl[..], slot, nodes) && RobinHoodOrdered(table[..], psl[..])
      requires pos < table.Length && table[pos] == Empty
      requires x in nodes && x !in slot && d == Dist(HomeSlot(hasher, nodes[x].0, table.Length), pos, table.Length)
      requires d > 0 ==> table[Prev(pos, table.Length)] != Empty && d <= psl[Prev(pos, table.Length)] + 1
      modifies this`slot, table, psl
      ensures table[..] == old(table[..])[pos := x] && psl[..] == old(psl[..])[pos := d]
      ensures slot == old(slot)[x := pos]
      ensures Indexed(hasher, table[..], psl[..], slot, nodes) && RobinHoodOrdered(table[..], psl[..])
    {
      ghost var t, p := table[..], psl[..];
      FillKeepsOrder(t, p, pos, x, d);
      IndexedFill(hasher, t, p, slot, nodes, pos, x);
      table[pos] := x;
      psl[pos] := d;
      slot := slot[x := pos];
      assert table[..] == t[pos := x] && psl[..] == p[pos := d];
    }

    /**
     * One probe step of insert_already_existed at the occupied slot `pos`,
     * carrying node `x` displaced by `d`: when the resident is displaced
     * less, the two trade places.  The node carried on is returned.
     */
    method Visit(pos: nat, x: nat, d: nat, ghost e: nat) returns (c: nat, cd: nat)
      requires Indexed(hasher, table[..], psl[..], slot, nodes) && RobinHoodOrdered(table[..], psl[..])
      requires pos < table.Length && table[pos] != Empty && e < table.Length && table[e] == Empty
      requires x in nodes && x !in slot && d == Dist(HomeSlot(hasher, nodes[x].0, table.Length), pos, table.Length)
      requires d > 0 ==> table[Prev(pos, table.Length)] != Empty && d <= psl[Prev(pos, table.Length)] + 1
      modifies this`slot, table, psl
      ensures old(psl[pos]) < d ==>
                (c == old(table[pos]) && cd == old(psl[pos]) &&
                 table[..] == old(table[..])[pos := x] && psl[..] == old(psl[..])[pos := d])
      ensures d <= old(psl[pos]) ==>
                (c == x && cd == d && table[..] == old(table[..]) && psl[..] == old(psl[..]))
      ensures Indexed(hasher, table[..], psl[..], slot, nodes) && RobinHoodOrdered(table[..], psl[..])
      ensures c in nodes && c !in slot && slot.Keys + {c} == old(slot.Keys) + {x}
      ensures cd == Dist(HomeSlot(hasher, nodes[c].0, table.Length), pos, table.Length)
      ensures table[pos] != Empty && table[e] == Empty && cd <= psl[pos] && cd <= d
    {
      c, cd := x, d;
      if psl[pos] < d {
        c, cd := Evict(pos, x, d);
      }
    }

    /**
     * The two swaps of a Robin Hood eviction: node `x`, displaced by `d`,
     * takes slot `pos`; the resident and its displacement are handed back.
     */
    method Evict(pos: nat, x: nat, d: nat) returns (resident: nat, rd: nat)
      requires Indexed(hasher, table[..], psl[..], slot, nodes) && RobinHoodOrdered(table[..], psl[..])
      requires pos < table.Length && table[pos] != Empty && psl[pos] < d
      requires x in nodes && x !in slot && d == Dist(HomeSlot(hasher, nodes[x].0, table.Length), pos, table.Length)
      requires table[Prev(pos, table.Length)] != Empty && d <= psl[Prev(pos, table.Length)] + 1
      modifies this`slot, table, psl
      ensures resident == old(table[pos]) && rd == old(psl[pos])
      ensures table[..] == old(table[..])[pos := x] && psl[..] == old(psl[..])[pos := d]
      ensures slot == old(slot)[x := pos] - {resident}
      ensures Indexed(hasher, table[..], psl[..], slot, nodes) && RobinHoodOrdered(table[..], psl[..])
      ensures resident in nodes && resident !in slot && slot.Keys + {resident} == old(slot.Keys) + {x}
      ensures rd == Dist(HomeSlot(hasher, nodes[resident].0, table.Length), pos, table.Length)
    {
      ghost var t, p := table[..], psl[..];
      EvictKeepsOrder(t, p, pos, x, d);
      IndexedEvict(hasher, t, p, slot, nodes, pos, x);
      resident, table[pos] := table[pos], x;
      rd, psl[pos] := psl[pos], d;
      slot := slot[x := pos] - {resident};
      assert table[..] == t[pos := x] && psl[..] == p[pos := d];
    }

    /** rehash: double the table and place every node again, in list order. */
    method Rehash()
      requires Valid()
      modifies Repr
      ensures Valid() && fresh(table) && fresh(psl)
      ensures table.Length == 2 * old(table.Length)
      ensures nodes == old(nodes) && order == old(order) && nextHandle == old(nextHandle)
    {
      var n := 2 * table.Length;
      table := new int[n](_ => Empty);
      psl := new nat[n](_ => 0);
      EmptyIndexed(hasher, table[..], psl[..], nodes);
      slot := map[];
      Repr := {this, table, psl};
      PlaceAll();
    }

    /** The loop of rehash: place every node of the list into the empty table, front to back. */
    method PlaceAll()
      requires Linked(order, nodes, nextHandle) && slot == map[] && |order| < table.Length
      requires Indexed(hasher, table[..], psl[..], slot, nodes) && RobinHoodOrdered(table[..], psl[..])
      modifies table, psl, this`slot
      ensures slot.Keys == nodes.Keys
      ensures Indexed(hasher, table[..], psl[..], slot, nodes) && RobinHoodOrdered(table[..], psl[..])
    {
      for i := 0 to |order|
        invariant Indexed(hasher, table[..], psl[..], slot, nodes) && RobinHoodOrdered(table[..], psl[..])
        invariant slot.Keys == Handles(order[..i])
      {
        forall j | 0 <= j < i ensures order[..i][j] != order[i] {
          LinkedDistinct(order, nodes, nextHandle, j, i);
        }
        NotInHandles(order[..i], order[i]);
        Place(order[i]);
        HandlesGrow(order, i);
      }
      assert order[..|order|] == order;
    }

    // -------------------------------------------------------------------------
    // Mutators

    /**
     * insert: grow first if one more entry would pass the 0.75 load factor
     * (even when the key turns out to be present); a present key is left
     * alone, an absent one is appended to the list and placed.
     */
    method Insert(key: K, value: V)
      requires Valid()
      modifies Repr
      ensures Valid() && fresh(Repr - old(Repr))
      ensures Contents() == OrderedMap.Insert(old(Contents()), key, value)
      ensures table.Length ==
                if 4 * (old(|order|) + 1) > 3 * old(table.Length) then 2 * old(table.Length)
                else old(table.Length)
      ensures forall h :: h in old(nodes) ==> h in nodes && nodes[h] == old(nodes[h])
    {
      if 4 * (|order| + 1) > 3 * table.Length {
        Rehash();
      }
      InsertWithRoom(key, value);
    }

    /** The rest of insert, once the table has room for one more entry: probe, then link and place. */
    method InsertWithRoom(key: K, value: V)
      requires Valid() && 4 * (|order| + 1) <= 3 * table.Length
      modifies Repr
      ensures Valid() && Repr == old(Repr) && table.Length == old(table.Length)
      ensures Contents() == OrderedMap.Insert(old(Contents()), key, value)
      ensures forall h :: h in old(nodes) ==> h in nodes && nodes[h] == old(nodes[h])
    {
      var pos := Locate(key);
      if table[pos] != Empty {
        OrderedMap.InsertSpec(Contents(), key, value);
        return;
      }
      InsertAbsent(key, value);
    }

    /** The last two steps of insert for an absent key: link a fresh node at the back, then place it. */
    method InsertAbsent(key: K, value: V)
      requires Valid() && 4 * (|order| + 1) <= 3 * table.Length
      requires OrderedMap.Lookup(Contents(), key).None?
      modifies Repr
      ensures Valid() && Repr == old(Repr) && table.Length == old(table.Length)
      ensures Contents() == OrderedMap.Insert(old(Contents()), key, value)
      ensures forall h :: h in old(nodes) ==> h in nodes && nodes[h] == old(nodes[h])
    {
      var h := PushBack(key, value);
      Place(h);
    }

    /** emplace_back: link a fresh node holding the pair at the back of the list. */
    method PushBack(key: K, value: V) returns (h: nat)
      requires Linked(order, nodes, nextHandle) && OrderedMap.Lookup(Contents(), key).None?
      requires Indexed(hasher, table[..], psl[..], slot, nodes)
      modifies this`nodes, this`order, this`nextHandle
      ensures h == old(nextHandle) && h !in old(nodes)
      ensures nodes == old(nodes)[h := (key, value)] && order == old(order) + [h] && nextHandle == h + 1
      ensures Linked(order, nodes, nextHandle)
      ensures Contents() == OrderedMap.Insert(old(Contents()), key, value)
      ensures Indexed(hasher, table[..], psl[..], slot, nodes)
    {
      LinkedAppend(order, nodes, nextHandle, key, value);
      ghost var nodes0 := nodes;
      h := nextHandle;
      nodes := nodes[h := (key, value)];
      order := order + [h];
      nextHandle := nextHandle + 1;
      IndexedRekey(hasher, table[..], psl[..], slot, nodes0, nodes);
    }

    /**
     * erase: find the key's slot; empty it and unlink its node, then shift
     * each following occupant back one slot until an empty slot or an
     * occupant at its home.
     */
    method Erase(key: K)
      requires Valid()
      modifies Repr
      ensures Valid() && Repr == old(Repr) && table.Length == old(table.Length)
      ensures Contents() == OrderedMap.Remove(old(Contents()), key)
      ensures forall h :: h in old(nodes) && old(nodes[h]).0 != key ==> h in nodes && nodes[h] == old(nodes[h])
      ensures forall h :: h in nodes ==> h in old(nodes)
    {
      var pos := Locate(key);
      if table[pos] == Empty {
        OrderedMap.RemoveAbsent(Contents(), key);
        return;
      }
      EraseAt(pos);
    }

    /** The rest of erase, once the probe has found the key's slot `pos`. */
    method EraseAt(pos: nat)
      requires Valid() && pos < table.Length && table[pos] >= 0 && table[pos] in nodes
      modifies Repr
      ensures Valid() && Repr == old(Repr) && table.Length == old(table.Length)
      ensures Contents() == OrderedMap.Remove(old(Contents()), old(nodes[table[pos] as nat].0))
      ensures nodes == old(nodes) - {old(table[pos]) as nat}
    {
      var h: nat := table[pos];
      ghost var nodes0 := nodes;
      UnlinkNode(h);
      ghost var nodes1 := nodes;
      assert nodes1 == nodes0 - {h};
      Unplace(pos, nodes0);
      assert nodes == nodes1;
    }

    /**
     * Take the node of slot `pos`, which `nd` holds but the list no longer
     * does, out of the table: empty its slot, then shift the run after it back.
     */
    method Unplace(pos: nat, ghost nd: map<nat, (K, V)>)
      requires Indexed(hasher, table[..], psl[..], slot, nd) && RobinHoodOrdered(table[..], psl[..])
      requires pos < table.Length && 3 <= table.Length && |slot.Keys| < table.Length
      requires table[pos] >= 0 && nodes == nd - {table[pos] as nat} && slot.Keys == nd.Keys
      modifies table, psl, this`slot
      ensures slot.Keys == nodes.Keys
      ensures Indexed(hasher, table[..], psl[..], slot, nodes) && RobinHoodOrdered(table[..], psl[..])
    {
      ghost var e := EmptySlot(hasher, table[..], psl[..], slot, nd);
      Vacate(pos, nd);
      ShiftFrom(pos, e);
    }

    /**
     * The backward shift of erase: starting from the hole at `hole`, move each
     * following occupant back one slot until an empty slot or an occupant at
     * its home.  The empty slot `e` bounds the walk.
     */
    method ShiftFrom(hole: nat, ghost e: nat)
      requires hole < table.Length && 3 <= table.Length && e < table.Length && e != hole && table[e] == Empty
      requires Indexed(hasher, table[..], psl[..], slot, nodes)
      requires table[hole] == Empty && psl[hole] == 0
      requires OrderedExcept(table[..], psl[..], Next(hole, table.Length)) && GapBridged(table[..], psl[..], hole)
      modifies table, psl, this`slot
      ensures slot.Keys == old(slot.Keys)
      ensures Indexed(hasher, table[..], psl[..], slot, nodes) && RobinHoodOrdered(table[..], psl[..])
    {
      ghost var n: nat := table.Length;
      var prev: nat := hole;
      var cur: nat := hole + 1;
      if cur == table.Length {
        cur := 0;
      }
      while table[cur] != Empty && psl[cur] > 0
        invariant prev < n && cur == Next(prev, n) && e != prev && table[e] == Empty
        invariant table[prev] == Empty && psl[prev] == 0
        invariant slot.Keys == old(slot.Keys) && Indexed(hasher, table[..], psl[..], slot, nodes)
        invariant OrderedExcept(table[..], psl[..], cur) && GapBridged(table[..], psl[..], prev)
        decreases Dist(cur, e, n)
      {
        StepFacts(prev, cur, e, n);
        ShiftBack(prev, cur);
        prev := cur;
        cur := cur + 1;
        if cur == table.Length {
          cur := 0;
        }
      }
      StopRestoresOrder(table[..], psl[..], cur);
    }

    /** erase by iterator on the list: unlink and free node `h`. */
    method UnlinkNode(h: nat)
      requires Linked(order, nodes, nextHandle) && h in nodes
      modifies this`nodes, this`order
      ensures nodes == old(nodes) - {h} && order == Unlink(old(order), h)
      ensures Linked(order, nodes, nextHandle)
      ensures Contents() == OrderedMap.Remove(old(Contents()), old(nodes[h].0))
    {
      LinkedUnlink(order, nodes, nextHandle, h);
      order := Unlink(order, h);
      nodes := nodes - {h};
    }

    /**
     * Set slot `pos`, whose node `nd` no longer lists, to end() with
     * displacement 0; the ordering may then break only at the next slot.
     */
    method Vacate(pos: nat, ghost nd: map<nat, (K, V)>)
      requires Indexed(hasher, table[..], psl[..], slot, nd) && RobinHoodOrdered(table[..], psl[..])
      requires pos < table.Length && 3 <= table.Length && table[pos] >= 0
      requires nodes == nd - {table[pos] as nat}
      modifies table, psl, this`slot
      ensures table[..] == old(table[..])[pos := Empty] && psl[..] == old(psl[..])[pos := 0]
      ensures slot == old(slot) - {old(table[pos]) as nat}
      ensures Indexed(hasher, table[..], psl[..], slot, nodes)
      ensures OrderedExcept(table[..], psl[..], Next(pos, table.Length)) && GapBridged(table[..], psl[..], pos)
    {
      ghost var t, p := table[..], psl[..];
      ghost var h := table[pos] as nat;
      ClearKeepsOrder(t, p, pos);
      IndexedClear(hasher, t, p, slot, nd, pos);
      table[pos] := Empty;
      psl[pos] := 0;
      slot := slot - {h};
      assert table[..] == t[pos := Empty] && psl[..] == p[pos := 0];
      IndexedRekey(hasher, table[..], psl[..], slot, nd, nodes);
    }

    /**
     * One step of the backward shift: the occupant of `cur`, one past the
     * hole `prev`, moves into it with its displacement lowered by one.
     */
    method ShiftBack(prev: nat, cur: nat)
      requires prev < table.Length && 3 <= table.Length && cur == Next(prev, table.Length)
      requires Indexed(hasher, table[..], psl[..], slot, nodes)
      requires table[prev] == Empty && psl[prev] == 0 && table[cur] != Empty && psl[cur] > 0
      requires OrderedExcept(table[..], psl[..], cur) && GapBridged(table[..], psl[..], prev)
      modifies table, psl, this`slot
      ensures table[..] == old(table[..])[prev := old(table[cur])][cur := Empty]
      ensures psl[..] == old(psl[..])[prev := old(psl[cur]) - 1][cur := 0]
      ensures slot.Keys == old(slot.Keys)
      ensures Indexed(hasher, table[..], psl[..], slot, nodes)
      ensures OrderedExcept(table[..], psl[..], Next(cur, table.Length)) && GapBridged(table[..], psl[..], cur)
    {
      ghost var t, p := table[..], psl[..];
      ShiftKeepsOrder(t, p, prev);
      IndexedShift(hasher, t, p, slot, nodes, prev);
      psl[cur] := psl[cur] - 1;
      psl[prev], psl[cur] := psl[cur], psl[prev];
      table[prev], table[cur] := table[cur], table[prev];
      slot := slot[table[prev] as nat := prev];
      assert table[..] == t[prev := t[cur]][cur := Empty];
      assert psl[..] == p[prev := p[cur] - 1][cur := 0];
    }

    /**
     * operator[]: a reference (the node handle) to the value under the key,
     * inserting the key with the default value `dflt` first when it is missing.
     */
    method Index(key: K, dflt: V) returns (ref: nat)
      requires Valid()
      modifies Repr
      ensures Valid() && fresh(Repr - old(Repr))
      ensures Contents() == OrderedMap.Insert(old(Contents()), key, dflt)
      ensures ref in nodes && nodes[ref].0 == key
      ensures OrderedMap.Lookup(Contents(), key) == OrderedMap.Some(nodes[ref].1)
      ensures nodes[ref].1 ==
                match old(OrderedMap.Lookup(Contents(), key))
                case Some(v) => v
                case None => dflt
      ensures old(OrderedMap.Lookup(Contents(), key)).Some? ==> Repr == old(Repr)
      ensures forall h :: h in old(nodes) ==> h in nodes && nodes[h] == old(nodes[h])
    {
      var it := Find(key);
      if it == Empty {
        it := InsertDefault(key, dflt);
      }
      ref := it;
    }

    /** The miss branch of operator[]: insert the key with the default value, then find it again. */
    method InsertDefault(key: K, dflt: V) returns (ref: nat)
      requires Valid() && OrderedMap.Lookup(Contents(), key).None?
      modifies Repr
      ensures Valid() && fresh(Repr - old(Repr))
      ensures Contents() == OrderedMap.Insert(old(Contents()), key, dflt)
      ensures ref in nodes && nodes[ref] == (key, dflt)
      ensures OrderedMap.Lookup(Contents(), key) == OrderedMap.Some(dflt)
      ensures forall h :: h in old(nodes) ==> h in nodes && nodes[h] == old(nodes[h])
    {
      Insert(key, dflt);
      OrderedMap.InsertSpec(old(Contents()), key, dflt);
      var it := Find(key);
      ref := it;
    }

    /** Assigning through a reference returned by find or operator[]. */
    method SetValue(ref: nat, v: V)
      requires Valid() && ref in nodes
      modifies this
      ensures Valid() && Repr == old(Repr) && table == old(table) && psl == old(psl)
      ensures Contents() == OrderedMap.SetValue(old(Contents()), old(nodes[ref].0), v)
      ensures nodes == old(nodes)[ref := (old(nodes[ref]).0, v)] && order == old(order) && nextHandle == old(nextHandle)
    {
      var k := nodes[ref].0;
      LinkedSetValue(order, nodes, nextHandle, ref, v);
      ghost var nodes0 := nodes;
      nodes := nodes[ref := (k, v)];
      IndexedRekey(hasher, table[..], psl[..], slot, nodes0, nodes);
    }

    /** clear: every slot empty with displacement 0, no entries; the capacity stays. */
    method Clear()
      requires Valid()
      modifies Repr
      ensures Valid() && Repr == old(Repr) && table.Length == old(table.Length)
      ensures Contents() == []
      ensures forall i :: 0 <= i < table.Length ==> table[i] == Empty && psl[i] == 0
    {
      for i := 0 to table.Length
        invariant forall j :: 0 <= j < i ==> table[j] == Empty
        modifies table
      {
        table[i] := Empty;
      }
      for i := 0 to psl.Length
        invariant forall j :: 0 <= j < table.Length ==> table[j] == Empty
        invariant forall j :: 0 <= j < i ==> psl[j] == 0
        modifies psl
      {
        psl[i] := 0;
      }
      order := [];
      nodes := map[];
      slot := map[];
      EmptyIndexed(hasher, table[..], psl[..], nodes);
    }
  }
}
