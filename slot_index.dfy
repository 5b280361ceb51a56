/**
 * The index table as a value: a sequence of slots, each holding a node handle
 * or Empty, a parallel sequence of displacements, and the slot of each placed
 * node.  Every update the map makes to its table (fill, evict, clear, shift)
 * is stated here as a lemma on values.
 */
module SlotIndex {
  import opened Slots

  /** The home slot of `key` in a table of `n` slots. */
  function HomeSlot<K>(hash: K -> nat, key: K, n: nat): (r: nat)
    requires n > 0
    ensures r < n
  {
    hash(key) % n
  }

  /** Node `h` sits in the slot `sl` gives it. */
  ghost predicate PlacedAt(t: seq<int>, sl: map<nat, nat>, h: nat)
    requires h in sl
  {
    sl[h] < |t| && t[sl[h]] == h
  }

  /**
   * Slot `i` is consistent: empty with displacement 0, or holding a placed
   * node whose slot is `i` and whose displacement is its distance from home.
   */
  ghost predicate SlotAt<K, V>(hash: K -> nat, t: seq<int>, p: seq<nat>, sl: map<nat, nat>,
                               nd: map<nat, (K, V)>, i: nat)
    requires i < |t| == |p|
  {
    && (t[i] == Empty ==> p[i] == 0)
    && (t[i] != Empty ==>
          && t[i] >= 0 && t[i] in sl && t[i] in nd && sl[t[i] as nat] == i
          && p[i] == Dist(HomeSlot(hash, nd[t[i] as nat].0, |t|), i, |t|))
  }

  /**
   * The table `t` holds exactly the nodes of `sl`, each at the slot `sl`
   * gives it, and every slot is consistent.
   */
  ghost predicate Indexed<K, V>(hash: K -> nat, t: seq<int>, p: seq<nat>, sl: map<nat, nat>, nd: map<nat, (K, V)>)
  {
    && 0 < |t| == |p|
    && sl.Keys <= nd.Keys
    && (forall h {:trigger PlacedAt(t, sl, h)} :: h in sl ==> PlacedAt(t, sl, h))
    && (forall i {:trigger SlotAt(hash, t, p, sl, nd, i)} :: 0 <= i < |t| ==> SlotAt(hash, t, p, sl, nd, i))
  }

  /** Slot `i` holds a node whose key is not `key`: a probe for `key` passes it. */
  ghost predicate OtherKeyAt<K, V>(t: seq<int>, nd: map<nat, (K, V)>, i: nat, key: K)
    requires i < |t|
  {
    t[i] != Empty && t[i] >= 0 && t[i] in nd && nd[t[i] as nat].0 != key
  }

  /** An all-empty table indexes no node. */
  lemma EmptyIndexed<K, V>(hash: K -> nat, t: seq<int>, p: seq<nat>, nd: map<nat, (K, V)>)
    requires 0 < |t| == |p|
    requires forall i :: 0 <= i < |t| ==> t[i] == Empty && p[i] == 0
    ensures Indexed(hash, t, p, map[], nd) && RobinHoodOrdered(t, p)
  {
  }

  /** The index only looks at the keys of the placed nodes. */
  lemma IndexedRekey<K, V>(hash: K -> nat, t: seq<int>, p: seq<nat>, sl: map<nat, nat>,
                           nd: map<nat, (K, V)>, nd': map<nat, (K, V)>)
    requires Indexed(hash, t, p, sl, nd)
    requires forall h :: h in sl ==> h in nd' && nd'[h].0 == nd[h].0
    ensures Indexed(hash, t, p, sl, nd')
  {
    forall i | 0 <= i < |t| ensures SlotAt(hash, t, p, sl, nd', i) {
      assert SlotAt(hash, t, p, sl, nd, i);
    }
  }

  /** Putting an unplaced node into an empty slot, at its distance from home. */
  lemma IndexedFill<K, V>(hash: K -> nat, t: seq<int>, p: seq<nat>, sl: map<nat, nat>,
                          nd: map<nat, (K, V)>, pos: nat, x: nat)
    requires Indexed(hash, t, p, sl, nd) && pos < |t|
    requires t[pos] == Empty && x in nd && x !in sl
    ensures Indexed(hash, t[pos := x], p[pos := Dist(HomeSlot(hash, nd[x].0, |t|), pos, |t|)], sl[x := pos], nd)
  {
    var t', p', sl' := t[pos := x], p[pos := Dist(HomeSlot(hash, nd[x].0, |t|), pos, |t|)], sl[x := pos];
    forall h | h in sl' ensures PlacedAt(t', sl', h) {
      if h != x {
        assert PlacedAt(t, sl, h);
      }
    }
    forall i | 0 <= i < |t| ensures SlotAt(hash, t', p', sl', nd, i) {
      assert SlotAt(hash, t, p, sl, nd, i);
    }
  }

  /** Evicting the resident of `pos` in favour of an unplaced node; the resident becomes unplaced. */
  lemma IndexedEvict<K, V>(hash: K -> nat, t: seq<int>, p: seq<nat>, sl: map<nat, nat>,
                           nd: map<nat, (K, V)>, pos: nat, x: nat)
    requires Indexed(hash, t, p, sl, nd) && pos < |t|
    requires t[pos] != Empty && x in nd && x !in sl
    ensures t[pos] >= 0 && t[pos] in sl && t[pos] in nd && t[pos] != x
    ensures p[pos] == Dist(HomeSlot(hash, nd[t[pos] as nat].0, |t|), pos, |t|)
    ensures Indexed(hash, t[pos := x], p[pos := Dist(HomeSlot(hash, nd[x].0, |t|), pos, |t|)],
                    sl[x := pos] - {t[pos] as nat}, nd)
  {
    assert SlotAt(hash, t, p, sl, nd, pos);
    var r := t[pos] as nat;
    var t', p', sl' := t[pos := x], p[pos := Dist(HomeSlot(hash, nd[x].0, |t|), pos, |t|)], sl[x := pos] - {r};
    forall h | h in sl' ensures PlacedAt(t', sl', h) {
      if h != x {
        assert PlacedAt(t, sl, h);
      }
    }
    forall i | 0 <= i < |t| ensures SlotAt(hash, t', p', sl', nd, i) {
      assert SlotAt(hash, t, p, sl, nd, i);
    }
  }

  /** Emptying the slot of a placed node unplaces it. */
  lemma IndexedClear<K, V>(hash: K -> nat, t: seq<int>, p: seq<nat>, sl: map<nat, nat>,
                           nd: map<nat, (K, V)>, pos: nat)
    requires Indexed(hash, t, p, sl, nd) && pos < |t| && t[pos] != Empty
    ensures t[pos] >= 0 && t[pos] in sl
    ensures Indexed(hash, t[pos := Empty], p[pos := 0], sl - {t[pos] as nat}, nd)
  {
    assert SlotAt(hash, t, p, sl, nd, pos);
    var r := t[pos] as nat;
    var t', p', sl' := t[pos := Empty], p[pos := 0], sl - {r};
    forall h | h in sl' ensures PlacedAt(t', sl', h) {
      assert PlacedAt(t, sl, h);
    }
    forall i | 0 <= i < |t| ensures SlotAt(hash, t', p', sl', nd, i) {
      assert SlotAt(hash, t, p, sl, nd, i);
    }
  }

  /** Moving the occupant after an empty slot back into it lowers its displacement by one. */
  lemma IndexedShift<K, V>(hash: K -> nat, t: seq<int>, p: seq<nat>, sl: map<nat, nat>,
                           nd: map<nat, (K, V)>, hole: nat)
    requires Indexed(hash, t, p, sl, nd) && hole < |t|
    requires t[hole] == Empty && t[Next(hole, |t|)] != Empty && p[Next(hole, |t|)] > 0
    ensures t[Next(hole, |t|)] >= 0 && t[Next(hole, |t|)] in sl
    ensures var c := Next(hole, |t|);
            Indexed(hash, t[hole := t[c]][c := Empty], p[hole := p[c] - 1][c := 0], sl[t[c] as nat := hole], nd)
  {
    var n := |t|;
    var c := Next(hole, n);
    assert SlotAt(hash, t, p, sl, nd, c);
    var x := t[c] as nat;
    var t', p', sl' := t[hole := t[c]][c := Empty], p[hole := p[c] - 1][c := 0], sl[x := hole];
    assert Prev(c, n) == hole;
    forall h | h in sl' ensures PlacedAt(t', sl', h) {
      if h != x {
        assert PlacedAt(t, sl, h);
      }
    }
    forall i | 0 <= i < n ensures SlotAt(hash, t', p', sl', nd, i) {
      assert SlotAt(hash, t, p, sl, nd, i);
    }
  }

  /** A table that indexes fewer nodes than it has slots has an empty slot. */
  lemma EmptySlot<K, V>(hash: K -> nat, t: seq<int>, p: seq<nat>, sl: map<nat, nat>, nd: map<nat, (K, V)>)
    returns (e: nat)
    requires Indexed(hash, t, p, sl, nd) && |sl.Keys| < |t|
    ensures e < |t| && t[e] == Empty
  {
    forall i | 0 <= i < |t| && t[i] != Empty ensures t[i] in sl.Keys {
      assert SlotAt(hash, t, p, sl, nd, i);
    }
    forall i, j | 0 <= i < j < |t| && t[i] != Empty ensures t[i] != t[j] {
      assert SlotAt(hash, t, p, sl, nd, i);
      assert SlotAt(hash, t, p, sl, nd, j);
    }
    EmptySlotExists(t, sl.Keys);
    e :| 0 <= e < |t| && t[e] == Empty;
  }

  /**
   * A probe for `key` that passed `steps` occupied slots holding other keys
   * and then met an empty slot proves the key absent: by reachability, a
   * placed node with that key would sit within the run the probe walked.
   */
  lemma ProbeEndsAtEmpty<K, V>(hash: K -> nat, t: seq<int>, p: seq<nat>, sl: map<nat, nat>,
                               nd: map<nat, (K, V)>, key: K, steps: nat)
    requires Indexed(hash, t, p, sl, nd) && RobinHoodOrdered(t, p) && steps < |t|
    requires t[Fwd(HomeSlot(hash, key, |t|), steps, |t|)] == Empty
    requires forall d :: 0 <= d < steps ==> OtherKeyAt(t, nd, Fwd(HomeSlot(hash, key, |t|), d, |t|), key)
    ensures forall h :: h in sl ==> nd[h].0 != key
  {
    var n := |t|;
    forall h | h in sl ensures nd[h].0 != key {
      assert PlacedAt(t, sl, h);
      var j := sl[h];
      assert SlotAt(hash, t, p, sl, nd, j);
      var kh := nd[h].0;
      DistInverse(HomeSlot(hash, kh, n), j, n);
      ProbeRunIsOccupied(t, p, j, steps);
    }
  }
}
