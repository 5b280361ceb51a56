/**
 * The abstract value of a HashMap: its entries as (key, value) pairs in
 * insertion order.  Every operation of the container is specified by one of
 * the functions below applied to this sequence.
 */
module OrderedMap {

  datatype Option<T> = None | Some(value: T)

  /** The value stored under `k`, scanning front to back: when keys repeat, the first one wins. */
  function Lookup<K(==), V>(s: seq<(K, V)>, k: K): (r: Option<V>)
    ensures r.Some? <==> exists i :: 0 <= i < |s| && s[i].0 == k
    ensures r.Some? ==> (k, r.value) in s
  {
    if s == [] then None
    else if s[0].0 == k then Some(s[0].1)
    else Lookup(s[1..], k)
  }

  /** No two entries share a key. */
  predicate DistinctKeys<K(==), V>(s: seq<(K, V)>) {
    forall i, j :: 0 <= i < j < |s| ==> s[i].0 != s[j].0
  }

  /** Insertion never overwrites: a present key leaves the entries alone, an absent one goes last. */
  function Insert<K(==), V>(s: seq<(K, V)>, k: K, v: V): seq<(K, V)> {
    if Lookup(s, k).Some? then s else s + [(k, v)]
  }

  /** The entries whose key is not `k`, in their original order. */
  function Remove<K(==), V>(s: seq<(K, V)>, k: K): (r: seq<(K, V)>)
    ensures forall i :: 0 <= i < |r| ==> r[i] in s && r[i].0 != k
    ensures forall i :: 0 <= i < |s| && s[i].0 != k ==> s[i] in r
    ensures |r| <= |s|
  {
    if s == [] then []
    else if s[0].0 == k then Remove(s[1..], k)
    else [s[0]] + Remove(s[1..], k)
  }

  /** The entries after writing `v` through a reference to the value stored under `k`. */
  function SetValue<K(==), V>(s: seq<(K, V)>, k: K, v: V): seq<(K, V)> {
    if s == [] then []
    else [if s[0].0 == k then (k, v) else s[0]] + SetValue(s[1..], k, v)
  }

  /** Inserting the pairs of `ps` one after another, front to back. */
  function InsertAll<K(==), V>(s: seq<(K, V)>, ps: seq<(K, V)>): seq<(K, V)>
    decreases |ps|
  {
    if ps == [] then s
    else
      var e := ps[|ps| - 1];
      Insert(InsertAll(s, ps[..|ps| - 1]), e.0, e.1)
  }

  /** The entries of a container built from the range `ps`. */
  function FromSeq<K(==), V>(ps: seq<(K, V)>): seq<(K, V)> {
    InsertAll([], ps)
  }

  // ---------------------------------------------------------------------------
  // Lookup

  /** Lookup returns the value of the first entry carrying the key. */
  lemma {:induction false} LookupFirst<K, V>(s: seq<(K, V)>, k: K, i: nat)
    requires i < |s| && s[i].0 == k
    requires forall j :: 0 <= j < i ==> s[j].0 != k
    ensures Lookup(s, k) == Some(s[i].1)
  {
    if i > 0 {
      LookupFirst(s[1..], k, i - 1);
    }
  }

  /** With distinct keys, the entry carrying `k` is the one Lookup finds. */
  lemma LookupDistinct<K, V>(s: seq<(K, V)>, i: nat)
    requires DistinctKeys(s) && i < |s|
    ensures Lookup(s, s[i].0) == Some(s[i].1)
  {
    LookupFirst(s, s[i].0, i);
  }

  lemma {:induction false} LookupAppend<K, V>(s: seq<(K, V)>, e: (K, V), k: K)
    ensures Lookup(s + [e], k) ==
            if Lookup(s, k).Some? then Lookup(s, k)
            else if e.0 == k then Some(e.1) else None
  {
    if s == [] {
      assert [] + [e] == [e];
    } else {
      assert (s + [e])[1..] == s[1..] + [e];
      LookupAppend(s[1..], e, k);
    }
  }

  // ---------------------------------------------------------------------------
  // Insert

  /**
   * Inserting an absent key appends the pair and adds one entry; inserting a
   * present key changes nothing.  Afterwards the key is present, every other
   * key reads as before, and keys stay distinct.
   */
  lemma InsertSpec<K, V>(s: seq<(K, V)>, k: K, v: V)
    ensures Lookup(s, k).None? ==> Insert(s, k, v) == s + [(k, v)] && |Insert(s, k, v)| == |s| + 1
    ensures Lookup(s, k).Some? ==> Insert(s, k, v) == s
    ensures Lookup(Insert(s, k, v), k) == if Lookup(s, k).Some? then Lookup(s, k) else Some(v)
    ensures forall k' :: k' != k ==> Lookup(Insert(s, k, v), k') == Lookup(s, k')
    ensures DistinctKeys(s) ==> DistinctKeys(Insert(s, k, v))
  {
    forall k' {
      LookupAppend(s, (k, v), k');
    }
  }

  // ---------------------------------------------------------------------------
  // Remove

  /** Removing an absent key is a no-op. */
  lemma {:induction false} RemoveAbsent<K, V>(s: seq<(K, V)>, k: K)
    requires Lookup(s, k).None?
    ensures Remove(s, k) == s
  {
    if s != [] {
      RemoveAbsent(s[1..], k);
      assert [s[0]] + s[1..] == s;
    }
  }

  /** Removal works piecewise on a concatenation. */
  lemma {:induction false} RemoveConcat<K, V>(p: seq<(K, V)>, q: seq<(K, V)>, k: K)
    ensures Remove(p + q, k) == Remove(p, k) + Remove(q, k)
  {
    if p == [] {
      assert [] + q == q;
    } else {
      assert (p + q)[0] == p[0] && (p + q)[1..] == p[1..] + q;
      RemoveConcat(p[1..], q, k);
      if p[0].0 != k {
        assert [p[0]] + (Remove(p[1..], k) + Remove(q, k)) == ([p[0]] + Remove(p[1..], k)) + Remove(q, k);
      }
    }
  }

  /** A sequence is its part before `i`, entry `i`, and its part after `i`. */
  lemma SplitAt<T>(s: seq<T>, i: nat)
    requires i < |s|
    ensures s == (s[..i] + [s[i]]) + s[i + 1..]
  {
  }

  /** When entry `i` alone carries its key, the parts before and after it do not carry it. */
  lemma KeyOnlyAt<K, V>(s: seq<(K, V)>, i: nat)
    requires i < |s|
    requires forall j :: 0 <= j < |s| && s[j].0 == s[i].0 ==> j == i
    ensures Lookup(s[..i], s[i].0).None? && Lookup(s[i + 1..], s[i].0).None?
  {
    var front, back := s[..i], s[i + 1..];
    forall j | 0 <= j < |front| ensures front[j].0 != s[i].0 {
      assert front[j] == s[j];
    }
    forall j | 0 <= j < |back| ensures back[j].0 != s[i].0 {
      assert back[j] == s[i + 1 + j];
    }
  }

  /** When entry `i` alone carries its key, removing that key cuts out exactly that entry. */
  lemma RemoveAt<K, V>(s: seq<(K, V)>, i: nat)
    requires i < |s|
    requires forall j :: 0 <= j < |s| && s[j].0 == s[i].0 ==> j == i
    ensures Remove(s, s[i].0) == s[..i] + s[i + 1..]
  {
    var k := s[i].0;
    var front, back := s[..i], s[i + 1..];
    KeyOnlyAt(s, i);
    RemoveAbsent(front, k);
    RemoveAbsent(back, k);
    SplitAt(s, i);
    RemoveConcat(front + [s[i]], back, k);
    RemoveConcat(front, [s[i]], k);
    assert Remove([s[i]], k) == [];
    assert front + [] == front;
  }

  /** After removal the key is absent; every other key reads as before. */
  lemma {:induction false} LookupRemove<K, V>(s: seq<(K, V)>, k: K, k': K)
    ensures Lookup(Remove(s, k), k') == if k' == k then None else Lookup(s, k')
  {
    if s != [] {
      LookupRemove(s[1..], k, k');
    }
  }

  /**
   * Removing a present key drops one entry, removing an absent one none;
   * keys stay distinct.
   */
  lemma RemoveSpec<K, V>(s: seq<(K, V)>, k: K)
    requires DistinctKeys(s)
    ensures DistinctKeys(Remove(s, k))
    ensures |Remove(s, k)| == if Lookup(s, k).Some? then |s| - 1 else |s|
  {
    if Lookup(s, k).Some? {
      var i :| 0 <= i < |s| && s[i].0 == k;
      RemoveAt(s, i);
      DistinctCut(s, i);
    } else {
      RemoveAbsent(s, k);
    }
  }

  /** Cutting one entry out keeps the keys distinct. */
  lemma DistinctCut<K, V>(s: seq<(K, V)>, i: nat)
    requires DistinctKeys(s) && i < |s|
    ensures DistinctKeys(s[..i] + s[i + 1..])
  {
    var r := s[..i] + s[i + 1..];
    assert forall a :: 0 <= a < |r| ==> r[a] == s[if a < i then a else a + 1];
  }

  // ---------------------------------------------------------------------------
  // SetValue

  /** Writing through a reference changes the value under `k` only, and no key or position. */
  lemma {:induction false} SetValueSpec<K, V>(s: seq<(K, V)>, k: K, v: V)
    ensures |SetValue(s, k, v)| == |s|
    ensures forall i :: 0 <= i < |s| ==> SetValue(s, k, v)[i].0 == s[i].0
    ensures forall i :: 0 <= i < |s| && s[i].0 != k ==> SetValue(s, k, v)[i] == s[i]
    ensures forall i :: 0 <= i < |s| && s[i].0 == k ==> SetValue(s, k, v)[i] == (k, v)
  {
    if s != [] {
      SetValueSpec(s[1..], k, v);
      var r := SetValue(s, k, v);
      forall i | 0 < i < |s| ensures r[i] == SetValue(s[1..], k, v)[i - 1] {
      }
    }
  }

  /** After writing `v` for a present key it reads `v`; other keys read as before. */
  lemma {:induction false} LookupSetValue<K, V>(s: seq<(K, V)>, k: K, v: V, k': K)
    ensures Lookup(SetValue(s, k, v), k') ==
            if k' == k && Lookup(s, k).Some? then Some(v) else Lookup(s, k')
  {
    if s != [] {
      LookupSetValue(s[1..], k, v, k');
    }
  }

  /** Writing a value keeps the keys distinct. */
  lemma SetValueDistinct<K, V>(s: seq<(K, V)>, k: K, v: V)
    requires DistinctKeys(s)
    ensures DistinctKeys(SetValue(s, k, v))
  {
    SetValueSpec(s, k, v);
  }

  // ---------------------------------------------------------------------------
  // Building from a range

  /** Inserting a range keeps the first occurrence of each key, earlier entries first. */
  lemma {:induction false} LookupInsertAll<K, V>(s: seq<(K, V)>, ps: seq<(K, V)>, k: K)
    ensures Lookup(InsertAll(s, ps), k) == Lookup(s + ps, k)
    decreases |ps|
  {
    if ps == [] {
      assert s + ps == s;
    } else {
      var init, e := ps[..|ps| - 1], ps[|ps| - 1];
      LookupInsertAll(s, init, k);
      LookupInsertAll(s, init, e.0);
      InsertSpec(InsertAll(s, init), e.0, e.1);
      assert s + ps == (s + init) + [e];
      LookupAppend(s + init, e, k);
    }
  }

  /** Inserting a range into entries with distinct keys keeps them distinct. */
  lemma {:induction false} InsertAllDistinct<K, V>(s: seq<(K, V)>, ps: seq<(K, V)>)
    requires DistinctKeys(s)
    ensures DistinctKeys(InsertAll(s, ps))
    decreases |ps|
  {
    if ps != [] {
      var init, e := ps[..|ps| - 1], ps[|ps| - 1];
      InsertAllDistinct(s, init);
      InsertSpec(InsertAll(s, init), e.0, e.1);
    }
  }

  /** When no key repeats, inserting a range appends all of it. */
  lemma {:induction false} InsertAllOfDistinct<K, V>(s: seq<(K, V)>, ps: seq<(K, V)>)
    requires DistinctKeys(s + ps)
    ensures InsertAll(s, ps) == s + ps
    decreases |ps|
  {
    if ps == [] {
      assert s + ps == s;
    } else {
      var init, e := ps[..|ps| - 1], ps[|ps| - 1];
      assert s + ps == (s + init) + [e];
      assert DistinctKeys(s + init) by {
        forall a, b | 0 <= a < b < |s + init| ensures (s + init)[a].0 != (s + init)[b].0 {
          assert (s + init)[a] == (s + ps)[a] && (s + init)[b] == (s + ps)[b];
        }
      }
      InsertAllOfDistinct(s, init);
      assert Lookup(s + init, e.0).None? by {
        forall a | 0 <= a < |s + init| ensures (s + init)[a].0 != e.0 {
          assert (s + init)[a] == (s + ps)[a] && e == (s + ps)[|s + ps| - 1];
        }
      }
    }
  }

  /** A container built from a range maps each key to its first value in the range, without duplicates. */
  lemma FromSeqFirstWins<K, V>(ps: seq<(K, V)>, k: K)
    ensures Lookup(FromSeq(ps), k) == Lookup(ps, k)
    ensures DistinctKeys(FromSeq(ps))
  {
    LookupInsertAll([], ps, k);
    assert [] + ps == ps;
    InsertAllDistinct([], ps);
  }

  /** Built from pairwise-distinct keys, the container holds exactly the range, in order. */
  lemma FromSeqOfDistinct<K, V>(ps: seq<(K, V)>)
    requires DistinctKeys(ps)
    ensures FromSeq(ps) == ps
  {
    assert [] + ps == ps;
    InsertAllOfDistinct([], ps);
  }
}
