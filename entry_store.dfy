/**
 * The list of entries, modelled as an arena: `nodes` maps each handle (a list
 * node) to its (key, value) pair, and `order` lists the live handles from
 * front to back.  A handle stays valid while its node is in the list, however
 * other nodes are added or removed.
 */
module EntryStore {
  import OrderedMap

  /** The entries of the list, front to back. */
  function View<K, V>(order: seq<nat>, nodes: map<nat, (K, V)>): (r: seq<(K, V)>)
    requires forall i :: 0 <= i < |order| ==> order[i] in nodes
    ensures |r| == |order|
    ensures forall i :: 0 <= i < |order| ==> r[i] == nodes[order[i]]
  {
    if order == [] then [] else [nodes[order[0]]] + View(order[1..], nodes)
  }

  /** The handles of the nodes linked in the list. */
  function Handles(order: seq<nat>): (r: set<nat>)
    ensures forall i :: 0 <= i < |order| ==> order[i] in r
    ensures |r| <= |order|
  {
    if order == [] then {} else {order[0]} + Handles(order[1..])
  }

  /** A linked handle has a position in the list. */
  lemma {:induction false} HandleAt(order: seq<nat>, x: nat) returns (i: nat)
    requires x in Handles(order)
    ensures i < |order| && order[i] == x
  {
    if order[0] == x {
      i := 0;
    } else {
      var j := HandleAt(order[1..], x);
      i := j + 1;
    }
  }

  /** A handle that occurs nowhere in the list is not linked. */
  lemma {:induction false} NotInHandles(order: seq<nat>, x: nat)
    requires forall i :: 0 <= i < |order| ==> order[i] != x
    ensures x !in Handles(order)
  {
    if order != [] {
      NotInHandles(order[1..], x);
    }
  }

  /** Linking a node at the back adds its handle. */
  lemma {:induction false} HandlesAppend(order: seq<nat>, x: nat)
    ensures Handles(order + [x]) == Handles(order) + {x}
  {
    if order != [] {
      assert (order + [x])[1..] == order[1..] + [x];
      HandlesAppend(order[1..], x);
    }
  }

  /** Extending a prefix of the list by one node adds that node's handle. */
  lemma HandlesGrow(order: seq<nat>, i: nat)
    requires i < |order|
    ensures Handles(order[..i + 1]) == Handles(order[..i]) + {order[i]}
  {
    assert order[..i + 1] == order[..i] + [order[i]];
    HandlesAppend(order[..i], order[i]);
  }

  /** The list's links after unlinking node `h` (erase by iterator). */
  function Unlink(order: seq<nat>, h: nat): (r: seq<nat>)
    ensures Handles(r) == Handles(order) - {h}
    ensures |r| <= |order|
  {
    if order == [] then []
    else if order[0] == h then Unlink(order[1..], h)
    else [order[0]] + Unlink(order[1..], h)
  }

  /** emplace_back: a fresh node linked at the back adds its entry at the end of the view. */
  lemma ViewAppend<K, V>(order: seq<nat>, nodes: map<nat, (K, V)>, h: nat, e: (K, V))
    requires forall i :: 0 <= i < |order| ==> order[i] in nodes
    requires h !in order
    ensures View(order + [h], nodes[h := e]) == View(order, nodes) + [e]
  {
    var r, s := View(order + [h], nodes[h := e]), View(order, nodes) + [e];
    forall i | 0 <= i < |r| ensures r[i] == s[i] {
      if i < |order| {
        assert (order + [h])[i] == order[i] && order[i] != h;
      }
    }
  }

  /**
   * Unlinking the only node that carries key `nodes[h].0` and freeing it
   * removes exactly that key from the view, keeping the others in order.
   */
  lemma {:induction false} ViewUnlink<K, V>(order: seq<nat>, nodes: map<nat, (K, V)>, h: nat)
    requires forall i :: 0 <= i < |order| ==> order[i] in nodes
    requires h in nodes
    requires forall i :: 0 <= i < |order| && nodes[order[i]].0 == nodes[h].0 ==> order[i] == h
    ensures forall i :: 0 <= i < |Unlink(order, h)| ==> Unlink(order, h)[i] in nodes - {h}
    ensures View(Unlink(order, h), nodes - {h}) == OrderedMap.Remove(View(order, nodes), nodes[h].0)
  {
    var u := Unlink(order, h);
    forall i | 0 <= i < |u| ensures u[i] in nodes - {h} {
      var m := HandleAt(order, u[i]);
    }
    if order != [] {
      var rest := order[1..];
      ViewUnlink(rest, nodes, h);
      assert View(order, nodes)[1..] == View(rest, nodes);
      if order[0] != h {
        assert u == [order[0]] + Unlink(rest, h);
        assert View(u, nodes - {h}) == [nodes[order[0]]] + View(Unlink(rest, h), nodes - {h});
      }
    }
  }

  /** Writing through a reference to node `h` sets the value of its key in the view. */
  lemma {:induction false} ViewSetValue<K, V>(order: seq<nat>, nodes: map<nat, (K, V)>, h: nat, v: V)
    requires forall i :: 0 <= i < |order| ==> order[i] in nodes
    requires h in nodes
    requires forall i :: 0 <= i < |order| && nodes[order[i]].0 == nodes[h].0 ==> order[i] == h
    ensures View(order, nodes[h := (nodes[h].0, v)]) == OrderedMap.SetValue(View(order, nodes), nodes[h].0, v)
  {
    if order != [] {
      ViewSetValue(order[1..], nodes, h, v);
      assert View(order, nodes)[1..] == View(order[1..], nodes);
    }
  }

  /** With distinct keys, the node of the list carrying `k` is where the view's lookup finds it. */
  lemma ViewLookup<K, V>(order: seq<nat>, nodes: map<nat, (K, V)>, k: K)
    requires forall i :: 0 <= i < |order| ==> order[i] in nodes
    requires OrderedMap.DistinctKeys(View(order, nodes))
    ensures OrderedMap.Lookup(View(order, nodes), k).None? <==>
            forall i :: 0 <= i < |order| ==> nodes[order[i]].0 != k
    ensures forall i :: 0 <= i < |order| && nodes[order[i]].0 == k ==>
            OrderedMap.Lookup(View(order, nodes), k) == OrderedMap.Some(nodes[order[i]].1)
  {
    var s := View(order, nodes);
    forall i | 0 <= i < |order| && nodes[order[i]].0 == k
      ensures OrderedMap.Lookup(s, k) == OrderedMap.Some(nodes[order[i]].1)
    {
      OrderedMap.LookupDistinct(s, i);
    }
  }

  // ---------------------------------------------------------------------------
  // The well-formed list

  /** Entries `i` and `j` of the list carry different keys. */
  ghost predicate KeysDiffer<K, V>(order: seq<nat>, nodes: map<nat, (K, V)>, i: nat, j: nat)
    requires i < |order| && j < |order| && order[i] in nodes && order[j] in nodes
  {
    nodes[order[i]].0 != nodes[order[j]].0
  }

  /**
   * The list is well formed: the live nodes are exactly the linked ones, every
   * handle is below the next fresh one, and no two entries share a key.
   */
  ghost predicate Linked<K, V>(order: seq<nat>, nodes: map<nat, (K, V)>, next: nat) {
    && nodes.Keys == Handles(order)
    && (forall i :: 0 <= i < |order| ==> order[i] < next)
    && (forall i, j {:trigger KeysDiffer(order, nodes, i, j)} :: 0 <= i < j < |order| ==> KeysDiffer(order, nodes, i, j))
  }

  /** A well-formed list views as entries with distinct keys. */
  lemma LinkedKeys<K, V>(order: seq<nat>, nodes: map<nat, (K, V)>, next: nat)
    requires Linked(order, nodes, next)
    ensures OrderedMap.DistinctKeys(View(order, nodes))
  {
    forall i, j | 0 <= i < j < |order| ensures View(order, nodes)[i].0 != View(order, nodes)[j].0 {
      assert KeysDiffer(order, nodes, i, j);
    }
  }

  /** Conversely, linked nodes below `next` whose view has distinct keys form a well-formed list. */
  lemma KeysLinked<K, V>(order: seq<nat>, nodes: map<nat, (K, V)>, next: nat)
    requires nodes.Keys == Handles(order) && forall i :: 0 <= i < |order| ==> order[i] < next
    requires OrderedMap.DistinctKeys(View(order, nodes))
    ensures Linked(order, nodes, next)
  {
    forall i, j | 0 <= i < j < |order| ensures KeysDiffer(order, nodes, i, j) {
      assert View(order, nodes)[i].0 != View(order, nodes)[j].0;
    }
  }

  /** No handle is linked twice. */
  lemma LinkedDistinct<K, V>(order: seq<nat>, nodes: map<nat, (K, V)>, next: nat, i: nat, j: nat)
    requires Linked(order, nodes, next) && i < j < |order|
    ensures order[i] != order[j]
  {
    assert KeysDiffer(order, nodes, i, j);
  }

  /** The node carrying a key is the one whose value the view's lookup returns; no node carries an absent key. */
  lemma LinkedLookup<K, V>(order: seq<nat>, nodes: map<nat, (K, V)>, next: nat, k: K)
    requires Linked(order, nodes, next)
    ensures OrderedMap.Lookup(View(order, nodes), k).None? <==> forall h :: h in nodes ==> nodes[h].0 != k
    ensures forall h :: h in nodes && nodes[h].0 == k ==>
              OrderedMap.Lookup(View(order, nodes), k) == OrderedMap.Some(nodes[h].1)
  {
    LinkedKeys(order, nodes, next);
    ViewLookup(order, nodes, k);
    forall h | h in nodes && nodes[h].0 == k
      ensures OrderedMap.Lookup(View(order, nodes), k) == OrderedMap.Some(nodes[h].1)
    {
      var i := HandleAt(order, h);
    }
  }

  /**
   * emplace_back of an absent key: the fresh handle was not live, and the
   * list, still well formed, views as the insertion of the pair.
   */
  lemma LinkedAppend<K, V>(order: seq<nat>, nodes: map<nat, (K, V)>, next: nat, k: K, v: V)
    requires Linked(order, nodes, next)
    requires OrderedMap.Lookup(View(order, nodes), k).None?
    ensures next !in nodes
    ensures Linked(order + [next], nodes[next := (k, v)], next + 1)
    ensures View(order + [next], nodes[next := (k, v)]) == OrderedMap.Insert(View(order, nodes), k, v)
  {
    if next in nodes {
      var i := HandleAt(order, next);
      assert false;
    }
    LinkedKeys(order, nodes, next);
    HandlesAppend(order, next);
    ViewAppend(order, nodes, next, (k, v));
    OrderedMap.InsertSpec(View(order, nodes), k, v);
    KeysLinked(order + [next], nodes[next := (k, v)], next + 1);
  }

  /** erase by iterator: unlinking and freeing a live node removes its key from the view and keeps the list well formed. */
  lemma LinkedUnlink<K, V>(order: seq<nat>, nodes: map<nat, (K, V)>, next: nat, h: nat)
    requires Linked(order, nodes, next) && h in nodes
    ensures Linked(Unlink(order, h), nodes - {h}, next)
    ensures View(Unlink(order, h), nodes - {h}) == OrderedMap.Remove(View(order, nodes), nodes[h].0)
  {
    var m := HandleAt(order, h);
    forall i | 0 <= i < |order| && nodes[order[i]].0 == nodes[h].0 ensures order[i] == h {
      assert i < m ==> KeysDiffer(order, nodes, i, m);
      assert m < i ==> KeysDiffer(order, nodes, m, i);
    }
    LinkedKeys(order, nodes, next);
    ViewUnlink(order, nodes, h);
    OrderedMap.RemoveSpec(View(order, nodes), nodes[h].0);
    var u := Unlink(order, h);
    forall i | 0 <= i < |u| ensures u[i] < next {
      var j := HandleAt(order, u[i]);
    }
    KeysLinked(u, nodes - {h}, next);
  }

  /** Writing through a reference to a live node sets the value of its key and keeps the list well formed. */
  lemma LinkedSetValue<K, V>(order: seq<nat>, nodes: map<nat, (K, V)>, next: nat, h: nat, v: V)
    requires Linked(order, nodes, next) && h in nodes
    ensures Linked(order, nodes[h := (nodes[h].0, v)], next)
    ensures View(order, nodes[h := (nodes[h].0, v)]) == OrderedMap.SetValue(View(order, nodes), nodes[h].0, v)
  {
    var m := HandleAt(order, h);
    forall i | 0 <= i < |order| && nodes[order[i]].0 == nodes[h].0 ensures order[i] == h {
      assert i < m ==> KeysDiffer(order, nodes, i, m);
      assert m < i ==> KeysDiffer(order, nodes, m, i);
    }
    LinkedKeys(order, nodes, next);
    ViewSetValue(order, nodes, h, v);
    OrderedMap.SetValueDistinct(View(order, nodes), nodes[h].0, v);
    var nodes' := nodes[h := (nodes[h].0, v)];
    forall i, j | 0 <= i < j < |order| ensures KeysDiffer(order, nodes', i, j) {
      assert KeysDiffer(order, nodes, i, j);
    }
  }
}
