/**
 * Arithmetic on the circular index table, and the facts about a table of
 * slots that do not depend on what the slots point to: the Robin Hood
 * ordering of displacements, the reachability it implies, and the counting
 * argument that leaves an empty slot in a table that is not full.
 */
module Slots {

  /** The sentinel of an empty slot (the list's end() in the original). */
  const Empty: int := -1

  /** The slot after `i`, wrapping to 0 at the end of the table. */
  function Next(i: nat, n: nat): (r: nat)
    requires i < n
    ensures r < n
  {
    if i + 1 == n then 0 else i + 1
  }

  /** The slot before `i`, wrapping to the last slot. */
  function Prev(i: nat, n: nat): (r: nat)
    requires i < n
    ensures r < n
    ensures Next(r, n) == i
  {
    if i == 0 then n - 1 else i - 1
  }

  /** How many forward steps lead from slot `a` to slot `b`. */
  function Dist(a: nat, b: nat, n: nat): (r: nat)
    requires a < n && b < n
    ensures r < n
    ensures r == 0 <==> a == b
  {
    if a <= b then b - a else b + n - a
  }

  /** The slot `d` forward steps after `a`. */
  function Fwd(a: nat, d: nat, n: nat): (r: nat)
    requires a < n && d < n
    ensures r < n && Dist(a, r, n) == d
  {
    if a + d < n then a + d else a + d - n
  }

  /** The slot `d` steps before `b`. */
  function Back(b: nat, d: nat, n: nat): (r: nat)
    requires b < n && d < n
    ensures r < n && Dist(r, b, n) == d
  {
    if d <= b then b - d else b + n - d
  }

  /** Stepping forward from `a` by the distance to `b` reaches `b`, and stepping back from `b` reaches `a`. */
  lemma DistInverse(a: nat, b: nat, n: nat)
    requires a < n && b < n
    ensures Fwd(a, Dist(a, b, n), n) == b && Back(b, Dist(a, b, n), n) == a
  {
  }

  /** One probe step from `b` towards a different slot `e`, as seen from `a`. */
  lemma StepFacts(a: nat, b: nat, e: nat, n: nat)
    requires a < n && b < n && e < n && b != e
    ensures Prev(Next(b, n), n) == b
    ensures Dist(Next(b, n), e, n) == Dist(b, e, n) - 1
    ensures Dist(a, b, n) + 1 < n ==> Dist(a, Next(b, n), n) == Dist(a, b, n) + 1
  {
  }

  /** The distance from home is the displacement formula `(slot - home) mod capacity`. */
  lemma DistIsModulo(a: nat, b: nat, n: nat)
    requires a < n && b < n
    ensures Dist(a, b, n) == (b - a) % n
  {
    if a > b {
      assert b - a == n * -1 + (b + n - a);
    }
  }

  /**
   * Robin Hood ordering at slot `i` of a table `t` with displacements `p`: an
   * occupant that is not at its home has an occupied slot before it, whose
   * displacement is at most one less.
   */
  ghost predicate OrderedAt(t: seq<int>, p: seq<nat>, i: nat)
    requires |p| == |t| && i < |t|
  {
    t[i] != Empty && p[i] > 0 ==> t[Prev(i, |t|)] != Empty && p[i] <= p[Prev(i, |t|)] + 1
  }

  /** The Robin Hood ordering holds at every slot. */
  ghost predicate RobinHoodOrdered(t: seq<int>, p: seq<nat>) {
    |p| == |t| && forall i :: 0 <= i < |t| ==> OrderedAt(t, p, i)
  }

  /** The Robin Hood ordering holds at every slot but `x`. */
  ghost predicate OrderedExcept(t: seq<int>, p: seq<nat>, x: nat) {
    |p| == |t| && forall i :: 0 <= i < |t| && i != x ==> OrderedAt(t, p, i)
  }

  /**
   * While the hole left by an erase sits at `hole`, the occupant after it may
   * be displaced by up to two more than the occupant before the hole.
   */
  ghost predicate GapBridged(t: seq<int>, p: seq<nat>, hole: nat)
    requires |p| == |t| && hole < |t|
  {
    var c, b := Next(hole, |t|), Prev(hole, |t|);
    t[c] != Empty && p[c] > 1 ==> t[b] != Empty && p[c] <= p[b] + 2
  }

  /** Walking back from an occupant, each slot within its displacement is occupied and displaced enough. */
  lemma {:induction false} RunBehindIsOccupied(t: seq<int>, p: seq<nat>, j: nat, d: nat)
    requires RobinHoodOrdered(t, p)
    requires j < |t| && t[j] != Empty && p[j] < |t| && d <= p[j]
    ensures t[Back(j, d, |t|)] != Empty && p[j] <= p[Back(j, d, |t|)] + d
    decreases d
  {
    if d > 0 {
      RunBehindIsOccupied(t, p, j, d - 1);
      var b := Back(j, d - 1, |t|);
      assert OrderedAt(t, p, b);
      assert Prev(b, |t|) == Back(j, d, |t|);
    }
  }

  /**
   * Reachability: every slot from an occupant's home (its slot minus its
   * displacement) forward up to the occupant itself is occupied, so a probe
   * that starts at the home meets no empty slot before reaching it.
   */
  lemma ProbeRunIsOccupied(t: seq<int>, p: seq<nat>, j: nat, d: nat)
    requires RobinHoodOrdered(t, p)
    requires j < |t| && t[j] != Empty && p[j] < |t| && d < |t|
    ensures d <= p[j] ==> t[Fwd(Back(j, p[j], |t|), d, |t|)] != Empty
  {
    if d <= p[j] {
      RunBehindIsOccupied(t, p, j, p[j] - d);
      assert Fwd(Back(j, p[j], |t|), d, |t|) == Back(j, p[j] - d, |t|);
    }
  }

  // ---------------------------------------------------------------------------
  // The ordering under the updates of insertion and erasure

  /**
   * Robin Hood eviction keeps the ordering: an incoming occupant displaced by
   * `d`, strictly more than the resident of `pos`, takes its slot when the
   * slot before it is occupied and displaced by at least `d - 1`.
   */
  lemma EvictKeepsOrder(t: seq<int>, p: seq<nat>, pos: nat, x: int, d: nat)
    requires RobinHoodOrdered(t, p) && pos < |t|
    requires t[pos] != Empty && p[pos] < d && x != Empty
    requires t[Prev(pos, |t|)] != Empty && d <= p[Prev(pos, |t|)] + 1
    ensures RobinHoodOrdered(t[pos := x], p[pos := d])
  {
    var t', p' := t[pos := x], p[pos := d];
    forall i | 0 <= i < |t| ensures OrderedAt(t', p', i) {
      assert OrderedAt(t, p, i);
    }
  }

  /** Filling an empty slot keeps the ordering, under the same condition on the slot before it. */
  lemma FillKeepsOrder(t: seq<int>, p: seq<nat>, pos: nat, x: int, d: nat)
    requires RobinHoodOrdered(t, p) && pos < |t|
    requires t[pos] == Empty && x != Empty
    requires d > 0 ==> t[Prev(pos, |t|)] != Empty && d <= p[Prev(pos, |t|)] + 1
    ensures RobinHoodOrdered(t[pos := x], p[pos := d])
  {
    var t', p' := t[pos := x], p[pos := d];
    forall i | 0 <= i < |t| ensures OrderedAt(t', p', i) {
      assert OrderedAt(t, p, i);
    }
  }

  /** Emptying a slot breaks the ordering at most at the slot after it, and the hole is bridged. */
  lemma ClearKeepsOrder(t: seq<int>, p: seq<nat>, pos: nat)
    requires RobinHoodOrdered(t, p) && pos < |t| && 3 <= |t|
    ensures OrderedExcept(t[pos := Empty], p[pos := 0], Next(pos, |t|))
    ensures GapBridged(t[pos := Empty], p[pos := 0], pos)
  {
    var t', p' := t[pos := Empty], p[pos := 0];
    var n := |t|;
    forall i | 0 <= i < n && i != Next(pos, n) ensures OrderedAt(t', p', i) {
      assert OrderedAt(t, p, i);
    }
    assert OrderedAt(t, p, Next(pos, n));
    assert OrderedAt(t, p, pos);
  }

  /**
   * One backward shift: the occupant after the hole moves into it with its
   * displacement lowered by one, and the hole moves one slot on.
   */
  lemma ShiftKeepsOrder(t: seq<int>, p: seq<nat>, hole: nat)
    requires 3 <= |t| && |p| == |t| && hole < |t|
    requires t[hole] == Empty && p[hole] == 0
    requires t[Next(hole, |t|)] != Empty && p[Next(hole, |t|)] > 0
    requires OrderedExcept(t, p, Next(hole, |t|)) && GapBridged(t, p, hole)
    ensures var c := Next(hole, |t|);
            var t', p' := t[hole := t[c]][c := Empty], p[hole := p[c] - 1][c := 0];
            OrderedExcept(t', p', Next(c, |t|)) && GapBridged(t', p', c)
  {
    var n := |t|;
    var c := Next(hole, n);
    var t', p' := t[hole := t[c]][c := Empty], p[hole := p[c] - 1][c := 0];
    forall i | 0 <= i < n && i != Next(c, n) ensures OrderedAt(t', p', i) {
      if i != c {
        assert OrderedAt(t, p, i);
      }
    }
    var c2 := Next(c, n);
    assert OrderedAt(t, p, c2);
    assert Prev(c2, n) == c && Prev(c, n) == hole;
    assert c2 != c && c2 != hole;
    assert t'[c2] == t[c2] && p'[c2] == p[c2] && t'[hole] == t[c] && p'[hole] == p[c] - 1;
    assert GapBridged(t', p', c);
  }

  /** The shift stops at an empty slot or a slot at its home, where the ordering holds again. */
  lemma StopRestoresOrder(t: seq<int>, p: seq<nat>, c: nat)
    requires OrderedExcept(t, p, c) && c < |t|
    requires t[c] == Empty || p[c] == 0
    ensures RobinHoodOrdered(t, p)
  {
    forall i | 0 <= i < |t| ensures OrderedAt(t, p, i) {
      if i != c {
        assert OrderedAt(t, p, i);
      }
    }
  }

  /** A table whose occupants are pairwise distinct members of `S` has at most |S| slots. */
  lemma {:induction false} InjectiveIntoSet(t: seq<int>, S: set<int>)
    requires forall i :: 0 <= i < |t| ==> t[i] in S
    requires forall i, j :: 0 <= i < j < |t| ==> t[i] != t[j]
    ensures |t| <= |S|
  {
    if t != [] {
      var last := t[|t| - 1];
      InjectiveIntoSet(t[..|t| - 1], S - {last});
    }
  }

  /** A table holding fewer distinct occupants than it has slots has an empty slot. */
  lemma EmptySlotExists(t: seq<int>, S: set<int>)
    requires forall i :: 0 <= i < |t| && t[i] != Empty ==> t[i] in S
    requires forall i, j :: 0 <= i < j < |t| && t[i] != Empty ==> t[i] != t[j]
    requires |S| < |t|
    ensures exists e :: 0 <= e < |t| && t[e] == Empty
  {
    if forall i :: 0 <= i < |t| ==> t[i] != Empty {
      InjectiveIntoSet(t, S);
    }
  }
}
