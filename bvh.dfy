/**
  The layer coordinator `BVH`: a membership table from identifier to layer
  mask, updated in place, and a fixed array of 16 per-layer trees. Each
  mutating call checks the table, then sends the call to the trees of exactly
  the layers whose bit is set in the object's mask, one layer after another
  (the source runs them as concurrent tasks that each touch a different
  layer, and joins them all before going on).
 */
module Bvh {
  import opened Id
  import opened LayerMask
  import opened LayerIndex
  import opened Coordinator

  /** `n` zero-valued identifiers. */
  function Zeros(n: nat): (r: seq<ID>)
    ensures |r| == n && forall k :: 0 <= k < n ==> r[k] == 0
  {
    seq(n, _ => 0)
  }

  class BVH<Box> {
    var lookup: map<ID, Layer>
    const layers: array<Tree<Box>>

    ghost predicate Valid()
      reads this
    {
      layers.Length == Count
    }

    /** The coordinator's state as a value. */
    ghost function Abstract(): (s: State<Box>)
      reads this, layers
      requires Valid()
      ensures |s.layers| == Count
    {
      State(lookup, layers[..])
    }

    /** New: an empty table and a new, empty tree for each of the 16 layers. */
    constructor ()
      ensures Valid() && fresh(layers)
      ensures Abstract() == Empty()
      ensures Consistent(Abstract())
    {
      lookup := map[];
      layers := new Tree<Box>[Count];
      new;
      for i := 0 to Count
        invariant lookup == map[]
        invariant forall j :: 0 <= j < i ==> layers[j] == map[]
      {
        layers[i] := map[];
      }
      assert layers[..] == Empty<Box>().layers;
      EmptyIsConsistent<Box>();
    }

    /**
      Sends `op` to the tree of every layer whose bit is set in `l`, and to no
      other; reports whether any of them returned an error. `dispatched` is the
      set of layers the call reached.
     */
    method Dispatch(l: Layer, op: Op<Box>) returns (failed: bool, ghost dispatched: set<nat>)
      requires Valid()
      modifies layers
      ensures layers[..] == FanOut(old(layers[..]), l, op)
      ensures failed == Fails(old(layers[..]), l, op)
      ensures dispatched == Members(l)
    {
      ghost var ts := layers[..];
      failed, dispatched := false, {};
      for i := 0 to Count
        invariant forall j :: 0 <= j < i ==> layers[j] == LayerAfter(ts[j], l, j, op)
        invariant forall j :: i <= j < Count ==> layers[j] == ts[j]
        invariant failed == FailsBelow(ts, l, op, i)
        invariant dispatched == set j: nat | j < i && Selects(l, j)
      {
        if Selects(l, i) {
          dispatched := dispatched + {i};
          match Apply(op, layers[i]) {
            case Ok(t) => layers[i] := t;
            case Err => failed := true;
          }
        }
      }
      assert layers[..] == FanOut(ts, l, op);
    }

    /**
      Insert: panics on an identifier already in the table without touching
      any tree; otherwise records `x -> l` and inserts `(x, aabb)` into the tree
      of each layer of `l`, panicking if one of them fails.
     */
    method Insert(x: ID, l: Layer, aabb: Box) returns (r: Outcome, ghost dispatched: set<nat>)
      requires Valid()
      modifies this, layers
      ensures Valid()
      ensures Step(Abstract(), r) == InsertSpec(old(Abstract()), x, l, aabb)
      ensures dispatched == if old(x in lookup) then {} else Members(l)
      ensures old(Consistent(Abstract())) ==> Consistent(Abstract()) && r != Panic(LayerFailed)
    {
      ghost var s := Abstract();
      if x in lookup {
        return Panic(DuplicateNode), {};
      }
      lookup := lookup[x := l];
      var failed;
      failed, dispatched := Dispatch(l, Op.Insert(x, aabb));
      if Consistent(s) {
        InsertKeepsConsistent(s, x, l, aabb);
      }
      if failed {
        return Panic(LayerFailed), dispatched;
      }
      return Done, dispatched;
    }

    /**
      Remove: panics on an identifier not in the table; otherwise removes `x`
      from the tree of each layer of its recorded mask, panics if one of them
      fails, and only then deletes the table entry.
     */
    method Remove(x: ID) returns (r: Outcome, ghost dispatched: set<nat>)
      requires Valid()
      modifies this, layers
      ensures Valid()
      ensures Step(Abstract(), r) == RemoveSpec(old(Abstract()), x)
      ensures dispatched == if old(x in lookup) then Members(old(lookup[x])) else {}
      ensures old(Consistent(Abstract())) ==> Consistent(Abstract()) && r != Panic(LayerFailed)
    {
      ghost var s := Abstract();
      if x !in lookup {
        return Panic(NonexistentNode), {};
      }
      var l := lookup[x];
      var failed;
      failed, dispatched := Dispatch(l, Op.Remove(x));
      if Consistent(s) {
        RemoveKeepsConsistent(s, x);
      }
      if failed {
        return Panic(LayerFailed), dispatched;
      }
      lookup := lookup - {x};
      return Done, dispatched;
    }

    /**
      Update: panics on an identifier not in the table; otherwise replaces the
      box of `x` in the tree of each layer of its recorded mask, panicking if
      one of them fails. The table is left as it is.
     */
    method Update(x: ID, aabb: Box) returns (r: Outcome, ghost dispatched: set<nat>)
      requires Valid()
      modifies layers
      ensures Step(Abstract(), r) == UpdateSpec(old(Abstract()), x, aabb)
      ensures dispatched == if x in lookup then Members(lookup[x]) else {}
      ensures old(Consistent(Abstract())) ==> Consistent(Abstract()) && r != Panic(LayerFailed)
    {
      ghost var s := Abstract();
      if x !in lookup {
        return Panic(NonexistentNode), {};
      }
      var l := lookup[x];
      var failed;
      failed, dispatched := Dispatch(l, Op.Update(x, aabb));
      if Consistent(s) {
        UpdateKeepsConsistent(s, x, aabb);
      }
      if failed {
        return Panic(LayerFailed), dispatched;
      }
      return Done, dispatched;
    }

    /**
      BroadPhase as written: the per-layer results are sent on a channel that
      is never read; the result is a slice of 256 zero identifiers with each of
      them appended once more, whatever `l` and `q` are.
     */
    method BroadPhase(l: Layer, q: Box) returns (ids: seq<ID>)
      ensures |ids| == 512
      ensures forall k :: 0 <= k < |ids| ==> ids[k] == 0
    {
      ids := Zeros(256);
      var ranged := ids;
      for k := 0 to |ranged|
        invariant ids == ranged + ranged[..k]
      {
        ids := ids + [ranged[k]];
      }
    }

    /**
      BroadPhase as intended: the union of the query results of every layer
      whose bit is set in `l`, each identifier once. Changes nothing.
     */
    method BroadPhaseUnion(l: Layer, q: Box, overlaps: (Box, Box) -> bool) returns (ids: set<ID>)
      requires Valid()
      ensures forall x :: x in ids <==> IsCandidate(layers[..], l, q, overlaps, x)
      ensures Consistent(Abstract()) ==> forall x :: x in ids <==>
        && x in lookup
        && Members(lookup[x]) * Members(l) != {}
        && forall i: nat :: i < Count && x in layers[i] ==> overlaps(layers[i][x], q)
    {
      ids := {};
      for i := 0 to Count
        invariant forall x :: x in ids <==>
          exists j: nat :: j < i && Selects(l, j) && x in Query(layers[j], q, overlaps)
      {
        if Selects(l, i) {
          ids := ids + Query(layers[i], q, overlaps);
        }
      }
      if Consistent(Abstract()) {
        forall x
          ensures x in ids <==>
            && x in lookup
            && Members(lookup[x]) * Members(l) != {}
            && forall i: nat :: i < Count && x in layers[i] ==> overlaps(layers[i][x], q)
        {
          CandidateIff(Abstract(), l, q, overlaps, x);
        }
      }
    }
  }

  /** A number below 8 has no bit at position 3 or above. */
  lemma HighBitsOfSmall(n: nat, i: nat)
    requires n < 8 && 3 <= i
    ensures !BitAt(n, i)
  {
  }

  /** The layers of the masks 0b101, 0b100 and 0b010. */
  lemma MembersOfSmallMasks()
    ensures Members(5) == {0, 2} && Members(4) == {2} && Members(2) == {1}
  {
    forall i: nat | 3 <= i < Count
      ensures !Selects(5, i) && !Selects(4, i) && !Selects(2, i)
    {
      HighBitsOfSmall(5, i);
      HighBitsOfSmall(4, i);
      HighBitsOfSmall(2, i);
    }
    assert Selects(5, 0) && !Selects(5, 1) && Selects(5, 2);
    assert !Selects(4, 0) && !Selects(4, 1) && Selects(4, 2);
    assert !Selects(2, 0) && Selects(2, 1) && !Selects(2, 2);
  }

  /**
    The scenario of an object 1 inserted with mask 0b101 into a new
    coordinator: a query on mask 0b100 over a box it overlaps should find it
    and one on mask 0b010 should not; no result of the shape BroadPhase's
    contract fixes as written (512 identifiers, all zero) contains it.
   */
  lemma BroadPhaseAsWrittenMissesHit<Box>(aabb: Box, overlaps: (Box, Box) -> bool)
    requires overlaps(aabb, aabb)
    ensures IsCandidate(InsertSpec(Empty<Box>(), 1, 5, aabb).state.layers, 4, aabb, overlaps, 1)
    ensures !IsCandidate(InsertSpec(Empty<Box>(), 1, 5, aabb).state.layers, 2, aabb, overlaps, 1)
    ensures forall ids: seq<ID> :: |ids| == 512 && (forall k :: 0 <= k < |ids| ==> ids[k] == 0) ==> 1 !in ids
  {
    var s := InsertSpec(Empty<Box>(), 1, 5, aabb).state;
    EmptyIsConsistent<Box>();
    InsertKeepsConsistent(Empty<Box>(), 1, 5, aabb);
    MembersOfSmallMasks();
    assert 2 in Members(5) * Members(4);
    CandidateIff(s, 4, aabb, overlaps, 1);
    assert Members(5) * Members(2) == {};
    CandidateIff(s, 2, aabb, overlaps, 1);
  }
}
