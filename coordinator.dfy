/**
  The layer coordinator's state and operations as values: a membership table
  from identifier to layer mask, and one tree per layer. `InsertSpec`,
  `RemoveSpec` and `UpdateSpec` give the state after each call of the
  coordinator and the way the call ends (normally, or by one of its panics);
  the class `Bvh.BVH` is proved to follow them.
 */
module Coordinator {
  import opened Id
  import opened LayerMask
  import opened LayerIndex

  /** Why a call panics. */
  datatype Reason =
    | DuplicateNode    // Insert of an identifier already in the table
    | NonexistentNode  // Remove or Update of an identifier not in the table
    | LayerFailed      // one of the per-layer trees returned an error

  datatype Outcome = Done | Panic(reason: Reason)

  datatype State<Box> = State(lookup: map<ID, Layer>, layers: seq<Tree<Box>>)

  /** The state after a call, and how the call ended. */
  datatype Step<Box> = Step(state: State<Box>, outcome: Outcome)

  /** The state of a new coordinator: an empty table and 16 empty trees. */
  function Empty<Box>(): (s: State<Box>)
    ensures |s.layers| == Count
    ensures s.lookup == map[] && forall i :: 0 <= i < Count ==> s.layers[i] == map[]
  {
    State(map[], seq(Count, _ => map[]))
  }

  /** Layer `i`'s tree after a fan-out of `op` over mask `l`: untouched unless selected, unchanged if its call fails. */
  function LayerAfter<Box>(t: Tree<Box>, l: Layer, i: nat, op: Op<Box>): (t': Tree<Box>)
    requires i < Count
  {
    if Selects(l, i) then
      match Apply(op, t)
      case Ok(t') => t'
      case Err => t
    else t
  }

  /** All 16 trees after a fan-out of `op` over mask `l`. */
  function FanOut<Box>(ts: seq<Tree<Box>>, l: Layer, op: Op<Box>): (r: seq<Tree<Box>>)
    requires |ts| == Count
    ensures |r| == Count
  {
    seq(Count, i requires 0 <= i < Count => LayerAfter(ts[i], l, i, op))
  }

  /** Some layer below `n` selected by `l` returns an error for `op`. */
  predicate FailsBelow<Box>(ts: seq<Tree<Box>>, l: Layer, op: Op<Box>, n: nat)
    requires |ts| == Count && n <= Count
  {
    exists i: nat :: i < n && Selects(l, i) && Apply(op, ts[i]).Err?
  }

  /** The fan-out of `op` over `l` meets an error in some layer (the joined error group is non-nil). */
  predicate Fails<Box>(ts: seq<Tree<Box>>, l: Layer, op: Op<Box>)
    requires |ts| == Count
  {
    FailsBelow(ts, l, op, Count)
  }

  /**
    Insert(x, l, aabb): panic on a duplicate before touching anything; else
    record x -> l, fan the insert out to the layers of l, and panic if one of
    them fails (the table entry stays written).
   */
  function InsertSpec<Box>(s: State<Box>, x: ID, l: Layer, aabb: Box): (r: Step<Box>)
    requires |s.layers| == Count
    ensures |r.state.layers| == Count
    ensures r.outcome == Panic(DuplicateNode) <==> x in s.lookup
    ensures x in s.lookup ==> r.state == s
    ensures x !in s.lookup ==> r.state.lookup == s.lookup[x := l]
    ensures x !in s.lookup ==> forall i: nat :: i < Count ==>
      r.state.layers[i] == (if Selects(l, i) && x !in s.layers[i] then s.layers[i][x := aabb] else s.layers[i])
    ensures x !in s.lookup ==> (r.outcome ==
      (if exists i: nat :: i < Count && Selects(l, i) && x in s.layers[i] then Panic(LayerFailed) else Done))
  {
    if x in s.lookup then Step(s, Panic(DuplicateNode))
    else
      var op := Op.Insert(x, aabb);
      Step(State(s.lookup[x := l], FanOut(s.layers, l, op)),
           if Fails(s.layers, l, op) then Panic(LayerFailed) else Done)
  }

  /**
    Remove(x): panic if x is not in the table; else fan the removal out to the
    layers of x's recorded mask, panic if one fails (the entry is then kept),
    and otherwise delete the entry.
   */
  function RemoveSpec<Box>(s: State<Box>, x: ID): (r: Step<Box>)
    requires |s.layers| == Count
    ensures |r.state.layers| == Count
    ensures r.outcome == Panic(NonexistentNode) <==> x !in s.lookup
    ensures x !in s.lookup ==> r.state == s
    ensures r.outcome == Done ==> r.state.lookup == s.lookup - {x}
    ensures r.outcome != Done ==> r.state.lookup == s.lookup
    ensures x in s.lookup ==> forall i: nat :: i < Count ==>
      r.state.layers[i] == (if Selects(s.lookup[x], i) then s.layers[i] - {x} else s.layers[i])
    ensures x in s.lookup ==> (r.outcome ==
      (if exists i: nat :: i < Count && Selects(s.lookup[x], i) && x !in s.layers[i] then Panic(LayerFailed) else Done))
  {
    if x !in s.lookup then Step(s, Panic(NonexistentNode))
    else
      var l := s.lookup[x];
      var op: Op<Box> := Op.Remove(x);
      var ts := FanOut(s.layers, l, op);
      if Fails(s.layers, l, op) then Step(State(s.lookup, ts), Panic(LayerFailed))
      else Step(State(s.lookup - {x}, ts), Done)
  }

  /**
    Update(x, aabb): panic if x is not in the table; else push the new box to
    the layers of x's recorded mask, panicking if one fails. The table is
    never changed.
   */
  function UpdateSpec<Box>(s: State<Box>, x: ID, aabb: Box): (r: Step<Box>)
    requires |s.layers| == Count
    ensures |r.state.layers| == Count
    ensures r.state.lookup == s.lookup
    ensures r.outcome == Panic(NonexistentNode) <==> x !in s.lookup
    ensures x !in s.lookup ==> r.state == s
    ensures x in s.lookup ==> forall i: nat :: i < Count ==>
      r.state.layers[i] == (if Selects(s.lookup[x], i) && x in s.layers[i] then s.layers[i][x := aabb] else s.layers[i])
    ensures x in s.lookup ==> (r.outcome ==
      (if exists i: nat :: i < Count && Selects(s.lookup[x], i) && x !in s.layers[i] then Panic(LayerFailed) else Done))
  {
    if x !in s.lookup then Step(s, Panic(NonexistentNode))
    else
      var l := s.lookup[x];
      var op := Op.Update(x, aabb);
      Step(State(s.lookup, FanOut(s.layers, l, op)),
           if Fails(s.layers, l, op) then Panic(LayerFailed) else Done)
  }

  /**
    The coordinator's invariant: x is in layer i's tree exactly when x is in
    the table and bit i of its mask is set, and every layer holding x holds the
    same box for it.
   */
  ghost predicate Consistent<Box>(s: State<Box>)
  {
    && |s.layers| == Count
    && (forall i: nat, x :: i < Count ==> (x in s.layers[i] <==> x in s.lookup && Selects(s.lookup[x], i)))
    && (forall i: nat, j: nat, x :: i < Count && j < Count && x in s.layers[i] && x in s.layers[j] ==>
          s.layers[i][x] == s.layers[j][x])
  }

  /** A new coordinator is consistent. */
  lemma EmptyIsConsistent<Box>()
    ensures Consistent(Empty<Box>())
  {
  }

  /** From a consistent state, a fresh Insert reaches every selected layer without error and keeps the invariant. */
  lemma InsertKeepsConsistent<Box>(s: State<Box>, x: ID, l: Layer, aabb: Box)
    requires Consistent(s) && x !in s.lookup
    ensures InsertSpec(s, x, l, aabb).outcome == Done
    ensures Consistent(InsertSpec(s, x, l, aabb).state)
  {
  }

  /** From a consistent state, Remove of a tracked id reaches every selected layer without error and keeps the invariant. */
  lemma RemoveKeepsConsistent<Box>(s: State<Box>, x: ID)
    requires Consistent(s) && x in s.lookup
    ensures RemoveSpec(s, x).outcome == Done
    ensures Consistent(RemoveSpec(s, x).state)
  {
  }

  /** From a consistent state, Update of a tracked id reaches every selected layer without error and keeps the invariant. */
  lemma UpdateKeepsConsistent<Box>(s: State<Box>, x: ID, aabb: Box)
    requires Consistent(s) && x in s.lookup
    ensures UpdateSpec(s, x, aabb).outcome == Done
    ensures Consistent(UpdateSpec(s, x, aabb).state)
  {
  }

  /** One call of the coordinator's public mutating interface. */
  datatype Call<Box> = InsertCall(x: ID, l: Layer, aabb: Box) | RemoveCall(x: ID) | UpdateCall(x: ID, aabb: Box)

  function Exec<Box>(s: State<Box>, c: Call<Box>): (r: Step<Box>)
    requires |s.layers| == Count
    ensures |r.state.layers| == Count
  {
    match c
    case InsertCall(x, l, aabb) => InsertSpec(s, x, l, aabb)
    case RemoveCall(x) => RemoveSpec(s, x)
    case UpdateCall(x, aabb) => UpdateSpec(s, x, aabb)
  }

  /** The state after the calls `cs`, one after the other. */
  function Run<Box>(s: State<Box>, cs: seq<Call<Box>>): (r: State<Box>)
    requires |s.layers| == Count
    ensures |r.layers| == Count
    decreases |cs|
  {
    if cs == [] then s else Run(Exec(s, cs[0]).state, cs[1..])
  }

  /** No call of `cs`, run from `s`, panics because of a per-layer error. */
  predicate NoLayerPanic<Box>(s: State<Box>, cs: seq<Call<Box>>)
    requires |s.layers| == Count
    decreases |cs|
  {
    cs == [] ||
    (Exec(s, cs[0]).outcome != Panic(LayerFailed) && NoLayerPanic(Exec(s, cs[0]).state, cs[1..]))
  }

  /** The table entry change one call makes, judged from the table alone. */
  function Record<Box>(m: map<ID, Layer>, c: Call<Box>): map<ID, Layer>
  {
    match c
    case InsertCall(x, l, _) => if x in m then m else m[x := l]
    case RemoveCall(x) => m - {x}
    case UpdateCall(_, _) => m
  }

  /**
    The membership table predicted from the calls alone, without the trees:
    an insert of a new identifier records its mask, a remove forgets the
    identifier, an update changes nothing.
   */
  function Registry<Box>(m: map<ID, Layer>, cs: seq<Call<Box>>): map<ID, Layer>
    decreases |cs|
  {
    if cs == [] then m else Registry(Record(m, cs[0]), cs[1..])
  }

  /**
    Any sequence of calls from a consistent state keeps the invariant, never
    meets a per-layer error, and leaves in the table exactly the identifiers
    inserted and not removed, each with the mask it was inserted with.
   */
  lemma {:induction false} RunKeepsConsistent<Box>(s: State<Box>, cs: seq<Call<Box>>)
    requires Consistent(s)
    ensures Consistent(Run(s, cs))
    ensures NoLayerPanic(s, cs)
    ensures Run(s, cs).lookup == Registry(s.lookup, cs)
    decreases |cs|
  {
    if cs != [] {
      match cs[0] {
        case InsertCall(x, l, aabb) =>
          if x !in s.lookup { InsertKeepsConsistent(s, x, l, aabb); }
        case RemoveCall(x) =>
          if x in s.lookup {
            RemoveKeepsConsistent(s, x);
          } else {
            assert s.lookup - {x} == s.lookup;
          }
        case UpdateCall(x, aabb) =>
          if x in s.lookup { UpdateKeepsConsistent(s, x, aabb); }
      }
      assert Exec(s, cs[0]).state.lookup == Record(s.lookup, cs[0]);
      RunKeepsConsistent(Exec(s, cs[0]).state, cs[1..]);
    }
  }

  /** From a new coordinator, no sequence of calls ever panics on a per-layer error. */
  lemma RunFromEmpty<Box>(cs: seq<Call<Box>>)
    ensures Consistent(Run(Empty<Box>(), cs))
    ensures NoLayerPanic(Empty<Box>(), cs)
    ensures Run(Empty<Box>(), cs).lookup == Registry(map[], cs)
  {
    EmptyIsConsistent<Box>();
    RunKeepsConsistent(Empty<Box>(), cs);
  }

  /** `x` is returned by the query of some layer that `m` selects. */
  ghost predicate IsCandidate<Box>(ts: seq<Tree<Box>>, m: Layer, q: Box, overlaps: (Box, Box) -> bool, x: ID)
    requires |ts| == Count
  {
    exists i: nat :: i < Count && Selects(m, i) && x in Query(ts[i], q, overlaps)
  }

  /**
    In a consistent state, `x` is a broad-phase candidate for mask `m` and
    query `q` exactly when it is tracked, shares a layer with `m`, and its
    stored box overlaps `q`.
   */
  lemma CandidateIff<Box>(s: State<Box>, m: Layer, q: Box, overlaps: (Box, Box) -> bool, x: ID)
    requires Consistent(s)
    ensures IsCandidate(s.layers, m, q, overlaps, x) <==>
      && x in s.lookup
      && Members(s.lookup[x]) * Members(m) != {}
      && forall i: nat :: i < Count && x in s.layers[i] ==> overlaps(s.layers[i][x], q)
  {
    if IsCandidate(s.layers, m, q, overlaps, x) {
      var i: nat :| i < Count && Selects(m, i) && x in Query(s.layers[i], q, overlaps);
      assert i in Members(s.lookup[x]) * Members(m);
    }
    if x in s.lookup && Members(s.lookup[x]) * Members(m) != {} &&
       forall i: nat :: i < Count && x in s.layers[i] ==> overlaps(s.layers[i][x], q)
    {
      var i :| i in Members(s.lookup[x]) * Members(m);
      assert x in Query(s.layers[i], q, overlaps);
    }
  }

  /**
    Inserting `x` with mask `l` and box `aabb` makes it a candidate of every
    query whose mask shares a layer with `l` and whose box overlaps `aabb`.
   */
  lemma InsertThenBroadPhase<Box>(s: State<Box>, x: ID, l: Layer, aabb: Box,
                                  m: Layer, q: Box, overlaps: (Box, Box) -> bool)
    requires Consistent(s) && x !in s.lookup
    requires Members(l) * Members(m) != {} && overlaps(aabb, q)
    ensures IsCandidate(InsertSpec(s, x, l, aabb).state.layers, m, q, overlaps, x)
  {
  }

  /** A query with the empty mask has no candidate, whatever the trees hold. */
  lemma ZeroMaskQueryIsEmpty<Box>(ts: seq<Tree<Box>>, q: Box, overlaps: (Box, Box) -> bool, x: ID)
    requires |ts| == Count
    ensures !IsCandidate(ts, 0, q, overlaps, x)
  {
    forall i: nat | i < Count
      ensures !Selects(0, i)
    {
      ZeroHasNoBits(i);
    }
  }

  /** In a consistent state, an object inserted with the empty mask is never a candidate. */
  lemma EmptyMaskNeverMatches<Box>(s: State<Box>, x: ID, m: Layer, q: Box, overlaps: (Box, Box) -> bool)
    requires Consistent(s)
    requires x in s.lookup && s.lookup[x] == 0
    ensures !IsCandidate(s.layers, m, q, overlaps, x)
  {
    EmptyMaskSelectsNothing();
    CandidateIff(s, m, q, overlaps, x);
  }
}
