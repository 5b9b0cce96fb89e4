/**
  One layer's spatial index (the external tree of go-bvh), abstracted to the
  box it stores for each identifier. Its Insert fails on an identifier it
  already holds; its Remove and Update fail on an identifier it does not hold;
  a failed call leaves the tree as it was. Its BroadPhase returns the stored
  identifiers whose box overlaps the query, the overlap test being the
  caller-supplied `overlaps`.
 */
module LayerIndex {
  import opened Id

  type Tree<Box> = map<ID, Box>

  /** A call the coordinator forwards to one layer's tree. */
  datatype Op<Box> = Insert(x: ID, aabb: Box) | Remove(x: ID) | Update(x: ID, aabb: Box)

  datatype Result<T> = Ok(value: T) | Err

  /** The outcome of applying `op` to the tree `t`. */
  function Apply<Box>(op: Op<Box>, t: Tree<Box>): (r: Result<Tree<Box>>)
    ensures r.Ok? <==> (if op.Insert? then op.x !in t else op.x in t)
    ensures r.Ok? && op.Remove? ==> op.x !in r.value && r.value.Keys == t.Keys - {op.x}
    ensures r.Ok? && !op.Remove? ==> op.x in r.value && r.value[op.x] == op.aabb
    ensures r.Ok? ==> forall y :: y != op.x ==> (y in r.value <==> y in t)
    ensures r.Ok? ==> forall y :: y != op.x && y in t ==> r.value[y] == t[y]
  {
    match op
    case Insert(x, b) => if x in t then Err else Ok(t[x := b])
    case Remove(x) => if x in t then Ok(t - {x}) else Err
    case Update(x, b) => if x in t then Ok(t[x := b]) else Err
  }

  /** The identifiers stored in `t` whose box overlaps the query box `q`. */
  function Query<Box>(t: Tree<Box>, q: Box, overlaps: (Box, Box) -> bool): (r: set<ID>)
    ensures forall x :: x in r <==> x in t && overlaps(t[x], q)
  {
    set x | x in t && overlaps(t[x], q)
  }
}
