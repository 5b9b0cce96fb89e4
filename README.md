# Layer coordinator of downflux/bvh, in Dafny

This project models `BVH`, the collision-layer coordinator of the Go package
`bvh`. The coordinator keeps a membership table `lookup` from object
identifier to a 16-bit layer mask. It also owns 16 per-layer bounding-volume
trees. `Insert`, `Remove` and `Update` check the table for a duplicate or
unknown identifier and panic if the check fails. They then send the call to
the trees of exactly the layers whose bit is set in the object's mask, and
write or delete the table entry. `BroadPhase` selects layers with the same
bit test.

Modules:

- `Id`: object identifiers, an unsigned 64-bit value.
- `LayerMask`: the `Layer` mask, the bit test `Selects(l, i)` (bit `i` of `l`, which is what `Layer(1 << i) & l != 0` tests), and the one-to-one correspondence between masks and subsets of the layers 0..15.
- `LayerIndex`: one layer's tree, abstracted to a map from identifier to box. Its `Insert` fails on a present identifier. Its `Remove` and `Update` fail on an absent one. A failed call leaves the tree unchanged.
- `Coordinator`: the coordinator's state as a value. `InsertSpec`, `RemoveSpec` and `UpdateSpec` give the state and the outcome of each call. The outcome is `Done` or `Panic(reason)`. The module also states the invariant `Consistent` and its lemmas, the call-sequence theorem, and the broad-phase candidate set.
- `Bvh`: the class `BVH`, with the table as a `map` field updated in place and a `const` array of 16 trees. Each method's loop is proved against the matching `Coordinator` specification.

A panic is modelled as a returned `Panic(reason)`, with the state the Go code has reached at that point. `Insert` writes the table entry before the fan-out, so the entry stays written when a layer fails. `Remove` panics before its `delete`, so the entry stays when a layer fails. An identifier left only in some trees is therefore possible on that path. The fan-out the source runs as one task per layer is a `for` loop over the layers 0..15. This is sound when each task reads its own copy of the loop variable `i` (the per-iteration loop variables of Go 1.22 and later): each task then touches a different layer's tree, and the `errgroup` joins all tasks (`Wait` at bvh/bvh.go:56, 74 and 94) before the call goes on. The module's Go version is not part of this model; see "## Left out".

The central result is `Consistent`. An identifier is in layer `i`'s tree exactly when it is in the table and bit `i` of its mask is set. Every layer holding it holds the same box. Every call preserves this. Under it, no per-layer call can fail, so the `LayerFailed` panics are unreachable from a new coordinator (`RunFromEmpty`).

## Model

| member | source | states |
|---|---|---|
| `LayerMask.MembersOfFromMembers` | bvh/bvh.go:21-23 | a mask built from a set of layers in 0..15 selects exactly those layers |
| `LayerMask.FromMembersOfMembers` | bvh/bvh.go:21-23 | every 16-bit mask is the mask of the layers it selects, so masks and layer sets correspond one to one |
| `LayerMask.EmptyMaskSelectsNothing` | bvh/bvh.go:50-54 | the mask 0 selects no layer, so a call with mask 0 reaches no tree |
| `Bvh.BVH.constructor` | bvh/bvh.go:30-40 | `New` gives an empty table and 16 empty trees, and that state is consistent |
| `Coordinator.EmptyIsConsistent` | bvh/bvh.go:30-40 | the state of a new coordinator satisfies the invariant |
| `Bvh.BVH.Dispatch` | bvh/bvh.go:49-58 | the per-layer loop reaches exactly the layers whose bit is set. A reached layer holds the result of its call, or is unchanged if the call failed. Every other layer is unchanged. `failed` is true exactly when some reached layer failed |
| `Coordinator.InsertSpec` | bvh/bvh.go:42-59 | Insert panics with `DuplicateNode` exactly when `x` is in the table, and then changes nothing. Otherwise `lookup` becomes `lookup[x := l]` and layers whose bit is clear are unchanged. A selected layer not holding `x` gets `x -> aabb`, and a selected layer already holding `x` is left as it was. It panics with `LayerFailed` exactly when a selected layer already holds `x`, and otherwise returns normally |
| `Bvh.BVH.Insert` | bvh/bvh.go:42-59 | the new state and outcome are those of `InsertSpec`. It reaches no layer on a duplicate and exactly the layers of `l` otherwise. From a consistent state it stays consistent and never panics with `LayerFailed` |
| `Coordinator.RemoveSpec` | bvh/bvh.go:61-79 | Remove panics with `NonexistentNode` exactly when `x` is not in the table, and then changes nothing. Otherwise `x` leaves every layer of its recorded mask and no other layer changes. On success the entry is deleted and every other entry kept. On a `LayerFailed` panic the table is unchanged. That panic happens exactly when a selected layer does not hold `x`; otherwise the call returns normally and the entry is deleted |
| `Bvh.BVH.Remove` | bvh/bvh.go:61-79 | the new state and outcome are those of `RemoveSpec`. It reaches exactly the layers of the recorded mask, or none for an unknown id. Consistency is preserved and `LayerFailed` is unreachable from a consistent state |
| `Coordinator.UpdateSpec` | bvh/bvh.go:81-97 | Update never changes the table. It panics with `NonexistentNode` exactly when `x` is not in the table, and then changes nothing. Otherwise the box of `x` becomes `aabb` in every layer of its recorded mask that holds it, and no other layer changes. It panics with `LayerFailed` exactly when a selected layer does not hold `x`, and otherwise returns normally |
| `Bvh.BVH.Update` | bvh/bvh.go:81-97 | the new layers and outcome are those of `UpdateSpec`, and the table is untouched. It reaches exactly the layers of the recorded mask. Consistency is preserved and `LayerFailed` is unreachable from a consistent state |
| `Coordinator.InsertKeepsConsistent` | bvh/bvh.go:42-59 | from a consistent state, inserting a new id succeeds in every selected layer and keeps the invariant |
| `Coordinator.RemoveKeepsConsistent` | bvh/bvh.go:61-79 | from a consistent state, removing a tracked id succeeds in every selected layer and keeps the invariant |
| `Coordinator.UpdateKeepsConsistent` | bvh/bvh.go:81-97 | from a consistent state, updating a tracked id succeeds in every selected layer and keeps the invariant |
| `Coordinator.RunKeepsConsistent` | bvh/bvh.go:42-97 | any sequence of Insert/Remove/Update calls from a consistent state keeps the invariant and never meets a per-layer error. The table ends up holding exactly the ids inserted and not removed, each with the mask it was inserted with |
| `Coordinator.RunFromEmpty` | bvh/bvh.go:30-97 | the same, for every call sequence run on a new coordinator |
| `Bvh.BVH.BroadPhase` | bvh/bvh.go:99-125 | as written, the result is 512 zero-valued identifiers whatever the mask and query, and nothing changes |
| `Bvh.BVH.BroadPhaseUnion` | bvh/bvh.go:99-118 | the intended result. It is the set of ids returned by the query of some layer whose bit is set in `l`. In a consistent state, `x` is in it exactly when `x` is tracked, shares a layer with `l`, and its stored box overlaps `q`. Nothing changes |
| `Coordinator.CandidateIff` | bvh/bvh.go:103-113 | in a consistent state, `x` is a broad-phase candidate for mask `m` exactly when it is tracked, its mask shares a layer with `m`, and its box overlaps the query |
| `Coordinator.InsertThenBroadPhase` | bvh/bvh.go:99-113 | after inserting `x` with mask `l` and box `aabb`, a query whose mask shares a layer with `l` and whose box overlaps `aabb` finds `x` |
| `Coordinator.ZeroMaskQueryIsEmpty` | bvh/bvh.go:103-113 | a query with mask 0 has no candidate, for any 16 trees and any identifier |
| `Coordinator.EmptyMaskNeverMatches` | bvh/bvh.go:103-113 | in a consistent state, an object inserted with mask 0 is never a candidate, whatever the query mask |
| `Bvh.BroadPhaseAsWrittenMissesHit` | bvh/bvh.go:120-124 | object 1 is inserted with mask 0b101. A query on mask 0b100 over an overlapping box should find it, and one on mask 0b010 should not. No result of the shape `BroadPhase` returns as written (512 identifiers, all zero) contains it |

## Findings

| source | as written | input that shows it | evidently intended | confidence | as-written member | corrected member |
|---|---|---|---|---|---|---|
| bvh/bvh.go:120-124 | the result slice holds 256 zero identifiers, and the loop appends each of them once more. The channel carrying the per-layer results is never read, so the result is 512 zeros | Insert(1, 0b101, box) into a new coordinator, then BroadPhase(0b100, box). The result does not contain 1 | the union of the per-layer query results for the selected layers, each identifier once | high; not executed | `Bvh.BVH.BroadPhase` (with `Bvh.BroadPhaseAsWrittenMissesHit`) | `Bvh.BVH.BroadPhaseUnion` (with `Coordinator.CandidateIff`) |

## Left out

- The goroutines, the `errgroup.Group`, the `sync.WaitGroup` and the channel. Each fan-out of `Insert`, `Remove` and `Update` runs as a sequential loop over the layers. This is equivalent because each task touches one layer's tree only and the `errgroup` joins all tasks (`Wait` at bvh/bvh.go:56, 74 and 94) before the call continues. `BroadPhase` joins nothing; see the next line.
- `Bvh.BVH.Dispatch`: assumes each task's closure (bvh/bvh.go:52, 70, 90 and 108) captures its own loop variable `i`, as Go 1.22 and later do. The module's `go.mod` is not part of this model. Under the older rule all closures share one `i`, which may already be 16 when they run, so `bvh.layers[i]` would panic inside a task or reach the wrong layer; the model does not capture that behaviour.
- `Bvh.BVH.BroadPhase` does not model the per-layer query tasks of lines 103-118. Their results go to a channel that is never read, and they change no state. Those tasks are never joined: the `sync.WaitGroup`'s `Wait` runs in a detached goroutine (lines 115-118) and `BroadPhase` returns at line 124 without waiting, so the tasks outlive the call and can still be reading a layer's tree while a later `Insert`, `Remove` or `Update` changes it. A task can also block forever once more than 256 results are sent. The model does not capture these reads racing with later calls, nor the blocking.
- Which per-layer error the joined group reports, and the panic messages built with `fmt.Sprintf`. The model records only the reason for the panic.
- Recovery from a panic. `Coordinator.Run` continues after a `DuplicateNode` or `NonexistentNode` panic as if the caller recovered; those panics change no state. Recovery after a `LayerFailed` panic is not modelled beyond the state returned, which `RunKeepsConsistent` shows is never reached from a consistent state.
- The external tree `github.com/downflux/go-bvh/bvh.T` is not part of this model. Each layer is a map from identifier to box. Its failure cases are assumed to be an insert of a present identifier and a remove or update of an absent one.
- Geometry (`hyperrectangle.R` and the `hnd.R` conversion). The box is an opaque type parameter passed through unchanged. The overlap test of the per-layer query is the parameter `overlaps` of `Bvh.BVH.BroadPhaseUnion`.
- `github.com/downflux/go-bvh/id` is not part of this model. `id.ID` is taken to be an unsigned 64-bit integer, whose zero value is 0.
- The `RO` interface, the options `O` forwarded to each tree, and the capacity hint of the table.
- Concurrent calls on one coordinator. The source has no lock around `lookup`, and every call here is atomic.
