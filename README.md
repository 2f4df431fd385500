# Cuttable mesh: a Dafny model of `mySketch.js`

`mySketch.js` is a p5.js sketch of a mass-spring mesh.
- At setup it builds a square grid of nodes. The outer ring of nodes is pinned.
- It links every two nodes that are close enough, unless both are pinned.
- Every frame, each link pulls its two endpoints together and each free node moves.
- Dragging the mouse cuts the links whose midpoint is within `knifeRange` of the pointer. Each cut link is pushed onto a cut history.
- Holding space, `u` or `U` undoes the most recent cut. So does a frame that comes more than 3000 ms after the last interaction.
- A node is drawn only while some active link touches it.

This project models that mesh. Its modules:

- `Geometry`: points over the reals. Distance tests compare squared distances, so no square root is needed.
- `Nodes`: the `Node` and `Link` records, and one frame of physics:
  - the force pass of `link.update`;
  - the integration step of `node.update`, with the speed clamp left out;
  - the visibility rule of `checkVisibility`.
- `Topology`: the cut/undo/frame state machine as pure functions over the active link list and the history. These carry the properties of the engine: partition, conservation, last-in-first-out undo, and draining by idle frames.
- `Construction`: `createNodes` and `createLinks` as loops, proved against the grid layout and the adjacency they build.
- `Sketch`: the sketch's global state as the class `Mesh`.
  - Its fields are the node array, `active` (`linkArray`), `history` (`cutHistory`) and `lastInteraction` (`lastInteractionTime`).
  - Its methods update them in place. Each is proved to follow the `Topology` and `Nodes` functions.
  - Its invariant `Valid` says that the active and history lists together always hold exactly the links built at setup, each between two distinct nodes of the array.

Links name their endpoints by index into the node array, where the sketch holds references to node objects.

The pointer position, the key state and `millis()` are parameters of `Cut` and `Frame`; times are real-valued milliseconds, as `millis()` returns fractions of a millisecond. The grid size `g` and the canvas size are parameters of the constructor; the sketch fixes them at 100 and 800 by 800.

Three behaviours of the code that are easy to misread, and that the model follows:

- The sketch does not recompute visibility at setup. Every node starts visible, including a node that has no link (a corner). Visibility matches the links only after the first cut or undo, so `Valid` does not include it.
- The order of links is kept. An undone link goes to the end of the active list, which is what the sketch does.
- Nodes are generated row by row with `j` in the outer loop (j-major), so cell (i, j) has index `j*(g+1)+i`.

## Model

| member | source | states |
|---|---|---|
| Geometry.Midpoint | mySketch.js:48 | the midpoint is as far from one end as the other end is from it, and twice it is the sum of the ends |
| Geometry.DistSq | mySketch.js:141-142 | the squared distance is never negative and is zero between a point and itself |
| Nodes.NewNode | mySketch.js:12-17 | a new node sits at (x, y), at rest, with no force, visible, and has the given pinned flag |
| Nodes.Pull | mySketch.js:59-63 | one link's pull is zero on any node other than its endpoints and zero on a pinned node |
| Nodes.NetForce | mySketch.js:59-63 | the force the whole link pass adds to a node is zero when the node is pinned or when no link touches it |
| Nodes.PushedThenPull | mySketch.js:108 | the link pass over `links + [l]` is the pass over `links` followed by `l`'s pull on the nodes as that pass left them |
| Nodes.Step | mySketch.js:25-35 | a pinned node is returned unchanged; a free node's force is cleared, and its new velocity is its displacement times the friction; pinned and visible flags are kept |
| Nodes.Advance | mySketch.js:108-109 | a node after one frame of physics: unchanged if pinned; pinned and visible flags kept |
| Nodes.Moved | mySketch.js:108-109 | one frame of physics keeps the number of nodes and leaves every pinned node unchanged |
| Nodes.AnyIncident | mySketch.js:38-40 | the `some` scan is true exactly when some link has the node as `node1` or `node2` |
| Topology.Kept | mySketch.js:139-147 | the links the cut filter keeps are active links out of the knife's reach, and there are no more of them than active links |
| Topology.Severed | mySketch.js:139-147 | the links the cut filter pushes onto the history are active links within the knife's reach |
| Topology.CutSplits | mySketch.js:139-147 | an active link is kept exactly when its midpoint is farther than `knifeRange` from the pointer, and severed exactly when it is not |
| Topology.CutOfJoin | mySketch.js:139-147 | the filter preserves relative order: cutting `xs + ys` keeps and severs what cutting `xs` and `ys` separately does, joined in that order |
| Topology.KeptOfJoin | mySketch.js:139-147 | the kept links of `xs + ys` are the kept links of `xs` followed by those of `ys` |
| Topology.SeveredOfJoin | mySketch.js:139-147 | the links pushed for `xs + ys` are those pushed for `xs` followed by those pushed for `ys` |
| Topology.KeptSnoc | mySketch.js:139-147 | one more link at the end of the list is kept exactly when the knife does not reach it, after all earlier kept links |
| Topology.SeveredSnoc | mySketch.js:139-147 | one more link at the end of the list is pushed exactly when the knife reaches it, after all earlier pushed links |
| Topology.CutPartitions | mySketch.js:139-147 | kept and severed links together are the active links, each exactly once (multiset equality) |
| Topology.CutStep | mySketch.js:139-147 | a drag leaves the multiset union of the active list and the history unchanged, keeps the old history as a prefix of the new one, and never lengthens the active list |
| Topology.CutOutOfReach | mySketch.js:139-147 | a drag that reaches no link changes neither list |
| Topology.UndoStep | mySketch.js:124-127 | undo keeps the multiset union of both lists, shortens a non-empty history by one, and changes nothing when the history is empty |
| Topology.UndoPops | mySketch.js:124-127 | undo pops the last history entry and appends that same link to the active list |
| Topology.UndoTimesPops | mySketch.js:124-127 | undoing as often as a batch of pushes pops the batch newest first and leaves the history below it |
| Topology.UndoReversesCut | mySketch.js:124-147 | after a drag, one undo per severed link restores the history from before the drag and brings the severed links back, newest first |
| Topology.LastCutFirstUndone | mySketch.js:124-147 | after a drag cuts L1 and a later drag cuts L2, one undo restores L2 and leaves L1 in the history, and a second undo restores L1 |
| Topology.UndoTwice | mySketch.js:124-127 | two undos over a history ending in L1, L2 restore L2 and then L1 |
| Topology.Drained | mySketch.js:124-127 | at least as many undos as history entries empty the history, with every cut link back in reverse order of cutting; any further undo changes nothing |
| Topology.UndoTimesIdle | mySketch.js:125 | any number of undos on an empty history change nothing |
| Topology.UndoTimesAdd | mySketch.js:124-129 | m + n undos are m undos followed by n undos |
| Topology.Reversed | mySketch.js:126 | the reversal has the same length, and its element i is element `n-1-i` of the original, where n is the length |
| Topology.FrameStep | mySketch.js:114-121 | a frame undoes once when the key is held or when more than 3000 ms have passed since the last interaction, and not otherwise; a held key records `now` as the last interaction, and an idle undo does not |
| Topology.FrameUndoesAtMostOnce | mySketch.js:114-121 | a frame creates and loses no link and shortens the history by at most one |
| Topology.IdleFramesUndo | mySketch.js:119-121 | a run of idle frames undoes once per frame and leaves the last-interaction time alone |
| Topology.IdleFramesDrain | mySketch.js:119-121 | once there have been at least as many idle frames as history entries, the history is empty and every cut link is back in reverse order; the last-interaction time is unchanged |
| Construction.CreateNodes | mySketch.js:72-84 | `(g+1)*(g+1)` nodes in j-major order; the node at `j*(g+1)+i` is the one of cell (i, j), placed by `map`, and it is pinned iff `i == 0`, `j == 0`, `i == g` or `j == g` |
| Construction.CreateLinks | mySketch.js:86-100 | every link goes from a node to a later one within `width/g` of it and not both pinned; every such pair is linked; links come in lexicographic order |
| Construction.NoPairTwice | mySketch.js:88-97 | no built link is a self-link, and no unordered pair of nodes appears twice |
| Construction.NeverPinnedToPinned | mySketch.js:95 | no built link joins two pinned nodes |
| Sketch.OrderedParts | mySketch.js:124-147 | lists whose union is the built links hold only links between distinct nodes of the array |
| Sketch.RestoredEndsVisible | mySketch.js:127-128 | once visibility is recomputed after a link is restored, both of its endpoints are visible |
| Sketch.PullOne | mySketch.js:61-62 | one link's pull adds the displacement to a free `node1`, subtracts it from a free `node2`, and leaves every other node unchanged |
| Sketch.PullAll | mySketch.js:59-63 | the two guarded force updates of `link.update` equal adding `Pull` to every node |
| Sketch.Mesh.constructor | mySketch.js:66-70 | setup builds the node grid of `CreateNodes` and the link list of `CreateLinks`, with an empty history, and establishes `Valid` |
| Sketch.Mesh.UpdateVisibility | mySketch.js:131-133 | each node's `visible` becomes whether some active link touches it; nothing else changes |
| Sketch.Mesh.Undo | mySketch.js:124-129 | the lists become `UndoStep` of the old lists, `Valid` is kept, and the time is unchanged. With an empty history the nodes are untouched. Otherwise visibility is recomputed and both ends of the restored link are visible |
| Sketch.Mesh.Cut | mySketch.js:135-150 | the drag records `now` as the last interaction, the lists become `CutStep` of the old lists at the pointer, `Valid` is kept, and visibility is recomputed against the kept links |
| Sketch.Mesh.Sever | mySketch.js:139-147 | the filter loop returns exactly `Kept` and `Severed` of the given links |
| Sketch.Mesh.ApplyPull | mySketch.js:59-63 | one link's `update` adds its `Pull` to every node's force |
| Sketch.Mesh.ApplyLinkForces | mySketch.js:108 | the link pass adds `NetForce` to every node's force |
| Sketch.Mesh.UpdateNodes | mySketch.js:109 | every node becomes its `Step` |
| Sketch.Mesh.Physics | mySketch.js:108-109 | the nodes become `Moved` of the old nodes over the active links |
| Sketch.Mesh.UndoOrIdle | mySketch.js:114-121 | the lists and the time become `FrameStep` of the old ones and `Valid` is kept; nodes are untouched when nothing was undone, and their visibility is recomputed otherwise |
| Sketch.Mesh.Frame | mySketch.js:102-122 | `draw` without drawing: physics, then the undo/idle step. The nodes are `Moved` (and revisited if a cut was undone), every pinned node keeps its position and velocity, and `Valid` is kept |

## Left out

- Rendering and canvas setup (`show`, `background`, `stroke`, `fill`, `rectMode`, `rect`, `line`, `createCanvas`): these only draw and change no state of the mesh.
- Event capture and time: `mouseX`/`mouseY`, `keyIsPressed`/`key` and `millis()` are parameters. `draw` reads `millis()` twice (lines 116 and 119); the model uses one reading per frame.
- Nodes.Step: the speed clamp `vel.limit(speedLimit)` (line 30) is not modelled, because it needs a square root. So the bound "speed at most `speedLimit`" is not stated.
- Floating point: positions, forces and distances are reals, so rounding in `map`, `dist`, `Math.hypot` and the force arithmetic is not modelled.
- Geometry.DistSq: only states that a point is at distance zero from itself, not the converse.
- Sketch.Mesh.Cut: the sketch pushes each severed link onto `cutHistory` while the filter runs. The model computes the kept and the severed lists first and then assigns both. Nothing reads either list in between, so the end state is the same.
- The count of pinned nodes (`4*g`) is not stated. Pinned-ness is stated per cell by `Construction.CreateNodes`.
- Configuration checks: the sketch validates none of its constants. The model only requires `g > 0`, which `map` and `width / gridCount` need.
