# TubeClipper near/far decision, in Dafny

TubeClipper cuts a tube-shaped mesh with a plane. It keeps a per-point `Side` label on the
clipped mesh: `true` marks a point on the far side of the cut, `false` a point on the near
side. A plane usually crosses a tube several times. `TubeClipper.clip` therefore decides
which of the resulting pieces lie on the near side of the *nearest* crossing only. It then
writes that decision onto the mesh points.

This project models that decision procedure and the session label array, with the geometry
treated as given reports:

- **Numbering** (`numbering.dfy`): the bodies of raw side 0, then those of raw side 1, are
  numbered by one counter, so a body's id is its index in `sections`.
- **Anchors** (`anchors.dfy`): on each raw side, `np.argmin` over the bodies' least distances
  to the origin picks `root` (side 0) and `nearest_far_side` (side 1).
- **Adjacency** (`adjacency.dfy`): two nested loops test every pair `i < j` and keep the
  pair when merging the two sections splits back into a single body.
- **Graph** (`graph.dfy`): a `networkx.Graph` as a class whose node list and edge set
  `add_edge` and `remove_node` update. Nodes exist only through edges.
- **Connectivity** (`connectivity.dfy`): `nx.connected_components` as a closure computation
  (the least set closed under edges), shown equal to reachability by walks. The loop that
  finds `near_side` is also here.
- **Resolver** (`resolver.dfy`): the whole cut. Remove `nearest_far_side` from the graph.
  The near ids are the component of `root`. The far ids are `nearest_far_side` followed by
  every other component. Each place where `clip` raises becomes an error value.
- **Labels** (`labels.dfy`): `side_arr` (near falses, then far trues) indexed by the
  nearest-neighbour map, the uniform labels of a one-sided cut, and the pointwise AND.
- **Session** (`session.dfy`): the `TubeClipper` class holding `side: array<bool>`. It starts
  all far, is ANDed with each clip's labels, and `_update` resets it before clipping.

The geometry is supplied as a `Geometry` value:
- the cell counts of the naive clip;
- each body's least distance to the origin;
- the merge-split body count of each pair of sections;
- the point count of a merged, cleaned near or far region;
- the KD-tree answer for each mesh point.

Three consequences of `clip` as written are easy to miss, and the model states them:

- Only graph nodes reach the far list. A section becomes a node only through `add_edge`
  (line 72), so a section that passes the adjacency test with no other section is in
  neither the near nor the far list (`Resolver.ResolvedPartition`).
- When `root` has no edge at all, it is not a node of the cut graph. The loop at lines 78-80
  then never sets `near_side`, and line 83 fails (`Resolver.ResolveCutErrors`).
- When the plane leaves cells on raw side 0 only, every point is labelled near (line 147)
  and the AND makes the whole session near. Only when it leaves cells on raw side 1 only
  are the labels unchanged (`Session.ClipLabels`, `Labels.ConjZero`, `Labels.ConjUnit`).

## Model

| member | source | states |
|---|---|---|
| Numbering.Sections | tubeclipper/tubeclipper.py:39-50 | the section list has one body per raw-side body, `|dists0| + |dists1|` in all; `SectionsNumbered` gives its contents |
| Numbering.NumberBodies | tubeclipper/tubeclipper.py:39-50 | the two numbering loops return exactly the section list `Sections(dists0, dists1)` |
| Numbering.NumberedAt | tubeclipper/tubeclipper.py:41-49 | the k-th body tagged by a loop has the loop's side, id `start + k`, and its own distance |
| Numbering.SectionsNumbered | tubeclipper/tubeclipper.py:39-50 | every section's id is its index; the first `|dists0|` sections are the side-0 bodies in order, the rest the side-1 bodies, each with its distance |
| Numbering.SideZeroFirst | tubeclipper/tubeclipper.py:39-50 | every side-0 id is below every side-1 id |
| Anchors.OnSide | tubeclipper/tubeclipper.py:53 | the filter keeps only sections of the requested side |
| Anchors.OnSideExact | tubeclipper/tubeclipper.py:53 | a body is kept exactly when it is a section of the requested side |
| Anchors.FirstArgMin | tubeclipper/tubeclipper.py:55 | `np.argmin`: an index in range whose value is at most every value and strictly below every earlier one, i.e. the first minimum |
| Anchors.Anchor | tubeclipper/tubeclipper.py:53-59 | there is no anchor (np.argmin of an empty list raises) exactly when the filtered list of that side is empty; `AnchorIsLeast` states which body is chosen |
| Anchors.AnchorIsLeast | tubeclipper/tubeclipper.py:53-59 | a side has no anchor exactly when no section is on it; otherwise the anchor is the id of a section of that side whose least distance to the origin is at most that of every section of that side |
| Anchors.AnchorsApart | tubeclipper/tubeclipper.py:53-59 | in a list where ids are indices, `root` and `nearest_far_side` are distinct indices of the list |
| Anchors.AnchorsOfSections | tubeclipper/tubeclipper.py:53-59 | a side has an anchor exactly when it has bodies; `root` is the first side-0 body of least distance, `nearest_far_side` is `|dists0|` plus the first side-1 body of least distance |
| Anchors.RootBeforeNearestFar | tubeclipper/tubeclipper.py:53-59 | with bodies on both sides, `root < nearest_far_side` |
| Adjacency.RowsBeforeMembers | tubeclipper/tubeclipper.py:63-67 | after the first `i` outer iterations, `adj` holds exactly the passing pairs whose first element is below `i`, in loop order |
| Adjacency.EdgeList | tubeclipper/tubeclipper.py:62-67 | a pair is in `adj` exactly when `i < j < n` and the merge test on sections i and j passes |
| Adjacency.EdgeListExact | tubeclipper/tubeclipper.py:62-67 | the pairs of `adj` are in lexicographic order and none repeats |
| Adjacency.AdjacencyPairs | tubeclipper/tubeclipper.py:62-67 | the nested loops build exactly `EdgeList(merged, n)` |
| Graphs.Keep | tubeclipper/tubeclipper.py:76 | the nodes of a list that lie in a component, in list order |
| Graphs.Drop | tubeclipper/tubeclipper.py:75 | the nodes of a list outside a set, in list order |
| Graphs.KeepDistinct | tubeclipper/tubeclipper.py:76 | filtering a list without repeats yields a list without repeats |
| Graphs.DropDistinct | tubeclipper/tubeclipper.py:75 | likewise for removal |
| Graphs.AddNode | tubeclipper/tubeclipper.py:72 | `add_edge` adds an endpoint exactly when it is new |
| Graphs.NodesOf | tubeclipper/tubeclipper.py:70-72 | `add_edge` on each pair adds at most two nodes, so there are at most `2 * |adj|`; `NodesOfExact` states which nodes |
| Graphs.NodesOfExact | tubeclipper/tubeclipper.py:70-72 | the graph's nodes are exactly the endpoints of `adj`, each listed once |
| Graphs.Graph.constructor | tubeclipper/tubeclipper.py:70 | `nx.Graph()` has no nodes and no edges |
| Graphs.Graph.AddEdge | tubeclipper/tubeclipper.py:72 | appends each new endpoint and adds the edge |
| Graphs.Graph.RemoveNode | tubeclipper/tubeclipper.py:75 | succeeds exactly when the node exists; then deletes it and its incident edges and nothing else; otherwise changes nothing |
| Graphs.BuildGraph | tubeclipper/tubeclipper.py:70-72 | the graph built from `adj` has node list `NodesOf(adj)` and edge set the pairs of `adj` |
| Connectivity.Closure | tubeclipper/tubeclipper.py:76 | the component grown from a set contains it, stays within the nodes, and no edge leaves it |
| Connectivity.ClosureLeast | tubeclipper/tubeclipper.py:76 | it lies inside every closed set that contains the seed |
| Connectivity.ComplementClosed | tubeclipper/tubeclipper.py:76 | in an undirected graph the nodes outside a closed set are closed too |
| Connectivity.SameComponent | tubeclipper/tubeclipper.py:76 | growing from any member of a component gives the same component |
| Connectivity.WalkStaysInside | tubeclipper/tubeclipper.py:76 | a walk that starts in a closed set stays inside it |
| Connectivity.ClosureIsReachable | tubeclipper/tubeclipper.py:76 | a node is in the component of `s` exactly when some walk leads from `s` to it |
| Connectivity.Components | tubeclipper/tubeclipper.py:76 | every node of a listed component comes from the node list |
| Connectivity.ComponentsCover | tubeclipper/tubeclipper.py:76 | every node lies in some component |
| Connectivity.ComponentsDisjoint | tubeclipper/tubeclipper.py:76 | no node lies in two components |
| Connectivity.ComponentsDistinct | tubeclipper/tubeclipper.py:76 | no component lists a node twice |
| Connectivity.ComponentsPartition | tubeclipper/tubeclipper.py:76 | the components partition the node list |
| Connectivity.ComponentsAreClosures | tubeclipper/tubeclipper.py:76 | each component is exactly the component grown from any of its members |
| Connectivity.LastContaining | tubeclipper/tubeclipper.py:78-80 | none exactly when no component holds `root`; otherwise the last index whose component holds it |
| Connectivity.FindNearSide | tubeclipper/tubeclipper.py:78-80 | the loop leaves `near_side` as `LastContaining(comps, root)` |
| Resolver.ResidualComponents | tubeclipper/tubeclipper.py:75-76 | the components of the cut graph list only nodes of the graph and never `nearest_far_side` |
| Resolver.Flatten | tubeclipper/tubeclipper.py:89 | an id is in the flattened list exactly when it is in one of the lists |
| Resolver.Others | tubeclipper/tubeclipper.py:87 | the component lists other than `near_side`, in order |
| Resolver.FlattenDistinct | tubeclipper/tubeclipper.py:89 | flattening lists that repeat nothing and share nothing repeats nothing |
| Resolver.FarIds | tubeclipper/tubeclipper.py:84-89 | the far list starts with `nearest_far_side`, and is only that when there is a single component |
| Resolver.FarMembers | tubeclipper/tubeclipper.py:84-89 | an id is in the far list exactly when it is `nearest_far_side` or a node of a component other than `near_side` |
| Resolver.FarDistinct | tubeclipper/tubeclipper.py:84-89 | the far list repeats no id |
| Resolver.Cut | tubeclipper/tubeclipper.py:75-89 | the graph stage fails only at `remove_node` (`NotANode`) or at line 83 (`NearSideUnbound`); on success `root` is near and the far list starts with `nearest_far_side` |
| Resolver.Resolve | tubeclipper/tubeclipper.py:53-89 | a success needs bodies on both raw sides, puts `root` in the near list and starts the far list with `nearest_far_side`, so neither list is empty |
| Resolver.NodeIffNeighbour | tubeclipper/tubeclipper.py:62-72 | a section is a graph node exactly when some other section passes the adjacency test with it |
| Resolver.CutErrors | tubeclipper/tubeclipper.py:75-83 | the cut fails at `remove_node` exactly when `nearest_far_side` is not a node, and fails at `near_side` exactly when `root` is not a node |
| Resolver.AdjacencyCutErrors | tubeclipper/tubeclipper.py:62-83 | the same, stated through the adjacency test |
| Resolver.ResolveNoBodies | tubeclipper/tubeclipper.py:53-59 | the clip fails on side 0 exactly when side 0 has no bodies, else on side 1 exactly when side 1 has none |
| Resolver.ResolveCutErrors | tubeclipper/tubeclipper.py:62-83 | with both anchors, the clip fails with `NotANode` exactly when `nearest_far_side` has no neighbour, with `NearSideUnbound` exactly when it has one and `root` has none, and succeeds exactly when both have one |
| Resolver.CutNear | tubeclipper/tubeclipper.py:75-83 | the near list holds `root` and exactly the nodes a walk from `root` reaches once `nearest_far_side` is removed |
| Resolver.SplitAt | tubeclipper/tubeclipper.py:83-89 | the near and far lists share no id and together hold the residual nodes and `nearest_far_side` |
| Resolver.CutCovers | tubeclipper/tubeclipper.py:75-89 | the far list starts with `nearest_far_side`; near and far are disjoint and together are exactly the graph's nodes |
| Resolver.CutDistinct | tubeclipper/tubeclipper.py:83-89 | neither list repeats an id |
| Resolver.ResolvedPartition | tubeclipper/tubeclipper.py:62-89 | a successful resolution: far starts with `nearest_far_side`, near is exactly what `root` reaches in the cut graph, the lists are disjoint and without repeats, and together they are exactly the sections that pass the adjacency test with some section |
| Resolver.CutOneEdge | tubeclipper/tubeclipper.py:70-89 | cutting the one-edge graph `0 - 1` at 1 from 0 gives near `[0]`, far `[1]` |
| Resolver.SingleCrossing | tubeclipper/tubeclipper.py:39-89 | one body on each side, touching: near `[root]`, far `[nearest_far_side]` |
| Resolver.NearFar | tubeclipper/tubeclipper.py:39-89 | the imperative steps (numbering, anchors, adjacency loops, graph, `remove_node`, components, `near_side` loop, far ids) compute exactly `Resolve` |
| Labels.SideArr | tubeclipper/tubeclipper.py:134-139 | the concatenation of `nNear` falses and `nFar` trues has `nNear + nFar` entries, entry i `true` exactly when `i >= nNear` |
| Labels.Project | tubeclipper/tubeclipper.py:143 | `side_arr[ndx]` has one label per mesh point |
| Labels.ProjectFar | tubeclipper/tubeclipper.py:133-143 | a mesh point is labelled far exactly when its nearest union index is at least `nNear` |
| Labels.Fallback | tubeclipper/tubeclipper.py:145-149 | no labels exactly when neither raw side has cells; otherwise one label per point, far exactly when raw side 0 has no cells |
| Labels.Conj | tubeclipper/tubeclipper.py:158-161 | `np.logical_and` keeps the common length |
| Labels.ConjMeet | tubeclipper/tubeclipper.py:158-161 | after the AND the far points are the intersection of both inputs' far points; a near point stays near |
| Labels.ConjUnit | tubeclipper/tubeclipper.py:18 | all-far is the unit of the AND: the first clip after creation or reset yields its own labels, and an all-far clip changes nothing |
| Labels.ConjZero | tubeclipper/tubeclipper.py:145-147 | an all-near clip makes every point near |
| Labels.Accumulate | tubeclipper/tubeclipper.py:158-161 | a series of clips keeps the array length |
| Labels.AccumulateFar | tubeclipper/tubeclipper.py:158-161 | after any series of clips a point is far exactly when it started far and every clip labelled it far, so the far points only shrink |
| Session.Projected | tubeclipper/tubeclipper.py:133-143 | one label per mesh point, far exactly when the KD-tree answer for that point is at least the near region's point count |
| Session.ClipLabels | tubeclipper/tubeclipper.py:35-149 | one label per mesh point on success; fails with `NoCells` exactly when neither side has cells; all near when only raw side 0 has cells, all far when only raw side 1 does; with cells on both sides, a resolution error is the clip's error, and after a successful resolution a point is far exactly when its KD-tree answer is at least the near region's point count |
| Session.ClipFails | tubeclipper/tubeclipper.py:35-89 | with cells on both raw sides, a failed resolution makes the clip fail with the same error |
| Session.ClipSucceeds | tubeclipper/tubeclipper.py:35-143 | with cells on both raw sides, a resolution into near and far lists (the near list non-empty) makes the clip's labels the projection of those lists onto the mesh points |
| Session.SideArray | tubeclipper/tubeclipper.py:35-149 | the branch and fallback of `clip` compute exactly `ClipLabels` |
| Session.TubeClipper.constructor | tubeclipper/tubeclipper.py:18 | the `Side` array starts with every point far |
| Session.TubeClipper.Reset | tubeclipper/tubeclipper.py:193 | every point far again |
| Session.TubeClipper.AndIn | tubeclipper/tubeclipper.py:158-161 | the array becomes the pointwise AND of its old value and the clip's labels |
| Session.TubeClipper.Clip | tubeclipper/tubeclipper.py:20-163 | on success the array is ANDed with `ClipLabels`; on an error it is returned and the array is unchanged |
| Session.TubeClipper.Update | tubeclipper/tubeclipper.py:190-194 | after reset and clip the array holds exactly the clip's labels, or all far when the clip fails |

## Left out

- pyvista geometry (`mesh.clip`, `clean`, `split_bodies`, `merge`, `pv.PolyData`, `extract_surface`, `extract_points`) is not modelled. Its results are fields of `Session.Geometry`: cell counts, per-body distances, the pair merge test and region point counts.
- Euclidean distances and the KD-tree queries are floating-point numerics in numpy/scipy. Distances are given as `real` values that are only compared. The KD-tree answer for each mesh point is a given function. `Session.Sound` states what the model relies on: a non-empty region has points, and a query answers an index of the union.
- Building the near and far meshes is not modelled (lines 91-131): indexing `sections`, merging, cleaning, copying point arrays, and the `near_side`/`far_side` attributes. Only their point counts enter the model. The same goes for the attributes set and cleaned in the fallback branch (lines 150-156).
- The order of nodes inside one component is not modelled. networkx lists a component's nodes in an order it derives from the component set, which the model does not follow; the model lists them in graph order. This changes only the order inside the near and far lists, never their members.
- `Session.TubeClipper.Reset`, `Session.TubeClipper.AndIn`: the Python code binds a fresh numpy array to `Side` each time, while the model overwrites the one array in place. Nothing else holds the old array, so the labels are the same.
- Errors are returned as values. In the Python code they are exceptions that propagate out of `clip`.
- The `print` calls, `_plane_clipping_cb`, the plotting part of `_update` (lines 195-214) and `interact` are user-interface code and are not modelled.
- The example scripts only read a mesh file and call the class; they are not modelled.
