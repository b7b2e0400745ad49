# Hierarchy, geometry and focus core of the concept-map renderer

The renderer in `script.js` reads a JSON array of node records. Each record
has an id, an optional group, coordinates, child ids and an optional parent.
The renderer:

- indexes the records (`buildIndexes`);
- sizes the canvas to fit them (`autosize`);
- draws a three-point elbow connector from every node to its parent
  (`drawConnectors`);
- dims everything except a clicked node's ancestors and descendants
  (`focusSubtree`), and clears the dimming on a click elsewhere
  (`clearFocus`).

This project models that core in Dafny. The files are:

- `records.dfy`: the node record. A JSON field that is absent or `null` is
  `None`. `n.x || 0` and `n.children || []` are written out as functions. A
  JavaScript empty string is falsy, which `Truthy` captures.
- `indexer.dfy`: the three maps `buildIndexes` derives, and the `parent`
  field it fills in. Each is defined as a function of the list as it was
  before the call. The lemmas cover:
  - last-record-wins for `nodesById` and `childrenOf`;
  - last-declarer-wins for `parentsOf`;
  - first-declarer-wins for the record's `parent` field;
  - that `buildIndexes` is idempotent.
- `layout.dfy`: the extent arithmetic of `autosize`.
- `routing.dfy`: the edge selection and point arithmetic of
  `drawConnectors`. The loop is modelled as `Route`. It stops with a `Fault`
  where the source throws:
  - the parent id has no record, so `p.x` is read from `undefined`;
  - the group is not a valid class token, so `classList.add` refuses it.
- `focus.dfy`: the kept set of `focusSubtree`, specified by reachability
  along `childrenOf` and strict ancestry along `parentsOf`. It also holds
  the two walks that compute the set, and the two-state click machine.
- `diagram.dfy`: the module-level state as the class `Diagram.Renderer`.
  - Its fields are the node list, the three maps, the box size, the canvas
    extent, the connectors and the classes on node and connector elements.
  - Its methods carry the source's loops: index building, connector drawing,
    focus, defocus, the two click handlers, `render` and loading.
  - Each method is proved against the functions of the other modules.
  - `Valid()` ties the maps to the node list. It also ties the classes on
    the page to the focus state, as the source's two click handlers leave
    them.

Coordinates, the box size and the layer offset are `real`, so
`NODE_WIDTH / 2` is exact. Three values are parameters of the model:

- the box size measured from the first rendered node (`measureNode`);
- the offset between the node layer and the connector surface, which the
  source reads from bounding rectangles;
- whether a document click landed inside the info panel.

## Model

| member | source | states |
|---|---|---|
| Records.X | script.js:45 | the coordinate `x`, or 0 when it is absent |
| Records.Y | script.js:46 | the coordinate `y`, or 0 when it is absent |
| Records.ChildList | script.js:30 | the child ids, or none when the field is absent |
| Records.Truthy | script.js:98 | a string is truthy exactly when it is not empty, as `if (!parentId)` and `if (p)` test it |
| Indexer.ChildrenOf | script.js:30 | definition: one entry per record in list order, a later record overwriting an earlier one with the same id; characterised by ChildrenOfLast |
| Indexer.Declare | script.js:34-35 | definition: the inner `forEach`, one `set(cid, n.id)` per listed child in order; characterised by DeclareSets |
| Indexer.ParentsOf | script.js:31-35 | definition: the outer `forEach` applying `Declare` record by record from an empty map; characterised by ParentsOfLastDeclarer |
| Indexer.FirstDeclarer | script.js:36-37 | definition: the id of the earliest record listing the child; characterised by FirstDeclarerIsFirst |
| Indexer.AdoptOne | script.js:36-37 | definition: a record takes the first declarer only if `nodesById` keeps it and its `parent` is null; characterised by AdoptOnlyFillsNullParent |
| Indexer.NodesById | script.js:29 | every id of the list is a key, and every value is a position in the list |
| Indexer.NodesByIdNames | script.js:29 | the record `nodesById` keeps for an id carries that id |
| Indexer.NodesByIdLast | script.js:29 | an id is a key exactly when some record carries it, and no later record carries it (the last duplicate wins) |
| Indexer.ChildrenOfLast | script.js:29-30 | `childrenOf` has exactly the keys of `nodesById`; each maps to the children of the record `nodesById` keeps for it, or to `[]` when that record has none |
| Indexer.ChildrenOfUnique | script.js:29-30 | with unique ids, record k is the one `nodesById` keeps, and `childrenOf` maps its id to its own children |
| Indexer.DeclareSets | script.js:34-35 | the inner loop maps each listed child to the declaring id, keeps every other entry and adds no other key |
| Indexer.ParentsOfLastDeclarer | script.js:31-35 | `parentsOf` has an entry exactly for the ids listed as someone's child, and it is the id of the last record in list order that lists it |
| Indexer.FirstDeclarerIsFirst | script.js:33-37 | the first declarer is the id of the first record in list order that lists the child, and there is none when no record lists it |
| Indexer.Adopt | script.js:33-39 | one record out per record in |
| Indexer.AdoptOnlyFillsNullParent | script.js:36-37 | only `parent` may change; an explicit `parent` is never overwritten; a record hidden by a later duplicate id is never touched; the record `nodesById` keeps, if its `parent` was null, gets the first declarer |
| Indexer.AdoptSameShape | script.js:36-37 | filling in `parent` keeps every id and child list |
| Indexer.SameShapeSameIndexes | script.js:28-40 | the three maps and the first declarers depend only on the ids and child lists, position by position |
| Indexer.BuildIndexesIdempotent | script.js:28-40 | indexing the output again gives the same three maps and changes no record |
| Layout.MaxOrZero | script.js:47-48 | `Math.max(0, ...xs)` is at least 0 and every value, and it is 0 or one of the values |
| Layout.MissingIsZero | script.js:45-46 | a missing `x` or `y` gives the same extent as an explicit 0, so the source's fallback to 0 reads absence as 0 |
| Layout.CanvasExtent | script.js:43-48 | each axis of the extent is at least the 200 pad |
| Layout.CanvasExtentTight | script.js:43-48 | every node's corner plus the pad fits inside the extent, and each axis is the bare pad or is reached by some node |
| Layout.ExtentExamples | script.js:44-48 | nodes at (0,0) and (300,150) give 500 by 350; an empty list gives 200 by 200 |
| Routing.Elbow | script.js:103-111 | three points: the parent box's bottom centre, then the corner with the child's x and the parent's bottom y, then the child box's top centre |
| Routing.ElbowShape | script.js:103-111 | the first leg is horizontal at the parent's bottom edge and the second is vertical on the child's centre line; with equal x the elbow is one vertical line |
| Routing.ElbowExample | script.js:103-111 | parent (0,0), child (100,100), box 200 by 60, zero offset give (100,60) (200,60) (200,100) |
| Routing.ResolveParent | script.js:97-98 | a resolved parent id is never empty |
| Routing.ValidToken | script.js:109 | definition: a class token `classList.add` accepts is non-empty and has no ASCII whitespace |
| Routing.EdgeFor | script.js:97-116 | definition: one iteration of the loop, giving no edge for a root, a fault for a dangling parent or a bad group, else the connector; characterised by RouteEdges and RouteStopsAtFirstFault |
| Routing.Route | script.js:96-119 | definition: the loop over the first n records, stopping at the first fault; characterised by RouteRunsThrough, RouteEdges, RouteStopsAtFirstFault and RouteFaultPersists |
| Routing.NonRoots | script.js:96-98 | exactly the positions, in increasing order, of the records with a resolved parent |
| Routing.RouteRunsThrough | script.js:96-119 | the loop finishes exactly when no record meets a missing parent record or an invalid group token |
| Routing.RouteEdges | script.js:96-119 | a finished loop draws one connector per record with a parent, in list order, carrying parent id, child id, child group and the elbow between the two boxes, and none for roots |
| Routing.RouteStopsAtFirstFault | script.js:96-119 | a loop that throws does so at the first faulty record, with that record's fault, keeping the connectors drawn before it |
| Routing.RouteFaultPersists | script.js:96-119 | after a throw, later records change nothing |
| Routing.TwoNodeTree | script.js:96-119 | indexing and routing P -> C yields the single connector P to C with points (100,60) (200,60) (200,100) |
| Focus.Descend | script.js:125-128 | the `down` walk keeps exactly the ids reachable from the root along `childrenOf`, the root included |
| Focus.Ascend | script.js:129-132 | the `up` walk adds exactly the strict ancestors of the root along `parentsOf`, stopping at an absent or empty parent |
| Focus.UpSteps | script.js:129-132 | definition: `parentsOf` as upward steps, an empty parent id giving no step as `if (p)` does |
| Focus.StrictAncestor | script.js:129-132 | definition: reached from the root by one or more upward steps; Ascend is proved to add exactly these |
| Focus.InFocus | script.js:124-132 | definition: the kept set, reached downward from the root or a strict ancestor of it; Descend and Ascend are proved to compute it |
| Focus.Step | script.js:79-83 | definition: a node click focuses that node; a document click outside the panel returns to idle, inside it changes nothing; characterised by RunFocused |
| Focus.Run | script.js:167-169 | definition: the state after a sequence of clicks; characterised by RunFocused |
| Focus.RootInFocus | script.js:124-128 | the clicked node is always kept |
| Focus.ChainChildren | script.js:30 | the chain A -> B -> C has `childrenOf` A:[B], B:[C], C:[] |
| Focus.ChainParents | script.js:31-35 | the chain A -> B -> C has `parentsOf` B:A, C:B |
| Focus.ChainFocusWithin | script.js:123-132 | on the chain, only A, B and C can be kept |
| Focus.ChainFocusCovers | script.js:123-132 | on the chain, A, B and C are all kept whichever of them is clicked |
| Focus.ChainFocus | script.js:123-132 | on the chain, clicking A, B or C keeps exactly {A, B, C} |
| Focus.LoneRootFocus | script.js:123-132 | a lone childless root keeps only itself |
| Focus.RunFocused | script.js:167-169 | from the initial state, a node is focused exactly when it was the last node clicked and every later document click was inside the info panel |
| Diagram.Renderer.Displays | script.js:134-143 | definition: the classes on the page for a focus state: none when idle; when focused, a node dimmed iff not kept and active iff it is the root, a connector dimmed unless both ends are kept |
| Diagram.Renderer.constructor | script.js:20-25 | the empty state: no records, no connectors, box 200 by 60, nothing focused |
| Diagram.IndexRecords | script.js:29-30 | the two `new Map` passes compute `NodesById` and `ChildrenOf` |
| Diagram.LinkParents | script.js:31-39 | the nested loop computes `ParentsOf`, and the records become `Adopt` of the list |
| Diagram.Renderer.BuildIndexes | script.js:28-40 | the maps become those of the old list, the records get their `parent` filled in, and the state is indexed again for the new list |
| Diagram.Renderer.DrawConnectors | script.js:88-119 | the connector list becomes the edges of `Route` and the fault is `Route`'s; no connector is dimmed |
| Diagram.Renderer.FocusSubtree | script.js:123-144 | the state becomes focused on the root: a node is dimmed exactly when not kept, active exactly when it is the root; a connector is dimmed unless both ends are kept |
| Diagram.Renderer.ClearFocus | script.js:146-153 | no node dimmed or active, no connector dimmed |
| Diagram.Renderer.NodeClick | script.js:79-83 | the page shows the state the machine steps to on a click on that node |
| Diagram.Renderer.DocumentClick | script.js:167-169 | outside the info panel focus is cleared; inside it nothing changes |
| Diagram.Renderer.ShowNodes | script.js:175-190 | fresh node elements without classes; the box becomes the measured size if a node exists; the extent is `CanvasExtent` of the records |
| Diagram.Renderer.Render | script.js:172-192 | records adopted, maps rebuilt, nothing focused, extent and connectors as the model functions give them |
| Diagram.Renderer.Load | script.js:204-215 | the new list replaces the old one and is rendered: records adopted, nothing focused, the box measured if a node exists, extent and connectors as the model functions give them |
| Diagram.ExtentOfAdopted | script.js:172-190 | filling in `parent` fields does not change the canvas extent |

## Left out

- `extract-svg.js`: a command-line preprocessor that produces the input
  format. It is file I/O and library plumbing, and it is not part of this
  model.
- DOM construction and text: `$`/`$all`, `makeNodeEl`'s markup and labels,
  `showInfo` and the info panel's close button. Each node element is reduced
  to its two classes, and each polyline to its ids, group and points.
- The attribute and style writes of `autosize`, `drawConnectors` and the
  repositioning loop in `render`. Only the numbers they write are modelled.
- `measureNode` and the offset computation read the browser's bounding
  rectangles. They are parameters (`sample`, `off`).
- `highlightPath`, the hover hook, is a no-op stub.
- Data loading: `fetch`, the file input, `JSON.parse` and the not-an-array
  guard. `Load` starts from a list that is already parsed, and the
  `loadDefault` fallback to an empty list is `Load([])`.
- JSON values of the wrong type are not modelled: a string coordinate, a
  non-array `children`, or a NaN.
- `Focus.Descend`: it uses a visited set and the source does not. The two
  agree whenever the source's recursion ends, which is on acyclic child
  lists. On a cycle the source overflows its stack; the model stops.
- `Focus.Ascend`: it stops when the parent chain returns to an id it has
  already added. It agrees with the source whenever the source's loop ends,
  which is on acyclic input.
- Floating point: coordinate sums are exact `real` values here but IEEE-754
  doubles in the source, so rounding (of `offsetX + (p.x || 0) +
  NODE_WIDTH / 2`, for instance) is not modelled.
- Object identity: a record is named by its position in the list, so two
  list entries that are the same JavaScript object are not modelled.

On these points the code behaves in ways a reader might not expect, and the
model follows it:

- `parentsOf` takes the LAST declaring parent.
  - The explicit `parent` field does not affect it.
  - Only the record's own `parent` field takes the first declarer, and only
    when that field was null.
- A parent id that has no record, and a group that is not a valid class
  token, end `drawConnectors` with an exception (`Fault`). They are not
  skipped, and the connectors drawn before them remain.
- An empty `parent` or `parentsOf` value is falsy, so it counts as no
  parent.
