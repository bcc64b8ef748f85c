# Repository city: from a flat file list to buildings

A repository is drawn as a 3D city. GitHub's `git/trees` listing gives a flat list of items,
each with a `/`-separated `path`, a `type` (`blob` for a file, `tree` for a folder) and,
for files, a `size`. `buildHierarchy` turns this list into a rooted tree of `FileNode`
objects. It walks each path from the root with a `current` cursor. For every segment but the
last it reuses the first child of that name or creates a folder. For the last segment it
always appends a new node. `generateCityLayout` hands the tree to a d3 treemap. It then turns
every laid-out `blob` into a building: the rectangle is centred on the 100×100 platform and
the height is computed from the size.

The Dafny model has six modules.

- `Paths`: JavaScript's `split('/')`, with its round trip through joining, and the `??`
  operator as `Option.GetOr`.
- `Hierarchy`: the tree as a value (`FileNode`). `Insert` is the walk of one item and `Build`
  is the fold over all items. The lemmas state what `buildHierarchy` promises about its result.
- `Census`: the nodes of a tree as a list. It proves that every item contributes exactly one
  node carrying its path and kind.
- `Heap`: the JavaScript objects as an arena. A reference is an index into a sequence of
  records. Pushing onto `current.children` updates one record and allocates another. Ghost
  parent links show that the objects form a tree. So a push changes the value reached from the
  root only along the path to `current`.
- `Builder`: `buildHierarchy` itself, as two nested loops over the heap. It is proved to
  return `Build(flatFiles)`. The inner loop is the per-item `forEach` callback `AddFile`.
- `City`: the loop over the laid-out nodes that keeps the blobs and projects them. The d3
  layout is an input: each node's data with the rectangle d3 gave it.

Everything is stated for every input. Empty path segments, repeated paths, folders listed
after their own contents and paths below a file are all modelled as the code handles them.

### Behaviours worth knowing

- Children are looked up by name alone, ignoring `type`. A folder listed after one of its
  descendants becomes a second sibling of the same name (`Hierarchy.FolderAfterDescendant`).
  A path below a file descends into the file's node and gives it children
  (`Hierarchy.FileGainsChildren`).
- A repeated path appends a second node; nothing is overwritten (`Hierarchy.InsertAppendsLeaf`).
- Empty segments (`"a//b"`, a leading or trailing `/`, the empty path) are accepted and become
  nodes with an empty name (`Paths.Split`).
- The height is `(size || 100) / 500`. Only a size of 0 is replaced by 100, so sizes from 1 to
  99 give lower buildings than a size of 0 (`City.Height`).
- Width and depth are `x1 - x0` and `y1 - y0` as d3 gives them. They are at least 0 whenever
  `x0 <= x1` and `y0 <= y1` (`City.Place`).

## Model

| member | source | states |
|---|---|---|
| Paths.Split | my-app/app/utils/processData.ts:30 | `split('/')` gives at least one segment, no segment holds a `/`, and joining the segments with `/` gives back the path |
| Paths.SplitJoin | my-app/app/utils/processData.ts:30 | splitting a join of separator-free segments gives back exactly those segments, empty ones included |
| Hierarchy.FirstIndexOf | my-app/app/utils/processData.ts:49 | `find` by name: the result is the first position holding the name, or the length when no name matches |
| Hierarchy.BuildRoot | my-app/app/utils/processData.ts:27-29 | the result is always the root folder `root`, path '', size 0, type tree, with a children list; for no items that list is empty |
| Hierarchy.InsertKeepsHeader | my-app/app/utils/processData.ts:31-56 | the walk of an item never changes the name, path, size or type of the node it starts from, and leaves it with a children list |
| Hierarchy.InsertDescends | my-app/app/utils/processData.ts:49-55 | a non-final segment reuses the first child of that name whatever its type, changing no other child and not the reused child's fields; only if none matches is one folder `{path '', size 0, type tree, children []}` appended after the old children |
| Hierarchy.InsertAppendsLeaf | my-app/app/utils/processData.ts:35-46 | every item appends exactly one node, at the end of the children of the folder its leading segments lead to; the node's name is the last segment and its path the item's path; a repeated path is appended again |
| Hierarchy.AppendedNode | my-app/app/utils/processData.ts:38-46 | the node an item appends is last among its folder's children, named after the last segment, with the item's path and type; a blob's node has size `size ?? 0` and no children list, a tree's node size 0 and an empty children list |
| Hierarchy.InsertExtends | my-app/app/utils/processData.ts:45-53 | one item only appends: every node keeps its fields and its children list, and every old child keeps its position |
| Hierarchy.BuildExtends | my-app/app/utils/processData.ts:29-58 | the tree for the first `i` items is extended by the tree for all items: children keep their insertion order and no node's fields ever change |
| Hierarchy.FolderAfterDescendant | my-app/app/utils/processData.ts:49-55 | items `a/b` then `a` (a tree) give the root two children named `a`: the created folder with path '' and the listed folder with path `a` |
| Hierarchy.FileGainsChildren | my-app/app/utils/processData.ts:45-55 | items `a` (a blob) then `a/b` descend into the blob, which keeps its size and kind and gains the children list `[b]` |
| Census.InsertCount | my-app/app/utils/processData.ts:33-57 | for a question folders never answer yes (a non-empty path, or type blob), one item adds one matching node if the item matches and none otherwise |
| Census.BuildCount | my-app/app/utils/processData.ts:29-58 | the built tree has exactly as many nodes with a given non-empty path, and as many blob nodes, as there are such items |
| Census.CountPermutation | my-app/app/utils/processData.ts:79 | counting nodes does not depend on the order they are listed in |
| Heap.PushWf | my-app/app/utils/processData.ts:45-46 | pushing a fresh object keeps the objects a tree and links the new object to `current`; `current`'s children gain the new reference at the end, the new object is the one pushed, and every other object is unchanged |
| Heap.PushValue | my-app/app/utils/processData.ts:45-46 | pushing onto `current` changes the value seen from any object above it exactly at `current`'s position, where the new object's value is appended |
| Builder.StepInto | my-app/app/utils/processData.ts:49-55 | moving `current` to the existing child keeps the walk on track: finishing the walk from there yields the same final tree |
| Builder.StepCreate | my-app/app/utils/processData.ts:50-55 | pushing a created folder and moving `current` to it keeps the objects a tree and keeps the walk on track |
| Builder.StepLeaf | my-app/app/utils/processData.ts:38-46 | pushing the leaf finishes the walk: the root's value is the one `Insert` describes |
| Builder.FreshRoot | my-app/app/utils/processData.ts:27 | the heap holding only the root object is a tree whose value is the empty root |
| Builder.AddFile | my-app/app/utils/processData.ts:29-57 | the `forEach` callback for one item turns the root's value into `Insert(root, split(path), item)` and only allocates objects and appends references |
| Builder.BuildHierarchy | my-app/app/utils/processData.ts:26-61 | the returned tree is `Build(flatFiles)` |
| City.Height | my-app/app/utils/processData.ts:89 | the height is 0.2 for size 0, positive for every non-negative size, and in (0, 0.2) exactly for sizes strictly between 0 and 100 |
| City.Place | my-app/app/utils/processData.ts:82-90 | the building carries the node's data unchanged and a height that depends on the size alone; for a rectangle on the 100×100 platform, `x` and `z` lie in [-50, 50], width and depth are at least 0, and the footprint stays on the platform |
| City.PlaceFootprint | my-app/app/utils/processData.ts:84-87 | the projection loses nothing: the building's centre and extents give back the node's rectangle |
| City.Buildings | my-app/app/utils/processData.ts:79-92 | there are at most as many buildings as nodes; every building is for a blob and is the projection of some laid-out node |
| City.BuildingsCount | my-app/app/utils/processData.ts:79-83 | exactly one building per blob node, none for a tree node |
| City.BuildingsOrder | my-app/app/utils/processData.ts:79-92 | the blob at position `j` gets the building right after those of the blobs before it, so the buildings keep the nodes' order |
| City.BuildingsOfHierarchy | my-app/app/utils/processData.ts:77-94 | whatever order the layout lists the nodes of the built tree in, the buildings number exactly the blob items |
| City.GenerateCityLayout | my-app/app/utils/processData.ts:77-94 | the loop that pushes a building for every blob returns `Buildings(layout)` |

## Left out

- d3's `hierarchy`, `treemap`, `paddingOuter`, `paddingInner` and `descendants` calls
  (processData.ts lines 65-74 and 79): a foreign library working in floating point. Its result
  is the `layout` input, one rectangle per node. `City.BuildingsOfHierarchy` only assumes that
  the layout lists every node of the tree once, in some order.
- The `Math.sqrt(d.size || 10)` weight (line 66): floating-point square root inside d3's `sum`.
  It affects only the rectangles, which are an input here.
- Floating point in general: coordinates and heights are exact `real`s, so rounding is not
  modelled.
- Sizes are integers. JavaScript numbers that are fractional or `NaN` are not modelled, and
  neither is `NaN || 100`. `??` is modelled for an absent size, not for `null`.
- The optional `x`, `y`, `z`, `width`, `depth` and `color` fields of a tree node
  (lines 10-15): `buildHierarchy` never sets them. A building is modelled as the node's data
  plus these fields, and `color` is never assigned anywhere in the file.
- Object identity: references are indices into an arena, so aliasing is captured by the
  ghost parent links rather than by Dafny's heap. The returned tree is the value reached from
  the root object.
- The route handlers that proxy the GitHub API and the React and Next.js pages: network I/O,
  authentication and rendering.
