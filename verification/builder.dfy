/**
 * `buildHierarchy`: the nested walk over the flat GitHub items and their path segments, with a
 * `current` cursor into the heap, proved to return the tree `Hierarchy.Build` describes.
 */
module Builder {
  import opened Paths
  import opened Hierarchy
  import opened Heap

  /**
   * The state of the walk of one item part-way through: `current` is reached from the root
   * along `trail`, and walking the segments `rest` from `current` finishes the tree `goal`.
   */
  ghost predicate Walking(heap: seq<HeapNode>, parent: seq<nat>, pos: seq<nat>, trail: seq<nat>,
                          current: Ref, rest: seq<string>, item: Item, goal: FileNode)
  {
    Wf(heap, parent, pos) && current < |heap| && |rest| >= 1 &&
    PathOK(heap, 0, trail, current) &&
    ValidPath(ValueAt(heap, 0), trail) &&
    Replace(ValueAt(heap, 0), trail, Insert(ValueAt(heap, current), rest, item)) == goal
  }

  /** The walk of an item starts at the root with every segment still to consume. */
  lemma StartWalk(heap: seq<HeapNode>, parent: seq<nat>, pos: seq<nat>, parts: seq<string>,
                  item: Item)
    requires Wf(heap, parent, pos) && |parts| >= 1
    ensures Walking(heap, parent, pos, [], 0, parts, item, Insert(ValueAt(heap, 0), parts, item))
  {
  }

  /** A non-final segment that names an existing child moves the cursor to that child. */
  lemma StepInto(heap: seq<HeapNode>, parent: seq<nat>, pos: seq<nat>, trail: seq<nat>,
                 current: Ref, rest: seq<string>, item: Item, goal: FileNode)
    requires Walking(heap, parent, pos, trail, current, rest, item, goal) && |rest| >= 2
    requires FirstIndexOf(NamesAt(heap, Kids(heap[current])), rest[0]) < |Kids(heap[current])|
    ensures var k := FirstIndexOf(NamesAt(heap, Kids(heap[current])), rest[0]);
            Walking(heap, parent, pos, trail + [k], Kids(heap[current])[k], rest[1..], item, goal)
  {
    var ks := Kids(heap[current]);
    var k := FirstIndexOf(NamesAt(heap, ks), rest[0]);
    var v := ValueAt(heap, 0);
    ValueChildren(heap, current);
    PathValue(heap, 0, trail, current);
    PathSnoc(heap, 0, trail, current, k);
    PathValue(heap, 0, trail + [k], ks[k]);
    ReplaceSnoc(v, trail, k, Insert(ValueAt(heap, ks[k]), rest[1..], item));
  }

  /**
   * A non-final segment that names no child pushes a new folder onto `current` and moves the
   * cursor to it.
   */
  lemma StepCreate(heap: seq<HeapNode>, parent: seq<nat>, pos: seq<nat>, trail: seq<nat>,
                   current: Ref, rest: seq<string>, item: Item, goal: FileNode, folder: HeapNode)
    requires Walking(heap, parent, pos, trail, current, rest, item, goal) && |rest| >= 2
    requires FirstIndexOf(NamesAt(heap, Kids(heap[current])), rest[0]) == |Kids(heap[current])|
    requires folder == HeapNode(rest[0], "", 0, Tree, Some([]))
    ensures Wf(Push(heap, current, folder), parent + [current], pos + [|Kids(heap[current])|])
    ensures Walking(Push(heap, current, folder), parent + [current],
                    pos + [|Kids(heap[current])|], trail + [|Kids(heap[current])|], |heap|,
                    rest[1..], item, goal)
  {
    var ks := Kids(heap[current]);
    var m := |ks|;
    var heap' := Push(heap, current, folder);
    PushWf(heap, parent, pos, current, folder);
    var v, v' := ValueAt(heap, 0), ValueAt(heap', 0);
    var a := Append(ValueAt(heap, current), Intermediate(rest[0]));
    var x := Insert(Intermediate(rest[0]), rest[1..], item);
    assert v' == Replace(v, trail, a) by {
      PushValue(heap, parent, pos, 0, trail, current, folder);
    }
    assert PathOK(heap', 0, trail + [m], |heap|) by {
      PathGrow(heap, heap', 0, trail, current);
      assert Kids(heap'[current])[m] == |heap|;
      PathSnoc(heap', 0, trail, current, m);
    }
    assert ValueAt(heap', |heap|) == Intermediate(rest[0]) by {
      ValueChildren(heap', |heap|);
    }
    assert Insert(ValueAt(heap, current), rest, item) == Append(ValueAt(heap, current), x) by {
      ValueChildren(heap, current);
    }
    ReplaceTwice(v, trail, a, ReplaceChild(a, m, x));
    assert ReplaceChild(a, m, x) == Append(ValueAt(heap, current), x) by {
      var cs := ChildrenOf(ValueAt(heap, current));
      ValueChildren(heap, current);
      assert ChildrenOf(a) == cs + [Intermediate(rest[0])] && m == |cs|;
      assert (cs + [Intermediate(rest[0])])[m := x] == cs + [x];
    }
    ReplaceSnoc(v', trail, m, x);
  }

  /** The last segment pushes the item's own node onto `current`, finishing the item. */
  lemma StepLeaf(heap: seq<HeapNode>, parent: seq<nat>, pos: seq<nat>, trail: seq<nat>,
                 current: Ref, rest: seq<string>, item: Item, goal: FileNode, node: HeapNode)
    requires Walking(heap, parent, pos, trail, current, rest, item, goal) && |rest| == 1
    requires node == HeapNode(rest[0], item.path,
                              if item.kind == Blob then item.size.GetOr(0) else 0,
                              item.kind,
                              if item.kind == Tree then Some([]) else None)
    ensures Wf(Push(heap, current, node), parent + [current], pos + [|Kids(heap[current])|])
    ensures ValueAt(Push(heap, current, node), 0) == goal
  {
    PushWf(heap, parent, pos, current, node);
    PushValue(heap, parent, pos, 0, trail, current, node);
    assert Unlinked(node) == Leaf(rest[0], item);
  }

  /** The fields of an object other than its children. */
  function HeaderAt(h: HeapNode): Header {
    Header(h.name, h.path, h.size, h.kind)
  }

  /** `heap'` only allocated objects and appended references: nothing else changed. */
  ghost predicate Grown(heap: seq<HeapNode>, heap': seq<HeapNode>) {
    |heap| <= |heap'| &&
    forall y :: 0 <= y < |heap| ==> HeaderAt(heap'[y]) == HeaderAt(heap[y]) &&
                                    Kids(heap[y]) <= Kids(heap'[y]) &&
                                    (heap[y].children.Some? ==> heap'[y].children.Some?)
  }

  lemma PushGrown(heap0: seq<HeapNode>, heap: seq<HeapNode>, current: Ref, node: HeapNode)
    requires current < |heap| && Grown(heap0, heap)
    ensures Grown(heap0, Push(heap, current, node))
  {
    var heap' := Push(heap, current, node);
    forall y | 0 <= y < |heap0|
      ensures HeaderAt(heap'[y]) == HeaderAt(heap0[y]) && Kids(heap0[y]) <= Kids(heap'[y])
    {
      assert Kids(heap[y]) <= Kids(heap'[y]);
    }
  }

  /**
   * The `forEach` callback for one item `file`: split its path, walk down from the root
   * reusing or creating folders for all but the last segment, and push a new node for the
   * last one. The root's value becomes `Insert(…, Split(file.path), file)`, and the heap only
   * grows: no object's fields change and no reference is removed or reordered.
   */
  method AddFile(heap0: seq<HeapNode>, ghost parent0: seq<nat>, ghost pos0: seq<nat>, file: Item)
    returns (heap: seq<HeapNode>, ghost parent: seq<nat>, ghost pos: seq<nat>)
    requires Wf(heap0, parent0, pos0)
    ensures Wf(heap, parent, pos)
    ensures ValueAt(heap, 0) == Insert(ValueAt(heap0, 0), Split(file.path), file)
    ensures |heap| > |heap0| && Grown(heap0, heap)
  {
    heap, parent, pos := heap0, parent0, pos0;
    var parts := Split(file.path);
    var current: Ref := 0;
    ghost var trail: seq<nat> := [];
    ghost var goal := Insert(ValueAt(heap, 0), parts, file);
    var index := 0;
    StartWalk(heap, parent, pos, parts, file);
    assert parts[index..] == parts;
    while index < |parts|
      invariant 0 <= index <= |parts|
      invariant Wf(heap, parent, pos)
      invariant index < |parts| ==>
                  Walking(heap, parent, pos, trail, current, parts[index..], file, goal)
      invariant index == |parts| ==> ValueAt(heap, 0) == goal && |heap| > |heap0|
      invariant Grown(heap0, heap)
    {
      var part := parts[index];
      if index == |parts| - 1 {
        var node := HeapNode(part, file.path,
                             if file.kind == Blob then file.size.GetOr(0) else 0,
                             file.kind,
                             if file.kind == Tree then Some([]) else None);
        ghost var heap' := Push(heap, current, node);
        assert Wf(heap', parent + [current], pos + [|Kids(heap[current])|]) &&
               ValueAt(heap', 0) == goal && Grown(heap0, heap') by {
          StepLeaf(heap, parent, pos, trail, current, parts[index..], file, goal, node);
          PushGrown(heap0, heap, current, node);
        }
        parent, pos := parent + [current], pos + [|Kids(heap[current])|];
        heap := Push(heap, current, node);
      } else {
        var children := Kids(heap[current]);
        var k := FirstIndexOf(NamesAt(heap, children), part);
        if k < |children| {
          assert Walking(heap, parent, pos, trail + [k], children[k], parts[index + 1..], file, goal) by {
            assert parts[index..][1..] == parts[index + 1..];
            StepInto(heap, parent, pos, trail, current, parts[index..], file, goal);
          }
          current, trail := children[k], trail + [k];
        } else {
          var existing := HeapNode(part, "", 0, Tree, Some([]));
          ghost var heap' := Push(heap, current, existing);
          assert Walking(heap', parent + [current], pos + [|children|], trail + [|children|], |heap|,
                         parts[index + 1..], file, goal) && Grown(heap0, heap') by {
            assert parts[index..][1..] == parts[index + 1..];
            StepCreate(heap, parent, pos, trail, current, parts[index..], file, goal, existing);
            PushGrown(heap0, heap, current, existing);
          }
          parent, pos := parent + [current], pos + [|children|];
          trail := trail + [|children|];
          var ref := |heap|;
          heap := Push(heap, current, existing);
          current := ref;
        }
      }
      index := index + 1;
    }
  }

  /** The heap holding only the root object is a tree whose value is the empty root. */
  lemma FreshRoot(heap: seq<HeapNode>)
    requires heap == [HeapNode("root", "", 0, Tree, Some([]))]
    ensures Wf(heap, [0], [0]) && ValueAt(heap, 0) == EmptyRoot
  {
    ValueChildren(heap, 0);
  }

  /**
   * `buildHierarchy(flatFiles)`: a fresh root, then `AddFile` for every item in order. The
   * tree returned is `Build(flatFiles)`.
   */
  method BuildHierarchy(flatFiles: seq<Item>) returns (root: FileNode)
    ensures root == Build(flatFiles)
  {
    var heap := [HeapNode("root", "", 0, Tree, Some([]))];
    ghost var parent: seq<nat> := [0];
    ghost var pos: seq<nat> := [0];
    FreshRoot(heap);
    assert flatFiles[..0] == [];
    var f := 0;
    while f < |flatFiles|
      invariant 0 <= f <= |flatFiles|
      invariant Wf(heap, parent, pos)
      invariant ValueAt(heap, 0) == Build(flatFiles[..f])
    {
      assert flatFiles[..f + 1][..f] == flatFiles[..f];
      heap, parent, pos := AddFile(heap, parent, pos, flatFiles[f]);
      f := f + 1;
    }
    assert flatFiles[..f] == flatFiles;
    root := ValueAt(heap, 0);
  }
}
