/**
 * The JavaScript objects `buildHierarchy` allocates and mutates, as an arena: the heap is a
 * sequence of node records and a reference is an index into it. A record's `children` holds
 * references, so pushing onto `current.children` updates one record and allocates another.
 * Ghost parent links show that the objects form a tree, so that the value reached from the
 * root (`ValueAt`) changes only along the path to the node that was pushed onto.
 */
module Heap {
  import opened Paths
  import opened Hierarchy

  /** A reference to a heap object: its index in the heap. */
  type Ref = nat

  /** A `FileNode` object; `children` is `None` while the object has no `children` array. */
  datatype HeapNode = HeapNode(name: string, path: string, size: int, kind: Kind,
                               children: Option<seq<Ref>>)

  function Kids(h: HeapNode): seq<Ref> {
    h.children.GetOr([])
  }

  /** Every child reference points to an object allocated after its parent. */
  ghost predicate Ordered(heap: seq<HeapNode>) {
    forall i, j :: 0 <= i < |heap| && 0 <= j < |Kids(heap[i])| ==> i < Kids(heap[i])[j] < |heap|
  }

  /**
   * `parent[m]` and `pos[m]` say where object `m` is referenced from; as every reference is
   * recorded, no object is referenced twice.
   */
  ghost predicate Linked(heap: seq<HeapNode>, parent: seq<nat>, pos: seq<nat>)
    requires Ordered(heap)
  {
    |parent| == |heap| && |pos| == |heap| &&
    Below(parent) &&
    forall i, j :: 0 <= i < |heap| && 0 <= j < |Kids(heap[i])| ==>
      parent[Kids(heap[i])[j]] == i && pos[Kids(heap[i])[j]] == j
  }

  ghost predicate Below(parent: seq<nat>) {
    forall m :: 0 < m < |parent| ==> parent[m] < m
  }

  /** The heap holds the root, object 0, and the objects form a tree below it. */
  ghost predicate Wf(heap: seq<HeapNode>, parent: seq<nat>, pos: seq<nat>) {
    |heap| >= 1 && Ordered(heap) && Linked(heap, parent, pos)
  }

  /** The tree value of object `r`: what JSON serialisation of `r` would show. */
  function ValueAt(heap: seq<HeapNode>, r: Ref): FileNode
    requires Ordered(heap) && r < |heap|
    decreases |heap| - r
  {
    var h := heap[r];
    FileNode(h.name, h.path, h.size, h.kind,
             match h.children
             case None => Absent
             case Some(ks) =>
               assert ks == Kids(heap[r]);
               Present(seq(|ks|, j requires 0 <= j < |ks| => ValueAt(heap, ks[j]))))
  }

  /** The value of a just-allocated object, which references nothing. */
  function Unlinked(h: HeapNode): FileNode {
    FileNode(h.name, h.path, h.size, h.kind, if h.children.Some? then Present([]) else Absent)
  }

  /**
   * `if (!current.children) current.children = []; current.children.push(node)`: the new
   * object `node` is allocated at the end of the heap and referenced from `current`.
   */
  function Push(heap: seq<HeapNode>, current: Ref, node: HeapNode): seq<HeapNode>
    requires current < |heap|
  {
    heap[current := heap[current].(children := Some(Kids(heap[current]) + [|heap|]))] + [node]
  }

  /** The names of the referenced objects, in order (what `find` by name looks at). */
  function NamesAt(heap: seq<HeapNode>, ks: seq<Ref>): (names: seq<string>)
    requires forall j :: 0 <= j < |ks| ==> ks[j] < |heap|
    ensures |names| == |ks|
  {
    seq(|ks|, j requires 0 <= j < |ks| => heap[ks[j]].name)
  }

  // ---------------------------------------------------------------------------------------
  // Ancestors
  // ---------------------------------------------------------------------------------------

  /** Object `m` lies on the chain of parents from `c` up to the root. */
  ghost predicate Anc(parent: seq<nat>, c: nat, m: nat)
    requires Below(parent) && c < |parent|
    decreases c
  {
    c == m || (0 < c && Anc(parent, parent[c], m))
  }

  lemma {:induction false} AncBelow(parent: seq<nat>, c: nat, m: nat)
    requires Below(parent) && c < |parent|
    requires Anc(parent, c, m)
    ensures m <= c
    decreases c
  {
    if c != m {
      AncBelow(parent, parent[c], m);
    }
  }

  lemma {:induction false} AncUp(parent: seq<nat>, c: nat, a: nat)
    requires Below(parent) && c < |parent| && 0 < a < |parent|
    requires Anc(parent, c, a)
    ensures Anc(parent, c, parent[a])
    decreases c
  {
    if c != a {
      AncUp(parent, parent[c], a);
    }
  }

  /** Two siblings cannot both be ancestors of the same object. */
  lemma {:induction false} AncUnique(parent: seq<nat>, c: nat, a: nat, b: nat)
    requires Below(parent) && c < |parent| && 0 < a < |parent| && 0 < b < |parent|
    requires parent[a] == parent[b]
    requires Anc(parent, c, a) && Anc(parent, c, b)
    ensures a == b
    decreases c
  {
    if c == a {
      if a != b {
        AncBelow(parent, parent[a], b);
      }
    } else if c == b {
      AncBelow(parent, parent[b], a);
    } else {
      AncUnique(parent, parent[c], a, b);
    }
  }

  // ---------------------------------------------------------------------------------------
  // Paths of child positions
  // ---------------------------------------------------------------------------------------

  /** Following the child positions `q` from object `i` leads to object `c`. */
  ghost predicate PathOK(heap: seq<HeapNode>, i: Ref, q: seq<nat>, c: Ref)
    requires Ordered(heap) && i < |heap|
    decreases q
  {
    if q == [] then i == c
    else q[0] < |Kids(heap[i])| && PathOK(heap, Kids(heap[i])[q[0]], q[1..], c)
  }

  lemma {:induction false} PathAnc(heap: seq<HeapNode>, parent: seq<nat>, pos: seq<nat>,
                                   i: Ref, q: seq<nat>, c: Ref)
    requires Wf(heap, parent, pos) && i < |heap| && c < |heap|
    requires PathOK(heap, i, q, c)
    ensures Anc(parent, c, i)
    decreases q
  {
    if q != [] {
      var m := Kids(heap[i])[q[0]];
      PathAnc(heap, parent, pos, m, q[1..], c);
      AncUp(parent, c, m);
    }
  }

  lemma {:induction false} PathSnoc(heap: seq<HeapNode>, i: Ref, q: seq<nat>, c: Ref, k: nat)
    requires Ordered(heap) && i < |heap| && c < |heap|
    requires PathOK(heap, i, q, c) && k < |Kids(heap[c])|
    ensures PathOK(heap, i, q + [k], Kids(heap[c])[k])
    decreases q
  {
    if q == [] {
      assert [k][1..] == [];
    } else {
      assert (q + [k])[1..] == q[1..] + [k];
      PathSnoc(heap, Kids(heap[i])[q[0]], q[1..], c, k);
    }
  }

  /** A path survives any change that only appends references. */
  lemma {:induction false} PathGrow(heap: seq<HeapNode>, heap': seq<HeapNode>,
                                    i: Ref, q: seq<nat>, c: Ref)
    requires Ordered(heap) && Ordered(heap') && |heap| <= |heap'| && i < |heap|
    requires forall y :: 0 <= y < |heap| ==> Kids(heap[y]) <= Kids(heap'[y])
    requires PathOK(heap, i, q, c)
    ensures PathOK(heap', i, q, c)
    decreases q
  {
    if q != [] {
      assert Kids(heap[i]) <= Kids(heap'[i]);
      PathGrow(heap, heap', Kids(heap[i])[q[0]], q[1..], c);
    }
  }

  // ---------------------------------------------------------------------------------------
  // Positions in a tree value
  // ---------------------------------------------------------------------------------------

  predicate ValidPath(t: FileNode, p: seq<nat>)
    decreases p
  {
    p == [] || (p[0] < |ChildrenOf(t)| && ValidPath(ChildrenOf(t)[p[0]], p[1..]))
  }

  /** The subtree at position `p`. */
  function Sub(t: FileNode, p: seq<nat>): FileNode
    requires ValidPath(t, p)
    decreases p
  {
    if p == [] then t else Sub(ChildrenOf(t)[p[0]], p[1..])
  }

  /** `t` with the subtree at position `p` replaced by `s`. */
  function Replace(t: FileNode, p: seq<nat>, s: FileNode): FileNode
    requires ValidPath(t, p)
    decreases p
  {
    if p == [] then s else ReplaceChild(t, p[0], Replace(ChildrenOf(t)[p[0]], p[1..], s))
  }

  lemma {:induction false} ReplaceSnoc(t: FileNode, p: seq<nat>, k: nat, s: FileNode)
    requires ValidPath(t, p) && k < |ChildrenOf(Sub(t, p))|
    ensures ValidPath(t, p + [k])
    ensures Replace(t, p + [k], s) == Replace(t, p, ReplaceChild(Sub(t, p), k, s))
    decreases p
  {
    if p == [] {
      assert [k][1..] == [];
    } else {
      assert (p + [k])[1..] == p[1..] + [k];
      ReplaceSnoc(ChildrenOf(t)[p[0]], p[1..], k, s);
    }
  }

  lemma {:induction false} ReplaceTwice(t: FileNode, p: seq<nat>, s: FileNode, s': FileNode)
    requires ValidPath(t, p)
    ensures ValidPath(Replace(t, p, s), p)
    ensures Sub(Replace(t, p, s), p) == s
    ensures Replace(Replace(t, p, s), p, s') == Replace(t, p, s')
    decreases p
  {
    if p != [] {
      var k, cs := p[0], ChildrenOf(t);
      ReplaceTwice(cs[k], p[1..], s, s');
      var x := Replace(cs[k], p[1..], s);
      assert ChildrenOf(ReplaceChild(t, k, x)) == cs[k := x];
      assert cs[k := x][k := Replace(x, p[1..], s')] == cs[k := Replace(cs[k], p[1..], s')];
    }
  }

  // ---------------------------------------------------------------------------------------
  // Values of heap objects
  // ---------------------------------------------------------------------------------------

  lemma ValueChildren(heap: seq<HeapNode>, c: Ref)
    requires Ordered(heap) && c < |heap|
    ensures var cs := ChildrenOf(ValueAt(heap, c));
            |cs| == |Kids(heap[c])| &&
            (forall j :: 0 <= j < |cs| ==> cs[j] == ValueAt(heap, Kids(heap[c])[j])) &&
            NamesAt(heap, Kids(heap[c])) == Names(cs)
  {
  }

  /** The value at the end of a path is the subtree of the value at its start. */
  lemma {:induction false} PathValue(heap: seq<HeapNode>, i: Ref, q: seq<nat>, c: Ref)
    requires Ordered(heap) && i < |heap| && c < |heap|
    requires PathOK(heap, i, q, c)
    ensures ValidPath(ValueAt(heap, i), q) && Sub(ValueAt(heap, i), q) == ValueAt(heap, c)
    decreases q
  {
    if q != [] {
      ValueChildren(heap, i);
      PathValue(heap, Kids(heap[i])[q[0]], q[1..], c);
    }
  }

  /** Pushing keeps the heap a tree, with the new object's parent link recorded. */
  lemma PushWf(heap: seq<HeapNode>, parent: seq<nat>, pos: seq<nat>, c: Ref, node: HeapNode)
    requires Wf(heap, parent, pos) && c < |heap| && Kids(node) == []
    ensures Wf(Push(heap, c, node), parent + [c], pos + [|Kids(heap[c])|])
    ensures forall y :: 0 <= y < |heap| ==> Kids(heap[y]) <= Kids(Push(heap, c, node)[y])
    ensures forall y :: 0 <= y < |heap| && y != c ==> Push(heap, c, node)[y] == heap[y]
    ensures Kids(Push(heap, c, node)[c]) == Kids(heap[c]) + [|heap|]
    ensures Push(heap, c, node)[|heap|] == node
  {
    var heap' := Push(heap, c, node);
    assert Kids(heap'[c]) == Kids(heap[c]) + [|heap|];
    assert forall y :: 0 <= y < |heap| && y != c ==> heap'[y] == heap[y];
  }

  /** Objects from which `c` cannot be reached keep their value when only `c` changes. */
  lemma {:induction false} ValueUnchanged(heap: seq<HeapNode>, heap': seq<HeapNode>,
                                          parent: seq<nat>, pos: seq<nat>, c: Ref, m: Ref)
    requires Wf(heap, parent, pos) && Ordered(heap') && |heap| <= |heap'|
    requires forall x :: 0 <= x < |heap| && x != c ==> heap'[x] == heap[x]
    requires c < |heap| && m < |heap| && !Anc(parent, c, m)
    ensures ValueAt(heap', m) == ValueAt(heap, m)
    decreases |heap| - m
  {
    var ks := Kids(heap[m]);
    forall j | 0 <= j < |ks| ensures ValueAt(heap', ks[j]) == ValueAt(heap, ks[j]) {
      if Anc(parent, c, ks[j]) {
        AncUp(parent, c, ks[j]);
      }
      ValueUnchanged(heap, heap', parent, pos, c, ks[j]);
    }
    ValueChildren(heap, m);
    ValueChildren(heap', m);
  }

  /** Pushing onto `c` itself appends the new object's value to `c`'s children. */
  lemma PushValueHere(heap: seq<HeapNode>, parent: seq<nat>, pos: seq<nat>, c: Ref, node: HeapNode)
    requires Wf(heap, parent, pos) && c < |heap| && Kids(node) == []
    ensures Ordered(Push(heap, c, node))
    ensures ValueAt(Push(heap, c, node), c) == Append(ValueAt(heap, c), Unlinked(node))
  {
    var heap' := Push(heap, c, node);
    PushWf(heap, parent, pos, c, node);
    var ks := Kids(heap[c]);
    ValueChildren(heap, c);
    ValueChildren(heap', c);
    forall j | 0 <= j < |ks| ensures ValueAt(heap', ks[j]) == ValueAt(heap, ks[j]) {
      if Anc(parent, c, ks[j]) {
        AncBelow(parent, c, ks[j]);
      }
      ValueUnchanged(heap, heap', parent, pos, c, ks[j]);
    }
    ValueChildren(heap', |heap|);
  }

  /**
   * Pushing onto `c` below the `k`-th child `m` of `i` changes the value of `i` only in its
   * `k`-th child, to the new value of `m`.
   */
  lemma PushValueAbove(heap: seq<HeapNode>, parent: seq<nat>, pos: seq<nat>,
                       i: Ref, k: nat, c: Ref, node: HeapNode)
    requires Wf(heap, parent, pos) && i < |heap| && c < |heap| && Kids(node) == []
    requires k < |Kids(heap[i])| && Anc(parent, c, Kids(heap[i])[k])
    ensures Ordered(Push(heap, c, node))
    ensures k < |ChildrenOf(ValueAt(heap, i))|
    ensures ValueAt(Push(heap, c, node), i) ==
            ReplaceChild(ValueAt(heap, i), k, ValueAt(Push(heap, c, node), Kids(heap[i])[k]))
  {
    var heap' := Push(heap, c, node);
    PushWf(heap, parent, pos, c, node);
    var ks := Kids(heap[i]);
    var m := ks[k];
    AncBelow(parent, c, m);
    ValueChildren(heap, i);
    ValueChildren(heap', i);
    forall j | 0 <= j < |ks| && j != k
      ensures ValueAt(heap', ks[j]) == ValueAt(heap, ks[j])
    {
      if Anc(parent, c, ks[j]) {
        AncUnique(parent, c, ks[j], m);
      }
      ValueUnchanged(heap, heap', parent, pos, c, ks[j]);
    }
  }

  /**
   * Pushing onto object `c`, reached from `i` along `q`, changes the value of `i` exactly at
   * position `q`, where the new object's value is appended to `c`'s children.
   */
  lemma {:induction false} PushValue(heap: seq<HeapNode>, parent: seq<nat>, pos: seq<nat>,
                                     i: Ref, q: seq<nat>, c: Ref, node: HeapNode)
    requires Wf(heap, parent, pos) && i < |heap| && c < |heap| && Kids(node) == []
    requires PathOK(heap, i, q, c)
    ensures Ordered(Push(heap, c, node))
    ensures ValidPath(ValueAt(heap, i), q)
    ensures ValueAt(Push(heap, c, node), i) ==
            Replace(ValueAt(heap, i), q, Append(ValueAt(heap, c), Unlinked(node)))
    decreases q
  {
    PathValue(heap, i, q, c);
    if q == [] {
      PushValueHere(heap, parent, pos, c, node);
    } else {
      var m := Kids(heap[i])[q[0]];
      PathAnc(heap, parent, pos, m, q[1..], c);
      PushValueAbove(heap, parent, pos, i, q[0], c, node);
      PushValue(heap, parent, pos, m, q[1..], c, node);
      ValueChildren(heap, i);
    }
  }
}
