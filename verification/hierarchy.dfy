/**
 * The tree that `buildHierarchy` returns, as a value, and the effect of one flat GitHub tree
 * item on it. This is the specification the imperative builder in module Builder is proved
 * against; the lemmas here state what the builder promises.
 */
module Hierarchy {
  import opened Paths

  /** GitHub's `type` field: `'blob'` is a file, `'tree'` a folder. */
  datatype Kind = Blob | Tree

  /** One item of GitHub's flat `git/trees` listing; `size` is usually absent for trees. */
  datatype Item = Item(path: string, kind: Kind, size: Option<int>)

  /** A node of the hierarchy. */
  datatype FileNode = FileNode(name: string, path: string, size: int, kind: Kind,
                               children: Children)

  /** The optional `children` array: `Absent` where the object has none (`undefined`). */
  datatype Children = Absent | Present(list: seq<FileNode>)

  /** The fields of a node other than its children. */
  datatype Header = Header(name: string, path: string, size: int, kind: Kind)

  function HeaderOf(n: FileNode): Header {
    Header(n.name, n.path, n.size, n.kind)
  }

  /** The children list, an absent one read as empty (`current.children?.…`). */
  function ChildrenOf(n: FileNode): seq<FileNode> {
    if n.children.Present? then n.children.list else []
  }

  function Names(cs: seq<FileNode>): (names: seq<string>)
    ensures |names| == |cs|
    ensures forall j :: 0 <= j < |cs| ==> names[j] == cs[j].name
  {
    seq(|cs|, j requires 0 <= j < |cs| => cs[j].name)
  }

  /**
   * `Array.prototype.find` by name: the position of the first name equal to `name`,
   * or `|names|` when there is none.
   */
  function FirstIndexOf(names: seq<string>, name: string): (k: nat)
    ensures k <= |names|
    ensures k < |names| ==> names[k] == name
    ensures forall j :: 0 <= j < k ==> names[j] != name
  {
    if names == [] then 0
    else if names[0] == name then 0
    else 1 + FirstIndexOf(names[1..], name)
  }

  /** The root object created at the start of `buildHierarchy`. */
  const EmptyRoot: FileNode := FileNode("root", "", 0, Tree, Present([]))

  /** The folder created for a path segment no child is named after. */
  function Intermediate(name: string): FileNode {
    FileNode(name, "", 0, Tree, Present([]))
  }

  /** The node created for the last segment of an item's path. */
  function Leaf(name: string, item: Item): FileNode {
    FileNode(name, item.path,
             if item.kind == Blob then item.size.GetOr(0) else 0,
             item.kind,
             if item.kind == Tree then Present([]) else Absent)
  }

  /** `n` with `c` pushed onto its children list, the list created first when absent. */
  function Append(n: FileNode, c: FileNode): FileNode {
    n.(children := Present(ChildrenOf(n) + [c]))
  }

  /** `n` with its `k`-th child replaced by `c`. */
  function ReplaceChild(n: FileNode, k: nat, c: FileNode): FileNode
    requires k < |ChildrenOf(n)|
  {
    n.(children := Present(ChildrenOf(n)[k := c]))
  }

  /**
   * The walk of one item below `n`: `parts` are the segments still to consume. Every segment
   * but the last descends into the first child of that name, or into a new folder appended
   * when there is none; the last segment always appends a new leaf.
   */
  function Insert(n: FileNode, parts: seq<string>, item: Item): FileNode
    requires |parts| >= 1
    decreases |parts|
  {
    var cs := ChildrenOf(n);
    if |parts| == 1 then
      Append(n, Leaf(parts[0], item))
    else
      var k := FirstIndexOf(Names(cs), parts[0]);
      if k < |cs| then
        ReplaceChild(n, k, Insert(cs[k], parts[1..], item))
      else
        Append(n, Insert(Intermediate(parts[0]), parts[1..], item))
  }

  /** The tree `buildHierarchy(items)` returns: the items walked in order from a fresh root. */
  function Build(items: seq<Item>): FileNode {
    if items == [] then EmptyRoot
    else
      var last := items[|items| - 1];
      Insert(Build(items[..|items| - 1]), Split(last.path), last)
  }

  // ---------------------------------------------------------------------------------------
  // The root
  // ---------------------------------------------------------------------------------------

  /** The walk never touches the fields of the node it starts from, only its children. */
  lemma InsertKeepsHeader(n: FileNode, parts: seq<string>, item: Item)
    requires |parts| >= 1
    ensures HeaderOf(Insert(n, parts, item)) == HeaderOf(n)
    ensures Insert(n, parts, item).children.Present?
  {
  }

  /** The result is always the root folder `{name: 'root', path: '', size: 0, type: 'tree'}`. */
  lemma {:induction false} BuildRoot(items: seq<Item>)
    ensures HeaderOf(Build(items)) == Header("root", "", 0, Tree)
    ensures Build(items).children.Present?
    ensures items == [] ==> ChildrenOf(Build(items)) == []
  {
    if items != [] {
      var last := items[|items| - 1];
      BuildRoot(items[..|items| - 1]);
      InsertKeepsHeader(Build(items[..|items| - 1]), Split(last.path), last);
    }
  }

  // ---------------------------------------------------------------------------------------
  // One step of the walk
  // ---------------------------------------------------------------------------------------

  /**
   * A non-final segment reuses the first child of that name, whatever its kind, leaving every
   * other child and the reused child's own fields as they were; only when no child has that
   * name is an empty folder with path '' appended, after the existing children.
   */
  lemma InsertDescends(n: FileNode, parts: seq<string>, item: Item)
    requires |parts| >= 2
    ensures var cs, cs' := ChildrenOf(n), ChildrenOf(Insert(n, parts, item));
            var k := FirstIndexOf(Names(cs), parts[0]);
            (k < |cs| ==>
               |cs'| == |cs| && HeaderOf(cs'[k]) == HeaderOf(cs[k]) &&
               forall j :: 0 <= j < |cs| && j != k ==> cs'[j] == cs[j]) &&
            (k == |cs| ==>
               |cs'| == |cs| + 1 && cs'[..|cs|] == cs &&
               HeaderOf(cs'[|cs|]) == Header(parts[0], "", 0, Tree) &&
               cs'[|cs|].children.Present?)
  {
    var cs := ChildrenOf(n);
    var k := FirstIndexOf(Names(cs), parts[0]);
    if k < |cs| {
      InsertKeepsHeader(cs[k], parts[1..], item);
    } else {
      InsertKeepsHeader(Intermediate(parts[0]), parts[1..], item);
    }
  }

  /**
   * The node reached from `n` by descending, segment by segment, into the first child of
   * each name; `None` when some segment names no child.
   */
  function Follow(n: FileNode, segs: seq<string>): Option<FileNode>
    decreases |segs|
  {
    if segs == [] then Some(n)
    else
      var cs := ChildrenOf(n);
      var k := FirstIndexOf(Names(cs), segs[0]);
      if k < |cs| then Follow(cs[k], segs[1..]) else None
  }

  /**
   * Each item appends exactly one node: the folder reached by the path's leading segments
   * ends up with its old children followed by the new leaf, whose name is the last segment
   * and whose path is the item's whole path; a folder that did not exist yet holds only it.
   * A path seen before is therefore appended again, never merged.
   */
  lemma {:induction false} InsertAppendsLeaf(n: FileNode, parts: seq<string>, item: Item)
    requires |parts| >= 1
    ensures var prefix := parts[..|parts| - 1];
            var d := Follow(Insert(n, parts, item), prefix);
            d.Some? &&
            ChildrenOf(d.value) == (match Follow(n, prefix)
                                    case Some(d0) => ChildrenOf(d0)
                                    case None => []) + [Leaf(Last(parts), item)]
    decreases |parts|
  {
    var prefix := parts[..|parts| - 1];
    if |parts| > 1 {
      var cs := ChildrenOf(n);
      var n' := Insert(n, parts, item);
      var cs' := ChildrenOf(n');
      var k := FirstIndexOf(Names(cs), parts[0]);
      var rest := parts[1..];
      assert prefix[0] == parts[0] && prefix[1..] == rest[..|rest| - 1];
      assert Last(rest) == Last(parts);
      InsertDescends(n, parts, item);
      if k < |cs| {
        assert Names(cs') == Names(cs);
        InsertAppendsLeaf(cs[k], rest, item);
      } else {
        assert Names(cs') == Names(cs) + [parts[0]];
        assert FirstIndexOf(Names(cs'), parts[0]) == |cs|;
        InsertAppendsLeaf(Intermediate(parts[0]), rest, item);
        if |rest| > 1 {
          assert Follow(Intermediate(parts[0]), rest[..|rest| - 1]) == None;
        }
      }
    }
  }

  /**
   * The node an item appends, last among the children of the folder its leading segments
   * lead to: named after the last segment, carrying the item's path and kind; a blob's node has
   * the item's size (0 when absent) and no children list, a tree's node has size 0 and an
   * empty children list.
   */
  lemma AppendedNode(n: FileNode, parts: seq<string>, item: Item)
    requires |parts| >= 1
    ensures var d := Follow(Insert(n, parts, item), parts[..|parts| - 1]);
            d.Some? && |ChildrenOf(d.value)| >= 1 &&
            var l := ChildrenOf(d.value)[|ChildrenOf(d.value)| - 1];
            l.name == Last(parts) && l.path == item.path && l.kind == item.kind &&
            (item.kind == Blob ==> l.size == item.size.GetOr(0) && l.children == Absent) &&
            (item.kind == Tree ==> l.size == 0 && l.children == Present([]))
  {
    InsertAppendsLeaf(n, parts, item);
  }

  // ---------------------------------------------------------------------------------------
  // Append-only growth
  // ---------------------------------------------------------------------------------------

  /**
   * `b` is `a` with things appended: the same fields, a children list wherever `a` had one,
   * and each of `a`'s children, in the same order, grown the same way.
   */
  predicate Extends(a: FileNode, b: FileNode) {
    HeaderOf(a) == HeaderOf(b) &&
    match a.children
    case Absent => true
    case Present(cs) =>
      b.children.Present? && |cs| <= |b.children.list| &&
      forall j :: 0 <= j < |cs| ==> Extends(cs[j], b.children.list[j])
  }

  lemma {:induction false} ExtendsRefl(a: FileNode)
    ensures Extends(a, a)
  {
    match a.children
    case Absent =>
    case Present(cs) =>
      forall j | 0 <= j < |cs| {
        ExtendsRefl(cs[j]);
      }
  }

  lemma {:induction false} ExtendsTrans(a: FileNode, b: FileNode, c: FileNode)
    requires Extends(a, b) && Extends(b, c)
    ensures Extends(a, c)
  {
    match a.children
    case Absent =>
    case Present(cs) =>
      forall j | 0 <= j < |cs| {
        ExtendsTrans(cs[j], b.children.list[j], c.children.list[j]);
      }
  }

  /** One item only appends: no node's fields change and no child is removed or reordered. */
  lemma {:induction false} InsertExtends(n: FileNode, parts: seq<string>, item: Item)
    requires |parts| >= 1
    ensures Extends(n, Insert(n, parts, item))
    decreases |parts|
  {
    var cs := ChildrenOf(n);
    var cs' := ChildrenOf(Insert(n, parts, item));
    if |parts| == 1 {
      assert cs' == cs + [Leaf(parts[0], item)];
      forall j | 0 <= j < |cs| ensures Extends(cs[j], cs'[j]) {
        ExtendsRefl(cs[j]);
      }
    } else {
      var k := FirstIndexOf(Names(cs), parts[0]);
      forall j | 0 <= j < |cs| ensures Extends(cs[j], cs'[j]) {
        if j == k {
          InsertExtends(cs[k], parts[1..], item);
        } else {
          ExtendsRefl(cs[j]);
        }
      }
    }
  }

  /** The tree for a prefix of the items is extended by the tree for all of them. */
  lemma {:induction false} BuildExtends(items: seq<Item>, i: nat)
    requires i <= |items|
    ensures Extends(Build(items[..i]), Build(items))
    decreases |items| - i
  {
    if i == |items| {
      assert items[..i] == items;
      ExtendsRefl(Build(items));
    } else {
      var init := items[..|items| - 1];
      var last := items[|items| - 1];
      assert init[..i] == items[..i];
      BuildExtends(init, i);
      InsertExtends(Build(init), Split(last.path), last);
      ExtendsTrans(Build(items[..i]), Build(init), Build(items));
    }
  }

  // ---------------------------------------------------------------------------------------
  // Two consequences of looking children up by name alone
  // ---------------------------------------------------------------------------------------

  /**
   * A folder listed after one of its own descendants is not merged with the folder the walk
   * created for it: the root then holds two children named `a`, the created one with path ''.
   */
  lemma FolderAfterDescendant()
    ensures var cs := ChildrenOf(Build([Item("a/b", Blob, Some(7)), Item("a", Tree, None)]));
            |cs| == 2 && cs[0].name == "a" && cs[1].name == "a" &&
            cs[0].path == "" && cs[1].path == "a" && cs[1].children == Present([])
  {
    var items := [Item("a/b", Blob, Some(7)), Item("a", Tree, None)];
    var folder := Insert(Intermediate("a"), ["b"], items[0]);
    var first := Append(EmptyRoot, folder);
    assert Build(items[..1]) == first by {
      SplitAB();
      assert items[..1][..0] == [];
    }
    assert Build(items) == Append(first, Leaf("a", items[1])) by {
      SplitSegment("a");
      assert items[..|items| - 1] == items[..1];
    }
    assert ChildrenOf(Append(first, Leaf("a", items[1]))) == [folder, Leaf("a", items[1])];
  }

  /**
   * A path below a file descends into the file's node, whatever its kind, and gives it a
   * children list.
   */
  lemma FileGainsChildren()
    ensures var cs := ChildrenOf(Build([Item("a", Blob, Some(5)), Item("a/b", Blob, Some(1))]));
            |cs| == 1 && cs[0].kind == Blob && cs[0].size == 5 &&
            cs[0].children == Present([Leaf("b", Item("a/b", Blob, Some(1)))])
  {
    var items := [Item("a", Blob, Some(5)), Item("a/b", Blob, Some(1))];
    var file := Leaf("a", items[0]);
    var first := Append(EmptyRoot, file);
    assert Build(items[..1]) == first by {
      SplitSegment("a");
      assert items[..1][..0] == [];
    }
    assert Build(items) == ReplaceChild(first, 0, Append(file, Leaf("b", items[1]))) by {
      SplitAB();
      assert items[..|items| - 1] == items[..1];
      assert ChildrenOf(first) == [file];
      assert FirstIndexOf(Names(ChildrenOf(first)), "a") == 0;
      assert Insert(file, ["b"], items[1]) == Append(file, Leaf("b", items[1]));
      assert Build(items) == Insert(first, ["a", "b"], items[1]);
    }
  }

  /** `'a/b'.split('/')` is `['a', 'b']`. */
  lemma SplitAB()
    ensures Split("a/b") == ["a", "b"]
  {
    SplitPrefix("a", "b");
    SplitSegment("a");
    SplitSegment("b");
  }
}
