/**
 * Counting the nodes of a built hierarchy: every item contributes exactly one node carrying its
 * path and kind, and the folders created for path segments carry path '' and kind 'tree'.
 */
module Census {
  import opened Paths
  import opened Hierarchy

  /** Every node of the tree once, each node before its children, children in order. */
  function Nodes(n: FileNode): (r: seq<FileNode>)
    ensures |r| >= 1 && r[0] == n
  {
    var cs := ChildrenOf(n);
    [n] + Concat(seq(|cs|, j requires 0 <= j < |cs| => Nodes(cs[j])))
  }

  /** The node lists of the given subtrees, in order. */
  function Subtrees(cs: seq<FileNode>): (r: seq<seq<FileNode>>)
    ensures |r| == |cs|
  {
    seq(|cs|, j requires 0 <= j < |cs| => Nodes(cs[j]))
  }

  function Concat(ss: seq<seq<FileNode>>): seq<FileNode> {
    if ss == [] then [] else ss[0] + Concat(ss[1..])
  }

  /** A question asked of every node's fields. */
  datatype Query = PathIs(path: string) | KindIs(kind: Kind)

  predicate Matches(q: Query, h: Header) {
    match q
    case PathIs(p) => h.path == p
    case KindIs(k) => h.kind == k
  }

  /** The question is never answered yes by the root or by a folder made for a path segment. */
  predicate SkipsFolders(q: Query) {
    match q
    case PathIs(p) => p != ""
    case KindIs(k) => k == Blob
  }

  /** Whether the node made for `item` answers the question yes. */
  predicate ItemMatches(q: Query, item: Item) {
    match q
    case PathIs(p) => item.path == p
    case KindIs(k) => item.kind == k
  }

  function Count(xs: seq<FileNode>, q: Query): nat {
    if xs == [] then 0
    else (if Matches(q, HeaderOf(xs[0])) then 1 else 0) + Count(xs[1..], q)
  }

  function CountItems(items: seq<Item>, q: Query): nat {
    if items == [] then 0
    else CountItems(items[..|items| - 1], q) + (if ItemMatches(q, items[|items| - 1]) then 1 else 0)
  }

  // ---------------------------------------------------------------------------------------
  // Sequence facts
  // ---------------------------------------------------------------------------------------

  lemma {:induction false} CountAppend(a: seq<FileNode>, b: seq<FileNode>, q: Query)
    ensures Count(a + b, q) == Count(a, q) + Count(b, q)
  {
    if a == [] {
      assert a + b == b;
    } else {
      assert (a + b)[1..] == a[1..] + b;
      CountAppend(a[1..], b, q);
    }
  }

  lemma {:induction false} ConcatSnoc(ss: seq<seq<FileNode>>, x: seq<FileNode>)
    ensures Concat(ss + [x]) == Concat(ss) + x
  {
    if ss == [] {
      assert [x][1..] == [];
    } else {
      assert (ss + [x])[1..] == ss[1..] + [x];
      ConcatSnoc(ss[1..], x);
    }
  }

  lemma {:induction false} ConcatSplit(ss: seq<seq<FileNode>>, k: nat)
    requires k < |ss|
    ensures Concat(ss) == Concat(ss[..k]) + ss[k] + Concat(ss[k + 1..])
  {
    if k == 0 {
      assert ss[..0] == [];
      assert ss[1..] == ss[k + 1..];
    } else {
      ConcatSplit(ss[1..], k - 1);
      assert ss[1..][..k - 1] == ss[1..k];
      assert ss[1..][k..] == ss[k + 1..];
      assert ss[..k] == [ss[0]] + ss[1..k];
      assert ss[..k][1..] == ss[1..k];
    }
  }

  /** Replacing one block of a concatenation changes its count by the difference. */
  lemma CountConcatUpdate(ss: seq<seq<FileNode>>, k: nat, x: seq<FileNode>, q: Query)
    requires k < |ss|
    ensures Count(Concat(ss[k := x]), q) + Count(ss[k], q) == Count(Concat(ss), q) + Count(x, q)
  {
    var ss' := ss[k := x];
    ConcatSplit(ss, k);
    ConcatSplit(ss', k);
    assert ss'[..k] == ss[..k] && ss'[k + 1..] == ss[k + 1..];
    CountAppend(Concat(ss[..k]) + ss[k], Concat(ss[k + 1..]), q);
    CountAppend(Concat(ss[..k]), ss[k], q);
    CountAppend(Concat(ss[..k]) + x, Concat(ss[k + 1..]), q);
    CountAppend(Concat(ss[..k]), x, q);
  }

  /** Dropping the same element from two permutations of each other leaves permutations. */
  lemma MultisetRemove<T>(a: seq<T>, b: seq<T>, i: nat)
    requires multiset(a) == multiset(b) && a != [] && i < |b| && b[i] == a[0]
    ensures multiset(a[1..]) == multiset(b[..i] + b[i + 1..])
  {
    assert b == b[..i] + [b[i]] + b[i + 1..];
    assert a == [a[0]] + a[1..];
    assert multiset(b[..i] + b[i + 1..]) == multiset(b) - multiset{b[i]};
  }

  /** Dropping one node takes its own answer out of the count. */
  lemma CountRemove(b: seq<FileNode>, i: nat, q: Query)
    requires i < |b|
    ensures Count(b, q) == Count(b[..i] + b[i + 1..], q) + (if Matches(q, HeaderOf(b[i])) then 1 else 0)
  {
    assert b == b[..i] + [b[i]] + b[i + 1..];
    CountAppend(b[..i], b[i + 1..], q);
    CountAppend(b[..i] + [b[i]], b[i + 1..], q);
    CountAppend(b[..i], [b[i]], q);
    assert [b[i]][1..] == [];
  }

  /** The count does not depend on the order of the nodes. */
  lemma {:induction false} CountPermutation(a: seq<FileNode>, b: seq<FileNode>, q: Query)
    requires multiset(a) == multiset(b)
    ensures Count(a, q) == Count(b, q)
    decreases |a|
  {
    if a == [] {
      assert |b| == |multiset(b)| == 0;
    } else {
      assert a[0] in multiset(b);
      var i :| 0 <= i < |b| && b[i] == a[0];
      MultisetRemove(a, b, i);
      CountPermutation(a[1..], b[..i] + b[i + 1..], q);
      CountRemove(b, i, q);
    }
  }

  /** The count of a tree: whether its own fields match, plus the counts of its subtrees. */
  lemma NodesCount(n: FileNode, q: Query)
    ensures Count(Nodes(n), q) ==
            (if Matches(q, HeaderOf(n)) then 1 else 0) + Count(Concat(Subtrees(ChildrenOf(n))), q)
  {
    assert Subtrees(ChildrenOf(n)) == seq(|ChildrenOf(n)|, j requires 0 <= j < |ChildrenOf(n)| => Nodes(ChildrenOf(n)[j]));
    assert Nodes(n)[1..] == Concat(Subtrees(ChildrenOf(n)));
  }

  // ---------------------------------------------------------------------------------------
  // One node per item
  // ---------------------------------------------------------------------------------------

  /** Pushing a child adds the child's count. */
  lemma AppendCount(n: FileNode, c: FileNode, q: Query)
    ensures Count(Nodes(Append(n, c)), q) == Count(Nodes(n), q) + Count(Nodes(c), q)
  {
    var cs := ChildrenOf(n);
    assert ChildrenOf(Append(n, c)) == cs + [c];
    assert Subtrees(cs + [c]) == Subtrees(cs) + [Nodes(c)];
    NodesCount(n, q);
    NodesCount(Append(n, c), q);
    ConcatSnoc(Subtrees(cs), Nodes(c));
    CountAppend(Concat(Subtrees(cs)), Nodes(c), q);
  }

  /** Replacing a child changes the count by the difference between the two children. */
  lemma ReplaceCount(n: FileNode, k: nat, c: FileNode, q: Query)
    requires k < |ChildrenOf(n)|
    ensures var cs := ChildrenOf(n);
            Count(Nodes(ReplaceChild(n, k, c)), q) + Count(Nodes(cs[k]), q) ==
            Count(Nodes(n), q) + Count(Nodes(c), q)
  {
    var cs := ChildrenOf(n);
    var n' := ReplaceChild(n, k, c);
    assert ChildrenOf(n') == cs[k := c];
    assert Subtrees(cs[k := c]) == Subtrees(cs)[k := Nodes(c)];
    NodesCount(n, q);
    NodesCount(n', q);
    CountConcatUpdate(Subtrees(cs), k, Nodes(c), q);
  }

  /** A node without children counts only itself. */
  lemma ChildlessCount(n: FileNode, q: Query)
    requires ChildrenOf(n) == []
    ensures Count(Nodes(n), q) == if Matches(q, HeaderOf(n)) then 1 else 0
  {
    NodesCount(n, q);
    assert Subtrees(ChildrenOf(n)) == [];
  }

  /**
   * Walking one item adds exactly one node that a folder-skipping question can match: the
   * item's own node. Nothing already in the tree changes its answer.
   */
  lemma {:induction false} InsertCount(n: FileNode, parts: seq<string>, item: Item, q: Query)
    requires |parts| >= 1
    requires SkipsFolders(q)
    ensures Count(Nodes(Insert(n, parts, item)), q) ==
            Count(Nodes(n), q) + (if ItemMatches(q, item) then 1 else 0)
    decreases |parts|
  {
    var cs := ChildrenOf(n);
    if |parts| == 1 {
      AppendCount(n, Leaf(parts[0], item), q);
      ChildlessCount(Leaf(parts[0], item), q);
    } else {
      var k := FirstIndexOf(Names(cs), parts[0]);
      if k < |cs| {
        ReplaceCount(n, k, Insert(cs[k], parts[1..], item), q);
        InsertCount(cs[k], parts[1..], item, q);
      } else {
        AppendCount(n, Insert(Intermediate(parts[0]), parts[1..], item), q);
        InsertCount(Intermediate(parts[0]), parts[1..], item, q);
        ChildlessCount(Intermediate(parts[0]), q);
      }
    }
  }

  /**
   * For a question the folders never match, the built tree has as many matching nodes as
   * there are matching items: exactly one node per item path (`PathIs` with a non-empty path),
   * so a repeated path gives repeated nodes, and exactly one blob node per blob item.
   */
  lemma {:induction false} BuildCount(items: seq<Item>, q: Query)
    requires SkipsFolders(q)
    ensures Count(Nodes(Build(items)), q) == CountItems(items, q)
  {
    if items == [] {
      assert Nodes(EmptyRoot) == [EmptyRoot];
    } else {
      var last := items[|items| - 1];
      BuildCount(items[..|items| - 1], q);
      InsertCount(Build(items[..|items| - 1]), Split(last.path), last, q);
    }
  }
}
