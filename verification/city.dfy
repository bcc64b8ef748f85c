/**
 * The part of `generateCityLayout` after the treemap: every `blob` node laid out by d3 becomes a
 * building centred on the 100×100 platform, with a height computed from its size. The layout
 * itself is an input: each node of `root.descendants()` with the rectangle d3 gave it.
 */
module City {
  import opened Hierarchy
  import opened Census

  /** The treemap rectangle `(x0, y0)`–`(x1, y1)` d3 assigns to a node. */
  datatype Rect = Rect(x0: real, y0: real, x1: real, y1: real)

  /** One entry of `root.descendants()`: the node's data and its rectangle. */
  datatype LaidOut = LaidOut(data: FileNode, rect: Rect)

  /** A building: the node's own fields spread in, plus its 3D placement. */
  datatype Building = Building(data: FileNode, x: real, y: real, z: real, width: real, depth: real)

  /** The side of the square platform given to the treemap (`.size([100, 100])`). */
  const Platform: real := 100.0

  /** The rectangle lies on the platform with its corners in order. */
  predicate OnPlatform(r: Rect) {
    0.0 <= r.x0 <= r.x1 <= Platform && 0.0 <= r.y0 <= r.y1 <= Platform
  }

  /**
   * `(size || 100) / 500`: a size of 0 counts as 100. The height depends on the size alone, is
   * 0.2 for a size of 0, positive for every non-negative size and below 0.2 exactly when the
   * size lies strictly between 0 and 100.
   */
  function Height(size: int): (h: real)
    ensures size == 0 ==> h == 0.2
    ensures size >= 0 ==> h > 0.0
    ensures 0 < size < 100 <==> 0.0 < h < 0.2
  {
    (if size == 0 then 100 else size) as real / 500.0
  }

  /**
   * The building for one blob: centred on its rectangle, shifted so that the platform's centre
   * is the origin, as wide and deep as the rectangle, with the data unchanged.
   */
  function Place(n: LaidOut): (b: Building)
    ensures b.data == n.data && b.y == Height(n.data.size)
    ensures OnPlatform(n.rect) ==>
              -50.0 <= b.x <= 50.0 && -50.0 <= b.z <= 50.0 && b.width >= 0.0 && b.depth >= 0.0 &&
              b.x - b.width / 2.0 >= -50.0 && b.x + b.width / 2.0 <= 50.0 &&
              b.z - b.depth / 2.0 >= -50.0 && b.z + b.depth / 2.0 <= 50.0
  {
    var r := n.rect;
    Building(n.data,
             (r.x0 + r.x1) / 2.0 - Platform / 2.0,
             Height(n.data.size),
             (r.y0 + r.y1) / 2.0 - Platform / 2.0,
             r.x1 - r.x0,
             r.y1 - r.y0)
  }

  /** The rectangle a building covers on the platform, in d3's coordinates. */
  function Footprint(b: Building): Rect {
    Rect(b.x + Platform / 2.0 - b.width / 2.0, b.z + Platform / 2.0 - b.depth / 2.0,
         b.x + Platform / 2.0 + b.width / 2.0, b.z + Platform / 2.0 + b.depth / 2.0)
  }

  /** The projection loses nothing: the building covers exactly the node's rectangle. */
  lemma PlaceFootprint(n: LaidOut)
    ensures Footprint(Place(n)) == n.rect
  {
  }

  /** The buildings for a list of laid-out nodes: one per blob, in the same order. */
  function Buildings(layout: seq<LaidOut>): (r: seq<Building>)
    ensures |r| <= |layout|
    ensures forall k :: 0 <= k < |r| ==> r[k].data.kind == Blob
    ensures forall k :: 0 <= k < |r| ==> exists j :: 0 <= j < |layout| && r[k] == Place(layout[j])
  {
    if layout == [] then []
    else
      var init, last := layout[..|layout| - 1], layout[|layout| - 1];
      var r0 := Buildings(init);
      assert forall k :: 0 <= k < |r0| ==> exists j :: 0 <= j < |layout| && r0[k] == Place(layout[j])
      by {
        forall k | 0 <= k < |r0|
          ensures exists j :: 0 <= j < |layout| && r0[k] == Place(layout[j])
        {
          var j :| 0 <= j < |init| && r0[k] == Place(init[j]);
          assert init[j] == layout[j];
        }
      }
      r0 + (if last.data.kind == Blob then [Place(last)] else [])
  }

  /** The data of every laid-out node, in order. */
  function Datas(layout: seq<LaidOut>): (ds: seq<FileNode>)
    ensures |ds| == |layout|
    ensures forall j :: 0 <= j < |layout| ==> ds[j] == layout[j].data
  {
    seq(|layout|, j requires 0 <= j < |layout| => layout[j].data)
  }

  /** How many of the laid-out nodes are blobs. */
  function BlobCount(layout: seq<LaidOut>): nat {
    Count(Datas(layout), KindIs(Blob))
  }

  /** Exactly one building per blob node, none for a tree node. */
  lemma {:induction false} BuildingsCount(layout: seq<LaidOut>)
    ensures |Buildings(layout)| == BlobCount(layout)
  {
    if layout != [] {
      var init, last := layout[..|layout| - 1], layout[|layout| - 1];
      BuildingsCount(init);
      assert Datas(layout) == Datas(init) + [last.data];
      CountAppend(Datas(init), [last.data], KindIs(Blob));
      assert [last.data][1..] == [];
    }
  }

  /**
   * The blob at position `j` gets the building after those of the blobs before it: the
   * buildings keep the order of the layout.
   */
  lemma {:induction false} BuildingsOrder(layout: seq<LaidOut>, j: nat)
    requires j < |layout| && layout[j].data.kind == Blob
    ensures BlobCount(layout[..j]) < |Buildings(layout)|
    ensures Buildings(layout)[BlobCount(layout[..j])] == Place(layout[j])
  {
    var init, last := layout[..|layout| - 1], layout[|layout| - 1];
    if j == |layout| - 1 {
      assert layout[..j] == init;
      BuildingsCount(init);
    } else {
      assert init[..j] == layout[..j] && init[j] == layout[j];
      BuildingsOrder(init, j);
    }
  }

  /**
   * Whatever order d3 lists the nodes in, the buildings for a layout of the tree built from
   * `items` number exactly the blob items.
   */
  lemma BuildingsOfHierarchy(layout: seq<LaidOut>, items: seq<Item>)
    requires multiset(Datas(layout)) == multiset(Nodes(Build(items)))
    ensures |Buildings(layout)| == CountItems(items, KindIs(Blob))
  {
    BuildingsCount(layout);
    CountPermutation(Datas(layout), Nodes(Build(items)), KindIs(Blob));
    BuildCount(items, KindIs(Blob));
  }

  /**
   * The loop over `root.descendants()` that pushes a building for every blob; the result is
   * `Buildings(layout)`.
   */
  method GenerateCityLayout(layout: seq<LaidOut>) returns (buildings: seq<Building>)
    ensures buildings == Buildings(layout)
  {
    buildings := [];
    var i := 0;
    while i < |layout|
      invariant 0 <= i <= |layout|
      invariant buildings == Buildings(layout[..i])
    {
      var node := layout[i];
      assert layout[..i + 1][..i] == layout[..i];
      if node.data.kind == Blob {
        buildings := buildings + [Place(node)];
      }
      i := i + 1;
    }
    assert layout[..i] == layout;
  }
}
