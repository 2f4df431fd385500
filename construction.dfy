/** Building the mesh (mySketch.js, `createNodes` and `createLinks`): a
    square grid of nodes with a pinned border ring, and a link between every
    two nodes close enough to each other unless both are pinned. */
module Construction {
  import opened Geometry
  import opened Nodes

  /** Grid cell (i, j) lies on the border ring of a `g` by `g` grid. */
  predicate OnBorder(i: nat, j: nat, g: nat) {
    i == 0 || j == 0 || i == g || j == g
  }

  /** The node `createNodes` builds for grid cell (i, j): `map` sends
      0..g onto 0..width-1 and 0..height-1. */
  function GridNode(i: nat, j: nat, g: nat, width: real, height: real): Node
    requires g > 0
  {
    NewNode((i as real) / (g as real) * (width - 1.0),
            (j as real) / (g as real) * (height - 1.0),
            OnBorder(i, j, g))
  }

  /** The position of cell (i, j) in the j-major node list. */
  function Index(i: nat, j: nat, g: nat): nat {
    j * (g + 1) + i
  }

  lemma IndexSplits(i: nat, j: nat, g: nat)
    requires i <= g
    ensures Index(i, j, g) / (g + 1) == j && Index(i, j, g) % (g + 1) == i
  {
    DivModUnique(Index(i, j, g), g + 1, j, i);
  }

  /** Quotient and remainder are the only such pair. */
  lemma DivModUnique(k: int, d: int, q: int, r: int)
    requires d > 0 && 0 <= r < d && k == q * d + r
    ensures k / d == q && k % d == r
  {
    var q', r' := k / d, k % d;
    assert k == q' * d + r' && 0 <= r' < d;
    assert (q - q') * d == r' - r;
    if q > q' {
      MulAtLeast(q - q', d);
    } else if q < q' {
      MulAtLeast(q' - q, d);
    }
  }

  lemma MulAtLeast(a: int, d: int)
    requires a >= 1 && d > 0
    ensures a * d >= d
  {
    assert a * d == (a - 1) * d + d;
    assert (a - 1) * d >= 0;
  }

  lemma IndexBelow(i: nat, j: nat, g: nat)
    requires i <= g && j <= g
    ensures Index(i, j, g) < (g + 1) * (g + 1)
  {
    assert j * (g + 1) <= g * (g + 1);
  }

  /** `ns` holds the first |ns| nodes of the grid, in j-major order. */
  ghost predicate GridPrefix(ns: seq<Node>, g: nat, width: real, height: real)
    requires g > 0
  {
    forall k :: 0 <= k < |ns| ==> ns[k] == GridNode(k % (g + 1), k / (g + 1), g, width, height)
  }

  lemma GridPrefixGrows(ns: seq<Node>, i: nat, j: nat, g: nat, width: real, height: real)
    requires g > 0 && i <= g && |ns| == Index(i, j, g)
    requires GridPrefix(ns, g, width, height)
    ensures GridPrefix(ns + [GridNode(i, j, g, width, height)], g, width, height)
    ensures |ns| + 1 == Index(i + 1, j, g)
  {
    IndexSplits(i, j, g);
  }

  /** One past the end of row j is the start of row j + 1. */
  lemma RowEnd(j: nat, g: nat)
    ensures Index(g + 1, j, g) == Index(0, j + 1, g)
  {
    assert (j + 1) * (g + 1) == j * (g + 1) + g + 1;
  }

  /** `createNodes`: (g+1)*(g+1) nodes, row by row; node `Index(i, j, g)` is
      the one of cell (i, j), pinned exactly on the border ring. */
  method CreateNodes(g: nat, width: real, height: real) returns (ns: seq<Node>)
    requires g > 0
    ensures |ns| == (g + 1) * (g + 1)
    ensures forall k :: 0 <= k < |ns| ==> ns[k] == GridNode(k % (g + 1), k / (g + 1), g, width, height)
    ensures forall i, j :: 0 <= i <= g && 0 <= j <= g ==>
              Index(i, j, g) < |ns| && ns[Index(i, j, g)] == GridNode(i, j, g, width, height)
    ensures forall i, j :: 0 <= i <= g && 0 <= j <= g ==>
              (ns[Index(i, j, g)].pinned <==> i == 0 || j == 0 || i == g || j == g)
  {
    ns := [];
    var j := 0;
    while j <= g
      invariant 0 <= j <= g + 1
      invariant |ns| == Index(0, j, g)
      invariant GridPrefix(ns, g, width, height)
    {
      var i := 0;
      while i <= g
        invariant 0 <= i <= g + 1
        invariant |ns| == Index(i, j, g)
        invariant GridPrefix(ns, g, width, height)
      {
        GridPrefixGrows(ns, i, j, g, width, height);
        ns := ns + [GridNode(i, j, g, width, height)];
        i := i + 1;
      }
      RowEnd(j, g);
      j := j + 1;
    }
    assert |ns| == (g + 1) * (g + 1);
    forall i, j | 0 <= i <= g && 0 <= j <= g
      ensures Index(i, j, g) < |ns| && ns[Index(i, j, g)] == GridNode(i, j, g, width, height)
    {
      IndexBelow(i, j, g);
      IndexSplits(i, j, g);
    }
  }

  /** The `width / gridCount` reach of `createLinks`. */
  function Reach(g: nat, width: real): real
    requires g > 0
  {
    width / (g as real)
  }

  /** `createLinks` joins nodes `a` and `b`: they are within `reach` of each
      other and not both pinned. */
  predicate Joins(ns: seq<Node>, a: nat, b: nat, reach: real)
    requires a < |ns| && b < |ns|
  {
    WithinRadius(ns[a].pos, ns[b].pos, reach) && !(ns[a].pinned && ns[b].pinned)
  }

  /** Link `l` comes before link `m` in the order `createLinks` builds them. */
  predicate Precedes(l: Link, m: Link) {
    l.node1 < m.node1 || (l.node1 == m.node1 && l.node2 < m.node2)
  }

  /** `links` is the link list `createLinks` builds over `ns`: each link goes
      from a node to a later one and joins them, every joined pair of nodes
      has its link, and the links come in construction order. */
  ghost predicate LinkListOf(links: seq<Link>, ns: seq<Node>, reach: real) {
    (forall l :: l in links ==> l.node1 < l.node2 < |ns|) &&
    (forall l :: l in links ==> Joins(ns, l.node1, l.node2, reach)) &&
    (forall a, b :: 0 <= a < b < |ns| && Joins(ns, a, b, reach) ==> Link(a, b) in links) &&
    (forall i, j :: 0 <= i < j < |links| ==> Precedes(links[i], links[j]))
  }

  /** `createLinks`. */
  method CreateLinks(ns: seq<Node>, g: nat, width: real) returns (links: seq<Link>)
    requires g > 0
    ensures LinkListOf(links, ns, Reach(g, width))
  {
    var reach := width / (g as real);
    links := [];
    var a := 0;
    while a < |ns|
      invariant 0 <= a <= |ns|
      invariant forall l :: l in links ==> l.node1 < a && l.node1 < l.node2 < |ns|
      invariant forall l :: l in links ==> Joins(ns, l.node1, l.node2, reach)
      invariant forall x, y :: 0 <= x < a && x < y < |ns| && Joins(ns, x, y, reach) ==> Link(x, y) in links
      invariant forall i, j :: 0 <= i < j < |links| ==> Precedes(links[i], links[j])
    {
      var b := a + 1;
      while b < |ns|
        invariant a + 1 <= b <= |ns|
        invariant forall l :: l in links ==> Precedes(l, Link(a, b)) && l.node1 < l.node2 < |ns|
        invariant forall l :: l in links ==> Joins(ns, l.node1, l.node2, reach)
        invariant forall x, y :: 0 <= x < |ns| && x < y < |ns| && Precedes(Link(x, y), Link(a, b)) && Joins(ns, x, y, reach) ==> Link(x, y) in links
        invariant forall i, j :: 0 <= i < j < |links| ==> Precedes(links[i], links[j])
      {
        if WithinRadius(ns[a].pos, ns[b].pos, reach) {
          if !(ns[a].pinned && ns[b].pinned) {
            links := links + [Link(a, b)];
          }
        }
        b := b + 1;
      }
      a := a + 1;
    }
  }

  /** No two links of a built link list join the same two nodes, in either
      order, and none joins a node to itself. */
  lemma NoPairTwice(links: seq<Link>, ns: seq<Node>, reach: real)
    requires LinkListOf(links, ns, reach)
    ensures forall i :: 0 <= i < |links| ==> links[i].node1 != links[i].node2
    ensures forall i, j :: 0 <= i < j < |links| ==>
              {links[i].node1, links[i].node2} != {links[j].node1, links[j].node2}
  {
  }

  /** Two pinned nodes are never linked. */
  lemma NeverPinnedToPinned(links: seq<Link>, ns: seq<Node>, reach: real, l: Link)
    requires LinkListOf(links, ns, reach) && l in links
    ensures !(ns[l.node1].pinned && ns[l.node2].pinned)
  {
  }
}
