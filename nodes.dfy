/** Nodes, links, the per-frame force pass and integration step, and the
    visibility rule of the mesh (mySketch.js, `node` and `link`). */
module Nodes {
  import opened Geometry

  const FORCE_MULTIPLIER: real := 0.35
  const FRICTION: real := 0.5
  const SPEED_LIMIT: real := 10.0

  /** A point mass. `force` is the accumulator the link pass writes into. */
  datatype Node = Node(pos: Vec, vel: Vec, force: Vec, pinned: bool, visible: bool)

  /** A link joins two nodes, named by their index in the node array. */
  datatype Link = Link(node1: nat, node2: nat)

  /** A freshly built node (`new node(x, y, pinned)`): at rest, no force, visible. */
  function NewNode(x: real, y: real, pinned: bool): (n: Node)
    ensures n.pos == Vec(x, y) && n.pinned == pinned && n.visible
    ensures n.vel == ZERO && n.force == ZERO
  {
    Node(Vec(x, y), ZERO, ZERO, pinned, true)
  }

  /** Every endpoint of every link names a node of an array of length `n`. */
  predicate Within(links: seq<Link>, n: nat) {
    forall l :: l in links ==> l.node1 < n && l.node2 < n
  }

  /** What one link's `update` adds to the force of node `k`: the
      displacement from `node1` to `node2` is added to `node1` and taken from
      `node2`, each only when that endpoint is not pinned. */
  function Pull(ns: seq<Node>, l: Link, k: nat): (f: Vec)
    requires l.node1 < |ns| && l.node2 < |ns|
    ensures k != l.node1 && k != l.node2 ==> f == ZERO
    ensures k < |ns| && ns[k].pinned ==> f == ZERO
  {
    var d := Sub(ns[l.node2].pos, ns[l.node1].pos);
    Add(if k == l.node1 && !ns[k].pinned then d else ZERO,
        if k == l.node2 && !ns[k].pinned then Sub(ZERO, d) else ZERO)
  }

  /** The force the whole link pass adds to node `k`, links taken in order. */
  function NetForce(ns: seq<Node>, links: seq<Link>, k: nat): (f: Vec)
    requires Within(links, |ns|)
    ensures k < |ns| && ns[k].pinned ==> f == ZERO
    ensures (forall l :: l in links ==> l.node1 != k && l.node2 != k) ==> f == ZERO
  {
    if links == [] then ZERO
    else
      var last := links[|links| - 1];
      Add(NetForce(ns, links[..|links| - 1], k), Pull(ns, last, k))
  }

  /** All nodes after the link pass over `links`. */
  ghost function Pushed(ns: seq<Node>, links: seq<Link>): (r: seq<Node>)
    requires Within(links, |ns|)
    ensures |r| == |ns|
  {
    seq(|ns|, k requires 0 <= k < |ns| => ns[k].(force := Add(ns[k].force, NetForce(ns, links, k))))
  }

  /** The link pass over `links + [l]` is the pass over `links` followed by
      the pull of `l`, read off the nodes as the first pass left them. */
  lemma PushedThenPull(ns: seq<Node>, links: seq<Link>, l: Link, ms: seq<Node>)
    requires Within(links, |ns|) && l.node1 < |ns| && l.node2 < |ns|
    requires |ms| == |ns|
    requires forall k :: 0 <= k < |ms| ==>
               ms[k] == Pushed(ns, links)[k].(force := Add(Pushed(ns, links)[k].force, Pull(Pushed(ns, links), l, k)))
    ensures Within(links + [l], |ns|)
    ensures ms == Pushed(ns, links + [l])
  {
    var before := Pushed(ns, links);
    assert (links + [l])[..|links|] == links;
    forall k | 0 <= k < |ms|
      ensures ms[k] == Pushed(ns, links + [l])[k]
    {
      assert Pull(before, l, k) == Pull(ns, l, k);
      var f, n := ns[k].force, NetForce(ns, links, k);
      assert Add(Add(f, n), Pull(ns, l, k)) == Add(f, Add(n, Pull(ns, l, k)));
    }
  }

  /** One `node.update`, without the speed clamp: a pinned node is left as it
      is; a free node moves by its velocity plus the scaled force, forgets
      the force, and keeps the damped displacement as its next velocity. */
  function Step(n: Node): (r: Node)
    ensures r.pinned == n.pinned && r.visible == n.visible
    ensures n.pinned ==> r == n
    ensures !n.pinned ==> r.force == ZERO
    ensures !n.pinned ==> Scale(Sub(r.pos, n.pos), FRICTION) == r.vel
  {
    if n.pinned then n
    else
      var vel := Add(n.vel, Scale(n.force, FORCE_MULTIPLIER));
      Node(Add(n.pos, vel), Scale(vel, FRICTION), ZERO, n.pinned, n.visible)
  }

  /** Node `k` after a whole frame of physics: every active link's pull,
      then the node's own step. */
  function Advance(ns: seq<Node>, links: seq<Link>, k: nat): (r: Node)
    requires Within(links, |ns|) && k < |ns|
    ensures ns[k].pinned ==> r == ns[k]
    ensures r.pinned == ns[k].pinned && r.visible == ns[k].visible
  {
    Step(ns[k].(force := Add(ns[k].force, NetForce(ns, links, k))))
  }

  /** All nodes after a whole frame of physics. */
  function Moved(ns: seq<Node>, links: seq<Link>): (r: seq<Node>)
    requires Within(links, |ns|)
    ensures |r| == |ns|
    ensures forall k :: 0 <= k < |ns| && ns[k].pinned ==> r[k] == ns[k]
  {
    seq(|ns|, k requires 0 <= k < |ns| => Advance(ns, links, k))
  }

  /** Some link has node `k` as one of its two endpoints. */
  ghost predicate Incident(links: seq<Link>, k: nat) {
    exists i :: 0 <= i < |links| && (links[i].node1 == k || links[i].node2 == k)
  }

  /** The `some` scan of `checkVisibility`. */
  function AnyIncident(links: seq<Link>, k: nat): (r: bool)
    ensures r <==> Incident(links, k)
  {
    if links == [] then false
    else if links[0].node1 == k || links[0].node2 == k then true
    else
      var rest := AnyIncident(links[1..], k);
      assert Incident(links[1..], k) ==> Incident(links, k) by {
        if Incident(links[1..], k) {
          var i :| 0 <= i < |links[1..]| && (links[1..][i].node1 == k || links[1..][i].node2 == k);
          assert links[i + 1] == links[1..][i];
        }
      }
      assert Incident(links, k) ==> Incident(links[1..], k) by {
        if Incident(links, k) {
          var i :| 0 <= i < |links| && (links[i].node1 == k || links[i].node2 == k);
          assert i > 0 && links[1..][i - 1] == links[i];
        }
      }
      rest
  }

  /** `after` is `before` with every node's `visible` flag recomputed
      against `links` and nothing else changed. */
  ghost predicate Revisited(before: seq<Node>, after: seq<Node>, links: seq<Link>) {
    |after| == |before| &&
    forall k :: 0 <= k < |after| ==> after[k] == before[k].(visible := Incident(links, k))
  }
}
