/** The sketch's global state as one object: the node array, the active
    links (`linkArray`), the cut history (`cutHistory`) and the time of the
    last interaction, with the operations of mySketch.js that change them.
    The pointer position, the pressed key and `millis()` come in as
    parameters. */
module Sketch {
  import opened Geometry
  import opened Nodes
  import opened Topology
  import opened Construction

  /** The keys that ask for an undo while held. */
  predicate IsUndoKey(key: char) {
    key == ' ' || key == 'u' || key == 'U'
  }

  /** Every link goes from a node to a later node of an array of length `n`. */
  predicate Ordered(links: seq<Link>, n: nat) {
    forall l :: l in links ==> l.node1 < l.node2 < n
  }

  /** Links that together are the built links are each one of them. */
  lemma OrderedParts(t: State, built: seq<Link>, n: nat)
    requires Ordered(built, n) && AllLinks(t) == multiset(built)
    ensures Ordered(t.active, n) && Ordered(t.history, n)
  {
    forall l | l in t.active ensures l in built {
      assert multiset(built)[l] >= multiset(t.active)[l] > 0;
    }
    forall l | l in t.history ensures l in built {
      assert multiset(built)[l] >= multiset(t.history)[l] > 0;
    }
  }

  /** Restoring a link makes both its endpoints visible again. */
  lemma RestoredEndsVisible(before: seq<Node>, after: seq<Node>, a: seq<Link>, l: Link)
    requires Revisited(before, after, a + [l])
    requires l.node1 < |after| && l.node2 < |after|
    ensures after[l.node1].visible && after[l.node2].visible
  {
    assert (a + [l])[|a|] == l;
  }

  /** What one link's pull does to node `k`, case by case. */
  lemma PullOne(ns: seq<Node>, l: Link, k: nat)
    requires l.node1 < l.node2 < |ns| && k < |ns|
    ensures var d := Sub(ns[l.node2].pos, ns[l.node1].pos);
            ns[k].(force := Add(ns[k].force, Pull(ns, l, k))) ==
              if k == l.node1 && !ns[k].pinned then ns[k].(force := Add(ns[k].force, d))
              else if k == l.node2 && !ns[k].pinned then ns[k].(force := Sub(ns[k].force, d))
              else ns[k]
  {
  }

  /** One link's `update` changes the force of its free endpoints only, and
      by its pull. */
  lemma PullAll(ns: seq<Node>, ms: seq<Node>, l: Link)
    requires l.node1 < l.node2 < |ns| == |ms|
    requires forall k :: 0 <= k < |ms| && k != l.node1 && k != l.node2 ==> ms[k] == ns[k]
    requires var d := Sub(ns[l.node2].pos, ns[l.node1].pos);
             ms[l.node1] == (if ns[l.node1].pinned then ns[l.node1] else ns[l.node1].(force := Add(ns[l.node1].force, d))) &&
             ms[l.node2] == (if ns[l.node2].pinned then ns[l.node2] else ns[l.node2].(force := Sub(ns[l.node2].force, d)))
    ensures forall k :: 0 <= k < |ms| ==> ms[k] == ns[k].(force := Add(ns[k].force, Pull(ns, l, k)))
  {
    forall k | 0 <= k < |ms|
      ensures ms[k] == ns[k].(force := Add(ns[k].force, Pull(ns, l, k)))
    {
      PullOne(ns, l, k);
    }
  }

  class Mesh {
    const nodes: array<Node>
    var active: seq<Link>
    var history: seq<Link>
    var lastInteraction: real
    /** The links built at setup; every later state holds exactly these. */
    ghost const built: seq<Link>

    ghost predicate Valid()
      reads this
    {
      Ordered(built, nodes.Length) &&
      Ordered(active, nodes.Length) && Ordered(history, nodes.Length) &&
      AllLinks(State(active, history)) == multiset(built)
    }

    function Links(): State
      reads this
    {
      State(active, history)
    }

    function Timed(): Session
      reads this
    {
      Session(State(active, history), lastInteraction)
    }

    /** `setup`: the grid of nodes, the links between them, no cuts yet. The
        nodes keep the visible flag they are built with. */
    constructor (g: nat, width: real, height: real)
      requires g > 0
      ensures Valid() && fresh(nodes)
      ensures nodes.Length == (g + 1) * (g + 1)
      ensures forall k :: 0 <= k < nodes.Length ==>
                nodes[k] == GridNode(k % (g + 1), k / (g + 1), g, width, height)
      ensures LinkListOf(active, nodes[..], Reach(g, width))
      ensures history == [] && lastInteraction == 0.0 && built == active
    {
      var ns := CreateNodes(g, width, height);
      nodes := new Node[|ns|](k requires 0 <= k < |ns| => ns[k]);
      var links := CreateLinks(ns, g, width);
      active := links;
      history := [];
      lastInteraction := 0.0;
      built := links;
      new;
      assert nodes[..] == ns;
    }

    /** `updateNodeVisibility`: every node's `checkVisibility`. */
    method UpdateVisibility()
      modifies nodes
      ensures Revisited(old(nodes[..]), nodes[..], active)
    {
      for k := 0 to nodes.Length
        invariant forall i :: 0 <= i < k ==> nodes[i] == old(nodes[i]).(visible := Incident(active, i))
        invariant forall i :: k <= i < nodes.Length ==> nodes[i] == old(nodes[i])
      {
        nodes[k] := nodes[k].(visible := AnyIncident(active, k));
      }
    }

    /** `undo`. */
    method Undo()
      requires Valid()
      modifies this, nodes
      ensures Valid()
      ensures Links() == UndoStep(old(Links()))
      ensures lastInteraction == old(lastInteraction)
      ensures old(history) == [] ==> nodes[..] == old(nodes[..])
      ensures old(history) != [] ==> Revisited(old(nodes[..]), nodes[..], active)
      ensures old(history) != [] ==>
                var l := old(history)[|old(history)| - 1];
                nodes[l.node1].visible && nodes[l.node2].visible
    {
      if history == [] {
        return;
      }
      var tail := history[|history| - 1];
      var before := active;
      history := history[..|history| - 1];
      active := active + [tail];
      assert Links() == UndoStep(old(Links()));
      OrderedParts(State(active, history), built, nodes.Length);
      UpdateVisibility();
      RestoredEndsVisible(old(nodes[..]), nodes[..], before, tail);
    }

    /** `mouseDragged` at pointer `p`, at time `now`: record the time, cut
        every active link whose midpoint is within the knife's reach, pushing
        it onto the history, and recompute visibility. */
    method Cut(p: Vec, now: real)
      requires Valid()
      modifies this, nodes
      ensures Valid()
      ensures lastInteraction == now
      ensures Links() == CutStep(old(Links()), old(nodes[..]), p)
      ensures Revisited(old(nodes[..]), nodes[..], active)
    {
      lastInteraction := now;
      ghost var before, ns := Links(), nodes[..];
      var kept, severed := Sever(active, p);
      active := kept;
      history := history + severed;
      assert Links() == CutStep(before, ns, p);
      OrderedParts(Links(), built, nodes.Length);
      UpdateVisibility();
    }

    /** The filter of `mouseDragged`: the links out of the knife's reach, and
        those within it, each in their order in `links`. */
    method Sever(links: seq<Link>, p: Vec) returns (kept: seq<Link>, severed: seq<Link>)
      requires Within(links, nodes.Length)
      ensures kept == Kept(links, nodes[..], p)
      ensures severed == Severed(links, nodes[..], p)
    {
      ghost var ns := nodes[..];
      kept, severed := [], [];
      var i := 0;
      while i < |links|
        invariant 0 <= i <= |links|
        invariant Within(links[..i], |ns|)
        invariant kept == Kept(links[..i], ns, p)
        invariant severed == Severed(links[..i], ns, p)
      {
        var l := links[i];
        assert links[..i + 1] == links[..i] + [l];
        var middle := Midpoint(nodes[l.node1].pos, nodes[l.node2].pos);
        if DistSq(middle, p) > KNIFE_RANGE * KNIFE_RANGE {
          kept := kept + [l];
        } else {
          severed := severed + [l];
        }
        i := i + 1;
      }
      assert links[..|links|] == links;
    }

    /** Every active link's `update`: each pulls its two endpoints towards
        each other, pinned endpoints excepted. */
    method ApplyLinkForces()
      requires Ordered(active, nodes.Length)
      modifies nodes
      ensures forall k :: 0 <= k < nodes.Length ==>
                nodes[k] == old(nodes[k]).(force := Add(old(nodes[k]).force, NetForce(old(nodes[..]), active, k)))
    {
      ghost var ns := nodes[..];
      assert Within(active, |ns|);
      assert active[..0] == [];
      assert nodes[..] == Pushed(ns, active[..0]);
      for i := 0 to |active|
        invariant Within(active[..i], |ns|)
        invariant nodes[..] == Pushed(ns, active[..i])
      {
        ApplyPull(active[i]);
        PushedThenPull(ns, active[..i], active[i], nodes[..]);
        assert active[..i] + [active[i]] == active[..i + 1];
      }
      assert active[..|active|] == active;
      assert nodes[..] == Pushed(ns, active);
    }

    /** One link's `update`. */
    method ApplyPull(l: Link)
      requires l.node1 < l.node2 < nodes.Length
      modifies nodes
      ensures forall k :: 0 <= k < nodes.Length ==>
                nodes[k] == old(nodes[k]).(force := Add(old(nodes[k]).force, Pull(old(nodes[..]), l, k)))
    {
      ghost var ns := nodes[..];
      var n1, n2 := nodes[l.node1], nodes[l.node2];
      var difference := Sub(n2.pos, n1.pos);
      if !n1.pinned {
        nodes[l.node1] := n1.(force := Add(n1.force, difference));
      }
      if !n2.pinned {
        nodes[l.node2] := n2.(force := Sub(n2.force, difference));
      }
      PullAll(ns, nodes[..], l);
      forall k | 0 <= k < nodes.Length
        ensures nodes[k] == old(nodes[k]).(force := Add(old(nodes[k]).force, Pull(old(nodes[..]), l, k)))
      {
        assert nodes[k] == nodes[..][k] && old(nodes[k]) == ns[k];
      }
    }

    /** Every node's `update`. */
    method UpdateNodes()
      modifies nodes
      ensures forall k :: 0 <= k < nodes.Length ==> nodes[k] == Step(old(nodes[k]))
    {
      for k := 0 to nodes.Length
        invariant forall i :: 0 <= i < k ==> nodes[i] == Step(old(nodes[i]))
        invariant forall i :: k <= i < nodes.Length ==> nodes[i] == old(nodes[i])
      {
        nodes[k] := Step(nodes[k]);
      }
    }

    /** The physics half of `draw`: every link's `update`, then every
        node's `update`. */
    method Physics()
      requires Valid()
      modifies nodes
      ensures nodes[..] == Moved(old(nodes[..]), active)
    {
      ghost var ns := nodes[..];
      ApplyLinkForces();
      ghost var pushed := nodes[..];
      UpdateNodes();
      forall k | 0 <= k < nodes.Length
        ensures nodes[..][k] == Moved(ns, active)[k]
      {
        assert pushed[k] == ns[k].(force := Add(ns[k].force, NetForce(ns, active, k)));
        assert nodes[k] == Step(pushed[k]);
      }
    }

    /** The undo half of `draw` at time `now`: an undo when asked for, which
        counts as an interaction, then an undo when the mesh has been idle
        for longer than `IDLE_THRESHOLD`. */
    method UndoOrIdle(now: real, undoRequested: bool)
      requires Valid()
      modifies this, nodes
      ensures Valid()
      ensures Timed() == FrameStep(old(Timed()), now, undoRequested)
      ensures |history| == |old(history)| ==> nodes[..] == old(nodes[..])
      ensures |history| < |old(history)| ==> Revisited(old(nodes[..]), nodes[..], active)
    {
      if undoRequested {
        Undo();
        lastInteraction := now;
      }
      if now - lastInteraction > IDLE_THRESHOLD {
        Undo();
      }
    }

    /** `draw` without the drawing, at time `now`, with the keyboard state. */
    method Frame(now: real, keyIsPressed: bool, key: char)
      requires Valid()
      modifies this, nodes
      ensures Valid()
      ensures Timed() == FrameStep(old(Timed()), now, keyIsPressed && IsUndoKey(key))
      ensures |history| == |old(history)| ==> nodes[..] == Moved(old(nodes[..]), old(active))
      ensures |history| < |old(history)| ==> Revisited(Moved(old(nodes[..]), old(active)), nodes[..], active)
      ensures forall k :: 0 <= k < nodes.Length && old(nodes[k]).pinned ==>
                nodes[k].pos == old(nodes[k]).pos && nodes[k].vel == old(nodes[k]).vel
    {
      Physics();
      UndoOrIdle(now, keyIsPressed && IsUndoKey(key));
    }
  }
}
