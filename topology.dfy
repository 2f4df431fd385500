/** The cut/undo state machine of the mesh, as values: the active link list
    (`linkArray`), the cut history (`cutHistory`) and the time of the last
    interaction, and what a drag, an undo and a frame do to them. The class
    `Sketch.Mesh` is proved to follow these functions. */
module Topology {
  import opened Geometry
  import opened Nodes

  /** Radius around the pointer within which a link's midpoint is cut. */
  const KNIFE_RANGE: real := 10.0
  /** Milliseconds without interaction after which a frame undoes a cut;
      times are `millis()` readings, which are fractional. */
  const IDLE_THRESHOLD: real := 3000.0

  /** The active links and the cut history, most recent cut last. */
  datatype State = State(active: seq<Link>, history: seq<Link>)

  /** The state together with the time of the last interaction. */
  datatype Session = Session(state: State, lastInteraction: real)

  /** The links of a state taken together: nothing is ever created or lost. */
  function AllLinks(t: State): multiset<Link> {
    multiset(t.active) + multiset(t.history)
  }

  /** The knife at `p` reaches link `l`: its midpoint is not farther than
      `KNIFE_RANGE` from `p`. */
  predicate Severs(ns: seq<Node>, l: Link, p: Vec)
    requires l.node1 < |ns| && l.node2 < |ns|
  {
    WithinRadius(Midpoint(ns[l.node1].pos, ns[l.node2].pos), p, KNIFE_RANGE)
  }

  /** The links the filter of `mouseDragged` keeps, in their order. */
  function Kept(links: seq<Link>, ns: seq<Node>, p: Vec): (r: seq<Link>)
    requires Within(links, |ns|)
    ensures |r| <= |links|
    ensures forall l :: l in r ==> l in links && !Severs(ns, l, p)
  {
    if links == [] then []
    else
      var last := links[|links| - 1];
      Kept(links[..|links| - 1], ns, p) + (if Severs(ns, last, p) then [] else [last])
  }

  /** The links the filter of `mouseDragged` pushes onto the history, in
      the order it meets them. */
  function Severed(links: seq<Link>, ns: seq<Node>, p: Vec): (r: seq<Link>)
    requires Within(links, |ns|)
    ensures |r| <= |links|
    ensures forall l :: l in r ==> l in links && Severs(ns, l, p)
  {
    if links == [] then []
    else
      var last := links[|links| - 1];
      Severed(links[..|links| - 1], ns, p) + (if Severs(ns, last, p) then [last] else [])
  }

  /** A drag at `p` over nodes `ns`: the filter's kept links become the
      active list and the severed ones are pushed onto the history. No link
      is created or lost, the old history stays underneath, and the active
      list can only shrink. */
  function CutStep(t: State, ns: seq<Node>, p: Vec): (r: State)
    requires Within(t.active, |ns|)
    ensures AllLinks(r) == AllLinks(t)
    ensures |t.history| <= |r.history| && r.history[..|t.history|] == t.history
    ensures |r.active| <= |t.active|
  {
    CutPartitions(t.active, ns, p);
    var pushed := t.history + Severed(t.active, ns, p);
    assert pushed[..|t.history|] == t.history;
    State(Kept(t.active, ns, p), pushed)
  }

  /** `undo`: with an empty history nothing happens; otherwise the last cut
      link goes back to the end of the active list. */
  function UndoStep(t: State): (r: State)
    ensures AllLinks(r) == AllLinks(t)
    ensures |r.history| == if t.history == [] then 0 else |t.history| - 1
    ensures t.history == [] ==> r == t
  {
    if t.history == [] then t
    else
      var n := |t.history|;
      assert t.history == t.history[..n - 1] + [t.history[n - 1]];
      State(t.active + [t.history[n - 1]], t.history[..n - 1])
  }

  /** The undo and idle logic at the end of `draw`: an undo request undoes
      and records the time; then, if more than `IDLE_THRESHOLD` has passed
      since the last interaction, another undo fires. */
  function FrameStep(s: Session, now: real, undoRequested: bool): (r: Session)
    ensures r.state == if undoRequested || now - s.lastInteraction > IDLE_THRESHOLD
                       then UndoStep(s.state) else s.state
    ensures r.lastInteraction == if undoRequested then now else s.lastInteraction
  {
    var s1 := if undoRequested then Session(UndoStep(s.state), now) else s;
    if now - s1.lastInteraction > IDLE_THRESHOLD then s1.(state := UndoStep(s1.state)) else s1
  }

  /** `n` undos in a row. */
  function UndoTimes(t: State, n: nat): State
    decreases n
  {
    if n == 0 then t else UndoTimes(UndoStep(t), n - 1)
  }

  /** Frames with no undo request at the given times, in order. */
  function IdleFrames(s: Session, times: seq<real>): Session
    decreases |times|
  {
    if times == [] then s else IdleFrames(FrameStep(s, times[0], false), times[1..])
  }

  function Reversed(s: seq<Link>): (r: seq<Link>)
    ensures |r| == |s|
    ensures forall i :: 0 <= i < |s| ==> r[i] == s[|s| - 1 - i]
  {
    if s == [] then [] else [s[|s| - 1]] + Reversed(s[..|s| - 1])
  }

  // ---------------------------------------------------------------------
  // Cutting

  /** The kept links are exactly the active links out of the knife's reach,
      and the severed ones exactly those within it. */
  lemma {:induction false} CutSplits(links: seq<Link>, ns: seq<Node>, p: Vec, l: Link)
    requires Within(links, |ns|) && l in links
    ensures l in Kept(links, ns, p) <==> !Severs(ns, l, p)
    ensures l in Severed(links, ns, p) <==> Severs(ns, l, p)
  {
    var init, last := links[..|links| - 1], links[|links| - 1];
    assert links == init + [last];
    if l != last {
      CutSplits(init, ns, p, l);
    }
  }

  /** The filter keeps the relative order of the links: cutting a list made
      of two parts is cutting each part and joining the results. */
  lemma CutOfJoin(xs: seq<Link>, ys: seq<Link>, ns: seq<Node>, p: Vec)
    requires Within(xs, |ns|) && Within(ys, |ns|)
    ensures Within(xs + ys, |ns|)
    ensures Kept(xs + ys, ns, p) == Kept(xs, ns, p) + Kept(ys, ns, p)
    ensures Severed(xs + ys, ns, p) == Severed(xs, ns, p) + Severed(ys, ns, p)
  {
    KeptOfJoin(xs, ys, ns, p);
    SeveredOfJoin(xs, ys, ns, p);
  }

  lemma {:induction false} KeptOfJoin(xs: seq<Link>, ys: seq<Link>, ns: seq<Node>, p: Vec)
    requires Within(xs, |ns|) && Within(ys, |ns|)
    ensures Within(xs + ys, |ns|)
    ensures Kept(xs + ys, ns, p) == Kept(xs, ns, p) + Kept(ys, ns, p)
    decreases |ys|
  {
    WithinJoin(xs, ys, |ns|);
    if ys == [] {
      assert xs + ys == xs;
    } else {
      var init, last := ys[..|ys| - 1], ys[|ys| - 1];
      assert Within(init, |ns|) && last in ys;
      var tail := if Severs(ns, last, p) then [] else [last];
      KeptOfJoin(xs, init, ns, p);
      assert Kept(xs + ys, ns, p) == Kept(xs + init, ns, p) + tail by {
        SplitLast(xs, ys);
        KeptSnoc(xs + init, last, ns, p);
      }
      assert Kept(ys, ns, p) == Kept(init, ns, p) + tail by {
        SplitLast([], ys);
        KeptSnoc(init, last, ns, p);
      }
      Regroup(Kept(xs, ns, p), Kept(init, ns, p), tail);
    }
  }

  lemma KeptSnoc(links: seq<Link>, l: Link, ns: seq<Node>, p: Vec)
    requires Within(links, |ns|) && l.node1 < |ns| && l.node2 < |ns|
    ensures Within(links + [l], |ns|)
    ensures Kept(links + [l], ns, p) == Kept(links, ns, p) + (if Severs(ns, l, p) then [] else [l])
  {
    WithinJoin(links, [l], |ns|);
    assert (links + [l])[..|links|] == links;
  }


  lemma {:induction false} SeveredOfJoin(xs: seq<Link>, ys: seq<Link>, ns: seq<Node>, p: Vec)
    requires Within(xs, |ns|) && Within(ys, |ns|)
    ensures Within(xs + ys, |ns|)
    ensures Severed(xs + ys, ns, p) == Severed(xs, ns, p) + Severed(ys, ns, p)
    decreases |ys|
  {
    WithinJoin(xs, ys, |ns|);
    if ys == [] {
      assert xs + ys == xs;
    } else {
      var init, last := ys[..|ys| - 1], ys[|ys| - 1];
      assert Within(init, |ns|) && last in ys;
      var tail := if Severs(ns, last, p) then [last] else [];
      SeveredOfJoin(xs, init, ns, p);
      assert Severed(xs + ys, ns, p) == Severed(xs + init, ns, p) + tail by {
        SplitLast(xs, ys);
        SeveredSnoc(xs + init, last, ns, p);
      }
      assert Severed(ys, ns, p) == Severed(init, ns, p) + tail by {
        SplitLast([], ys);
        SeveredSnoc(init, last, ns, p);
      }
      Regroup(Severed(xs, ns, p), Severed(init, ns, p), tail);
    }
  }

  lemma SeveredSnoc(links: seq<Link>, l: Link, ns: seq<Node>, p: Vec)
    requires Within(links, |ns|) && l.node1 < |ns| && l.node2 < |ns|
    ensures Within(links + [l], |ns|)
    ensures Severed(links + [l], ns, p) == Severed(links, ns, p) + (if Severs(ns, l, p) then [l] else [])
  {
    WithinJoin(links, [l], |ns|);
    assert (links + [l])[..|links|] == links;
  }


  /** Every active link ends up either kept or severed, once. */
  lemma {:induction false} CutPartitions(links: seq<Link>, ns: seq<Node>, p: Vec)
    requires Within(links, |ns|)
    ensures multiset(Kept(links, ns, p)) + multiset(Severed(links, ns, p)) == multiset(links)
  {
    if links != [] {
      var init := links[..|links| - 1];
      assert links == init + [links[|links| - 1]];
      CutPartitions(init, ns, p);
    }
  }

  /** A drag that reaches no link changes nothing. */
  lemma {:induction false} CutOutOfReach(t: State, ns: seq<Node>, p: Vec)
    requires Within(t.active, |ns|)
    requires forall l :: l in t.active ==> !Severs(ns, l, p)
    ensures CutStep(t, ns, p) == t
  {
    KeptAllOutOfReach(t.active, ns, p);
  }

  lemma {:induction false} KeptAllOutOfReach(links: seq<Link>, ns: seq<Node>, p: Vec)
    requires Within(links, |ns|)
    requires forall l :: l in links ==> !Severs(ns, l, p)
    ensures Kept(links, ns, p) == links && Severed(links, ns, p) == []
  {
    if links != [] {
      var init := links[..|links| - 1];
      assert links == init + [links[|links| - 1]];
      KeptAllOutOfReach(init, ns, p);
    }
  }

  // ---------------------------------------------------------------------
  // Undoing

  /** Undo is the inverse of the push a cut makes: it pops the link pushed
      last and appends it to the active list. */
  lemma UndoPops(a: seq<Link>, h: seq<Link>, l: Link)
    ensures UndoStep(State(a, h + [l])) == State(a + [l], h)
  {
    assert (h + [l])[..|h|] == h;
  }

  /** Undoing as many times as a batch of pushes pops the batch in reverse
      and leaves what was under it. */
  lemma {:induction false} UndoTimesPops(a: seq<Link>, h: seq<Link>, s: seq<Link>)
    ensures UndoTimes(State(a, h + s), |s|) == State(a + Reversed(s), h)
    decreases |s|
  {
    if s == [] {
      assert h + s == h && a + Reversed(s) == a;
    } else {
      var init, last := s[..|s| - 1], s[|s| - 1];
      var t1 := State(a + [last], h + init);
      assert UndoStep(State(a, h + s)) == t1 by {
        assert h + s == (h + init) + [last];
        UndoPops(a, h + init, last);
      }
      assert UndoTimes(State(a, h + s), |s|) == UndoTimes(t1, |init|) by {
        UndoTimesUnfold(State(a, h + s), |init|);
      }
      assert UndoTimes(t1, |init|) == State(a + Reversed(s), h) by {
        UndoTimesPops(a + [last], h, init);
        ReversedLast(a, s);
      }
    }
  }

  lemma UndoTimesUnfold(t: State, n: nat)
    ensures UndoTimes(t, n + 1) == UndoTimes(UndoStep(t), n)
  {
  }

  lemma ReversedLast(a: seq<Link>, s: seq<Link>)
    requires s != []
    ensures a + [s[|s| - 1]] + Reversed(s[..|s| - 1]) == a + Reversed(s)
  {
    var x, r := s[|s| - 1], Reversed(s[..|s| - 1]);
    assert Reversed(s) == [x] + r;
    Regroup(a, [x], r);
  }

  /** Links of two lists that each name nodes of `ns` name nodes of `ns`. */
  lemma WithinJoin(xs: seq<Link>, ys: seq<Link>, n: nat)
    requires Within(xs, n) && Within(ys, n)
    ensures Within(xs + ys, n)
  {
  }

  /** Splitting off the last link of the second part of a join. */
  lemma SplitLast(xs: seq<Link>, ys: seq<Link>)
    requires ys != []
    ensures xs + ys == (xs + ys[..|ys| - 1]) + [ys[|ys| - 1]]
  {
    assert [] + ys == ys;
  }

  lemma Regroup(a: seq<Link>, b: seq<Link>, c: seq<Link>)
    ensures a + b + c == a + (b + c)
  {
  }

  /** Undoing once per severed link after a drag restores the history the
      drag started from and brings the severed links back, newest first. */
  lemma UndoReversesCut(t: State, ns: seq<Node>, p: Vec)
    requires Within(t.active, |ns|)
    ensures UndoTimes(CutStep(t, ns, p), |Severed(t.active, ns, p)|)
         == State(Kept(t.active, ns, p) + Reversed(Severed(t.active, ns, p)), t.history)
  {
    UndoTimesPops(Kept(t.active, ns, p), t.history, Severed(t.active, ns, p));
  }

  /** Last in, first out: after one drag cuts `l1` and a later drag cuts
      `l2`, the first undo restores `l2` and keeps `l1` in the history; the
      second restores `l1`. */
  lemma LastCutFirstUndone(t: State, ns1: seq<Node>, p1: Vec, ns2: seq<Node>, p2: Vec, l1: Link, l2: Link)
    requires Within(t.active, |ns1|) && Severed(t.active, ns1, p1) == [l1]
    requires Within(Kept(t.active, ns1, p1), |ns2|)
    requires Severed(Kept(t.active, ns1, p1), ns2, p2) == [l2]
    ensures UndoStep(CutStep(CutStep(t, ns1, p1), ns2, p2))
         == State(Kept(Kept(t.active, ns1, p1), ns2, p2) + [l2], t.history + [l1])
    ensures UndoStep(UndoStep(CutStep(CutStep(t, ns1, p1), ns2, p2)))
         == State(Kept(Kept(t.active, ns1, p1), ns2, p2) + [l2, l1], t.history)
  {
    var t1 := CutStep(t, ns1, p1);
    assert t1 == State(Kept(t.active, ns1, p1), t.history + [l1]);
    var t2 := CutStep(t1, ns2, p2);
    assert t2 == State(Kept(Kept(t.active, ns1, p1), ns2, p2), t.history + [l1] + [l2]);
    UndoTwice(t2.active, t.history, l1, l2);
  }

  lemma UndoTwice(a: seq<Link>, h: seq<Link>, l1: Link, l2: Link)
    ensures UndoStep(State(a, h + [l1] + [l2])) == State(a + [l2], h + [l1])
    ensures UndoStep(UndoStep(State(a, h + [l1] + [l2]))) == State(a + [l2, l1], h)
  {
    UndoPops(a, h + [l1], l2);
    UndoPops(a + [l2], h, l1);
    assert a + [l2] + [l1] == a + [l2, l1];
  }

  /** Enough undos empty the history, every cut link back in the active list
      in reverse order of cutting; after that an undo changes nothing. */
  lemma {:induction false} Drained(t: State, n: nat)
    requires n >= |t.history|
    ensures UndoTimes(t, n) == State(t.active + Reversed(t.history), [])
    decreases n
  {
    var h := t.history;
    if h == [] {
      assert t.active + Reversed(h) == t.active;
      UndoTimesIdle(t, n);
    } else {
      var k := |h|;
      assert h == h[..k - 1] + [h[k - 1]];
      UndoPops(t.active, h[..k - 1], h[k - 1]);
      var t1 := UndoStep(t);
      assert t1 == State(t.active + [h[k - 1]], h[..k - 1]);
      Drained(t1, n - 1);
      ReversedLast(t.active, h);
    }
  }

  lemma {:induction false} UndoTimesIdle(t: State, n: nat)
    requires t.history == []
    ensures UndoTimes(t, n) == t
  {
    if n > 0 {
      UndoTimesIdle(t, n - 1);
    }
  }

  lemma {:induction false} UndoTimesAdd(t: State, m: nat, n: nat)
    ensures UndoTimes(t, m + n) == UndoTimes(UndoTimes(t, m), n)
    decreases m
  {
    if m > 0 {
      var t1, k := UndoStep(t), m - 1;
      assert m + n == (k + n) + 1;
      assert UndoTimes(t, m + n) == UndoTimes(t1, k + n);
      assert UndoTimes(t, m) == UndoTimes(t1, k);
      UndoTimesAdd(t1, k, n);
    }
  }

  // ---------------------------------------------------------------------
  // Frames

  /** A frame undoes at most one cut, and an idle frame does not count as
      an interaction. */
  lemma FrameUndoesAtMostOnce(s: Session, now: real, undoRequested: bool)
    ensures AllLinks(FrameStep(s, now, undoRequested).state) == AllLinks(s.state)
    ensures |FrameStep(s, now, undoRequested).state.history| >= |s.state.history| - 1
  {
  }

  /** Idle frames undo one cut each and leave the interaction time alone. */
  lemma {:induction false} IdleFramesUndo(s: Session, times: seq<real>)
    requires forall i :: 0 <= i < |times| ==> times[i] - s.lastInteraction > IDLE_THRESHOLD
    ensures IdleFrames(s, times) == Session(UndoTimes(s.state, |times|), s.lastInteraction)
    decreases |times|
  {
    if times != [] {
      var s1 := FrameStep(s, times[0], false);
      assert s1 == Session(UndoStep(s.state), s.lastInteraction);
      IdleFramesUndo(s1, times[1..]);
    }
  }

  /** Once more idle frames have passed than there were cuts, the whole
      history has been replayed in reverse and further idle frames are
      no-ops. */
  lemma IdleFramesDrain(s: Session, times: seq<real>)
    requires forall i :: 0 <= i < |times| ==> times[i] - s.lastInteraction > IDLE_THRESHOLD
    requires |times| >= |s.state.history|
    ensures IdleFrames(s, times).state
         == State(s.state.active + Reversed(s.state.history), [])
    ensures IdleFrames(s, times).lastInteraction == s.lastInteraction
  {
    IdleFramesUndo(s, times);
    Drained(s.state, |times|);
  }
}
