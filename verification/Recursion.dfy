/**
 What the walk of StackDepth says, and does not say, about recursion: a cycle of calls is always reported, a cycle
 closed by a tail call may be cut without a note, and then the depth may be short.
 */
module Recursion {

  import opened StackDepth

  /**
   Without a note every cycle the root reaches goes through a tail call. If no tail edge closes a cycle, the report is
   exact, and without a note the depth is the maximum over all paths.
   */
  method RecursionIsReported(q: Query, root: Func) returns (r: Option<Found>, notes: set<Note>)
    ensures (exists t :: CallCycle(q, root, t)) ==> exists s, c :: RecursionCut(s, c) in notes
    ensures forall s, c | RecursionCut(s, c) in notes :: ClosesCycle(q, root, Edge(s, Call, c))
    ensures NoTailCloses(q, root) ==> ((exists s, c :: RecursionCut(s, c) in notes) <==> !Acyclic(q, root, {}))
    ensures NoTailCloses(q, root) && (forall s, c :: RecursionCut(s, c) !in notes) ==> Deepest(q, root, r)
  {
    ghost var cuts, p;
    r, notes, cuts, p := Worst(q, root);
    if NoTailCloses(q, root) {
      if e :| e in cuts {
        assert ClosesCycle(q, root, e);
        assert RecursionCut(e.from, e.to) in notes;
      }
    }
  }

  ghost predicate NoTailCloses(q: Query, root: Func) {
    forall s, c :: !ClosesCycle(q, root, Edge(s, Tail, c))
  }

  /** The result is the depth of a path from the root, and no path from there is deeper. */
  ghost predicate Deepest(q: Query, root: Func, r: Option<Found>) {
    && (r.Some? ==> exists p :: IsPath(q, p) && p.at == root && Depth(q.g, p) == r.value.depth)
    && forall p | IsPath(q, p) && p.at == root :: r.Some? && Depth(q.g, p) <= r.value.depth
  }

  // ----- A recursion that leaves no note

  /** 1 calls 2, and 2 tail-calls 1: each round leaves another frame of 1 on the stack. */
  const Spiral := Query(Graph(map[1 := Info(16, false, [2], [], 0), 2 := Info(32, false, [], [1], 0)]), None)

  function Rounds(n: nat): Path {
    if n == 0 then End(1) else Step(1, Call, Step(2, Tail, Rounds(n - 1)))
  }

  /** The paths of the spiral get as deep as one likes. */
  lemma {:induction false} SpiralIsUnbounded(n: nat)
    ensures IsPath(Spiral, Rounds(n)) && Rounds(n).at == 1 && Depth(Spiral.g, Rounds(n)) == 16 * (n + 1)
  {
    assert Spiral.Succ(1, Call) == {2} && Spiral.Succ(2, Tail) == {1};
    if n > 0 {
      SpiralIsUnbounded(n - 1);
      assert Spiral.HasEdge(Edge(1, Call, 2)) && Spiral.HasEdge(Edge(2, Tail, 1));
    }
  }

  lemma SpiralIsCyclic()
    ensures !Acyclic(Spiral, 1, {})
  {
    assert Spiral.Succ(1, Call) == {2} && Spiral.Succ(2, Tail) == {1};
    assert Spiral.HasEdge(Edge(1, Call, 2)) && Spiral.HasEdge(Edge(2, Tail, 1));
    assert Linked(Spiral, 1, 2, {}) && Linked(Spiral, 2, 1, {});
    assert Trail(Spiral, [1, 2, 1], {}) && [1, 2, 1][0] == [1, 2, 1][2];
  }

  lemma NoCallClosesTheSpiral(s: Func, c: Func)
    ensures !ClosesCycle(Spiral, 1, Edge(s, Call, c))
  {
    forall t | Distinct(t) && TrailBetween(Spiral, t, 1, 1) ensures 2 !in t {
      assert |t| == 1;
    }
  }

  /** The tool gives the spiral a depth and no recursion note: a tail edge is cut silently. */
  method SpiralGoesUnreported() returns (r: Option<Found>, notes: set<Note>)
    ensures r.Some? && forall s, c :: RecursionCut(s, c) !in notes
    ensures !Acyclic(Spiral, 1, {})
  {
    ghost var cuts, p;
    r, notes, cuts, p := Worst(Spiral, 1);
    forall s, c ensures RecursionCut(s, c) !in notes {
      NoCallClosesTheSpiral(s, c);
    }
    SpiralIsCyclic();
  }

  // ----- A depth that is short, without a note

  /**
   1 calls 2 and 4, 2 calls 5 and tail-calls 3, 3 tail-calls 2, 4 calls 3. The tail calls give their frames back, so
   the depth is bounded.
   */
  const Loop := Query(Graph(map[
    1 := Info(0, false, [2, 4], [], 0), 2 := Info(10, false, [5], [3], 0), 3 := Info(1, false, [], [2], 0),
    4 := Info(100, false, [3], [], 0), 5 := Info(50, false, [], [], 0)]), None)

  /** The edges of the loop. */
  lemma LoopEdges(e: Edge)
    ensures Loop.HasEdge(e) <==>
      e in {Edge(1, Call, 2), Edge(1, Call, 4), Edge(2, Call, 5), Edge(2, Tail, 3), Edge(3, Tail, 2), Edge(4, Call, 3)}
  {
  }

  function Bound(f: Func): nat {
    if f == 2 || f == 3 then 60 else if f == 5 then 50 else if f == 1 || f == 4 then 160 else 0
  }

  lemma {:induction false} LoopIsBounded(p: Path)
    requires IsPath(Loop, p)
    ensures Depth(Loop.g, p) <= Bound(p.at)
  {
    if p.Step? {
      LoopEdges(Edge(p.at, p.kind, p.rest.at));
      LoopIsBounded(p.rest);
    }
  }

  const Down := Step(1, Call, Step(4, Call, Step(3, Tail, Step(2, Call, End(5)))))

  /** The worst depth from 1 is 160. */
  lemma LoopWorst()
    ensures IsPath(Loop, Down) && Down.at == 1 && Depth(Loop.g, Down) == 160
    ensures forall p | IsPath(Loop, p) && p.at == 1 :: Depth(Loop.g, p) <= 160
  {
    LoopEdges(Edge(1, Call, 4));
    LoopEdges(Edge(4, Call, 3));
    LoopEdges(Edge(3, Tail, 2));
    LoopEdges(Edge(2, Call, 5));
    forall p | IsPath(Loop, p) && p.at == 1 ensures Depth(Loop.g, p) <= 160 {
      LoopIsBounded(p);
    }
  }

  /** Once the edge from 3 back to 2 is cut, less can be seen. */
  function Seen(f: Func): nat {
    if f == 2 then 60 else if f == 3 then 1 else if f == 5 then 50 else if f == 1 || f == 4 then 101 else 0
  }

  lemma {:induction false} LoopIsCutShort(p: Path, cuts: set<Edge>)
    requires IsPath(Loop, p) && Avoids(p, cuts) && Edge(3, Tail, 2) in cuts
    ensures Depth(Loop.g, p) <= Seen(p.at)
  {
    if p.Step? {
      LoopEdges(Edge(p.at, p.kind, p.rest.at));
      LoopIsCutShort(p.rest, cuts);
    }
  }

  /** Trails from 1: only 1 comes before 4, nothing before 1, nothing behind 5. */
  lemma LoopTrail(t: seq<Func>, i: nat)
    requires Trail(Loop, t, {}) && 0 < i < |t|
    ensures t[i] != 1 && t[i-1] != 5 && (t[i] == 4 ==> t[i-1] == 1)
  {
    assert Linked(Loop, t[i-1], t[i], {});
    var k :| Loop.HasEdge(Edge(t[i-1], k, t[i]));
    LoopEdges(Edge(t[i-1], k, t[i]));
  }

  lemma NoCallClosesTheLoop(s: Func, c: Func)
    ensures !ClosesCycle(Loop, 1, Edge(s, Call, c))
  {
    if ClosesCycle(Loop, 1, Edge(s, Call, c)) {
      LoopEdges(Edge(s, Call, c));
      var t :| TrailBetween(Loop, t, 1, s) && Distinct(t) && c in t;
      var i :| 0 <= i < |t| && t[i] == c;
      var n := |t| - 1;
      if n > 0 {
        LoopTrail(t, n);
      }
      if n > 1 {
        LoopTrail(t, n - 1);
      }
      if i < n {
        LoopTrail(t, i + 1);
      }
      assert false;
    }
  }

  /** A finished walk in which the edge from 2 to 3 was followed has the edge from 3 back to 2 cut. */
  lemma BackEdgeIsCut(v: View)
    requires Valid(Loop, 1, v, []) && 2 in v.memo && Edge(2, Tail, 3) !in v.cuts
    ensures Edge(3, Tail, 2) in v.cuts
  {
    LoopEdges(Edge(2, Tail, 3));
    LoopEdges(Edge(3, Tail, 2));
    assert Finished(Loop, 1, v, 2) && Settled(Loop, v, Edge(2, Tail, 3));
    assert Finished(Loop, 1, v, 3) && Settled(Loop, v, Edge(3, Tail, 2));
  }

  const Short := Step(1, Call, Step(4, Call, End(3)))

  lemma ShortPath(cuts: set<Edge>)
    requires Edge(1, Call, 4) !in cuts && Edge(4, Call, 3) !in cuts
    ensures IsPath(Loop, Short) && Avoids(Short, cuts) && Short.at == 1 && Depth(Loop.g, Short) == 101
  {
    LoopEdges(Edge(1, Call, 4));
    LoopEdges(Edge(4, Call, 3));
    assert Avoids(Step(4, Call, End(3)), cuts);
  }

  lemma NoCallIsCut(q: Query, v: View)
    requires q == Loop && Valid(q, 1, v, [])
    ensures forall s, c :: Edge(s, Call, c) !in v.cuts && RecursionCut(s, c) !in v.notes
  {
    forall s, c ensures Edge(s, Call, c) !in v.cuts && RecursionCut(s, c) !in v.notes {
      NoCallClosesTheLoop(s, c);
    }
  }

  /** Then the walk finds 101, and no call is noted. */
  lemma LoopIsShort(q: Query, v: View)
    requires q == Loop && Valid(q, 1, v, []) && 1 in v.memo && Edge(3, Tail, 2) in v.cuts
    ensures v.memo[1].Some? && v.memo[1].value.depth == 101
    ensures forall s, c :: RecursionCut(s, c) !in v.notes
  {
    NoCallIsCut(q, v);
    ShortPath(v.cuts);
    MemoIsDeepest(q, 1, v, Short);
    assert Finished(q, 1, v, 1);
    LoopIsCutShort(v.via[1], v.cuts);
  }

  // ----- Walks in a chosen order

  /** The edges out of a that are cut lead back to these functions. */
  ghost predicate BackFrom(v: View, a: Func, back: set<Func>) {
    match v
    case View(_, _, _, cuts, _, _, _) => forall e | e in cuts && e.from == a :: e.to in back
  }

  lemma BackStart(v: View, w: View, a: Func, back: set<Func>)
    requires v.cuts == {} && v.visiting + {a} == back && CutsBack(v, w, a)
    ensures BackFrom(w, a, back)
  {
  }

  lemma BackKept(v: View, w: View, a: Func, back: set<Func>)
    requires BackFrom(v, a, back) && a in v.memo && Keeps(v, w)
    ensures BackFrom(w, a, back) && a in w.memo
  {
  }

  lemma WentOnKeeps(v: View, w: View, s: Func)
    requires WentOn(v, w, s)
    ensures Keeps(v, w)
  {
  }

  /** The walk enters the root. */
  method EnterRoot(q: Query, root: Func) returns (w: Walker, r: Option<Found>)
    requires q.goal.None?
    ensures fresh(w) && w.q == q && w.root == root && Valid(q, root, w.Now(), [] + [root])
    ensures w.cuts == {} && w.visiting == {root} && w.memo == map[]
    ensures Exploring(q, w.Now(), root, r, End(root), Call, q.Succ(root, Call))
    ensures TrailBetween(q, [] + [root], root, root)
  {
    w := new Walker(q, root);
    assert TrailBetween(q, [] + [root], root, root);
    r := w.EnterFunc(root, []);
  }

  /** The walk enters the root and takes a first. */
  method TakeFirst(q: Query, root: Func, a: Func, b: Func) returns (w: Walker, r: Option<Found>, ghost path: Path)
    requires q.goal.None? && q.Succ(root, Call) == {a, b} && a != root && b != a
    ensures fresh(w) && w.q == q && w.root == root && Valid(q, root, w.Now(), [] + [root])
    ensures Exploring(q, w.Now(), root, r, path, Call, {b}) && BackFrom(w.Now(), a, {root, a}) && a in w.memo
  {
    w, r := EnterRoot(q, root);
    ghost var entered := w.Now();
    path := End(root);
    r, path := w.TakeEdge(root, Call, a, r, path, [] + [root], q.g.Universe(root), {a, b});
    BackStart(entered, w.Now(), a, {root, a});
    assert {a, b} - {a} == {b};
  }

  /** The walk of a function with one edge only, the call of c. */
  method VisitOne(w: Walker, a: Func, c: Func, ghost stack: seq<Func>) returns (r: Option<Found>)
    requires w.q.goal.None? && w.q.Succ(a, Call) == {c} && w.q.Succ(a, Tail) == {}
    requires Valid(w.q, w.root, w.Now(), stack) && a !in w.visiting && a !in w.memo && c !in w.visiting + {a}
    requires TrailBetween(w.q, stack + [a], w.root, a) && w.cuts == {}
    modifies w
    ensures Valid(w.q, w.root, w.Now(), stack) && Later(old(w.Now()), w.Now(), {}) && a in w.memo && r == w.memo[a]
    ensures BackFrom(w.Now(), c, old(w.visiting) + {a, c}) && c in w.memo
  {
    ghost var before := w.Now();
    r := w.EnterFunc(a, stack);
    ghost var entered, path := w.Now(), End(a);
    r, path := w.TakeEdge(a, Call, c, r, path, stack + [a], w.q.g.Universe(w.root), {c});
    ghost var after := w.Now();
    BackStart(entered, after, c, before.visiting + {a, c});
    assert {c} - {c} == {};
    CallsDone(w.q, after, a, r, path);
    w.LeaveFunc(a, r, path, stack);
    Visited(before, entered, after, w.Now(), a);
    BackKept(after, w.Now(), c, before.visiting + {a, c});
  }

  /** The walk enters the root and takes a first, whose only edge is the call of c. */
  method TakeThrough(q: Query, root: Func, a: Func, c: Func, b: Func)
    returns (w: Walker, r: Option<Found>, ghost path: Path)
    requires q.goal.None? && q.Succ(root, Call) == {a, b} && q.Succ(a, Call) == {c} && q.Succ(a, Tail) == {}
    requires a != root && b != a && c != root && c != a
    ensures fresh(w) && w.q == q && w.root == root && Valid(q, root, w.Now(), [] + [root])
    ensures Exploring(q, w.Now(), root, r, path, Call, {b}) && BackFrom(w.Now(), c, {root, a, c}) && c in w.memo
  {
    w, r := EnterRoot(q, root);
    ghost var entered, stack := w.Now(), [] + [root];
    var e := Edge(root, Call, a);
    TrailExtends(q, root, stack, root, Call, a);
    var ra := VisitOne(w, a, c, stack);
    assert entered.visiting + {a, c} == {root, a, c};
    path := TakenThrough(q, root, entered, w.Now(), e, r, {a, b});
    r := Pick(q, r, e, ra);
    assert {a, b} - {a} == {b};
  }

  /** The root comes back from its first edge. */
  lemma TakenThrough(q: Query, root: Func, v: View, w: View, e: Edge, r: Option<Found>, todo: set<Func>)
    returns (path: Path)
    requires Valid(q, root, w, [] + [root]) && Later(v, w, {}) && Exploring(q, v, root, r, End(root), Call, todo)
    requires e.from == root && e.kind == Call && root in v.visiting && e.to in todo && q.HasEdge(e) && e.to in w.memo
    ensures Exploring(q, w, root, Pick(q, r, e, w.memo[e.to]), path, Call, todo - {e.to})
  {
    assert Finished(q, root, w, e.to);
    var rest := if w.memo[e.to].Some? then w.via[e.to] else End(root);
    path := PickPath(q, r, e, w.memo[e.to], End(root), rest);
    Follow(q, root, v, w, e, r, End(root), rest, todo);
  }

  /** It takes b then, and leaves the root. */
  method TakeLast(w: Walker, root: Func, b: Func, r0: Option<Found>, ghost path0: Path, ghost a: Func,
                  ghost back: set<Func>)
    returns (r: Option<Found>, notes: set<Note>)
    requires Valid(w.q, root, w.Now(), [] + [root]) && Exploring(w.q, w.Now(), root, r0, path0, Call, {b})
    requires w.root == root && b in w.q.Succ(root, Call) && w.q.Succ(root, Tail) == {}
    requires BackFrom(w.Now(), a, back) && a in w.memo
    modifies w
    ensures Valid(w.q, root, w.Now(), []) && BackFrom(w.Now(), a, back) && a in w.memo
    ensures root in w.memo && r == w.memo[root] && notes == w.notes
  {
    ghost var before, path := w.Now(), path0;
    r, path := w.TakeEdge(root, Call, b, r0, path, [] + [root], w.q.g.Universe(root), {b});
    ghost var between := w.Now();
    WentOnKeeps(before, between, root);
    BackKept(before, between, a, back);
    assert {b} - {b} == {};
    CallsDone(w.q, between, root, r, path);
    w.LeaveFunc(root, r, path, []);
    BackKept(between, w.Now(), a, back);
    notes := w.notes;
  }

  // ----- The depth depends on the order

  /** On the loop, taking 2 first, the walk returns 101 where the worst is 160, and no note. */
  method TwoFirst() returns (r: Option<Found>, notes: set<Note>)
    ensures r.Some? && r.value.depth == 101 && forall s, c :: RecursionCut(s, c) !in notes
    ensures IsPath(Loop, Down) && Down.at == 1 && Depth(Loop.g, Down) == 160
    ensures forall p | IsPath(Loop, p) && p.at == 1 :: Depth(Loop.g, p) <= 160
  {
    LoopTargets();
    LoopWorst();
    var w, r0;
    ghost var path;
    w, r0, path := TakeFirst(Loop, 1, 2, 4);
    r, notes := TakeLast(w, 1, 4, r0, path, 2, {1, 2});
    LoopEnds(Loop, w.Now());
  }

  /** Taking 4 first it returns the worst, 160, and no note. */
  method FourFirst() returns (r: Option<Found>, notes: set<Note>)
    ensures r.Some? && r.value.depth == 160 && forall s, c :: RecursionCut(s, c) !in notes
  {
    LoopTargets();
    var w, r0;
    ghost var path;
    w, r0, path := TakeThrough(Loop, 1, 4, 3, 2);
    r, notes := TakeLast(w, 1, 2, r0, path, 3, {1, 4, 3});
    LoopIsSeen(Loop, w.Now());
  }

  lemma LoopEnds(q: Query, v: View)
    requires q == Loop && Valid(q, 1, v, []) && 1 in v.memo && 2 in v.memo && BackFrom(v, 2, {1, 2})
    ensures v.memo[1].Some? && v.memo[1].value.depth == 101
    ensures forall s, c :: RecursionCut(s, c) !in v.notes
  {
    assert Edge(2, Tail, 3) !in v.cuts;
    BackEdgeIsCut(v);
    LoopIsShort(q, v);
  }

  lemma LoopIsSeen(q: Query, v: View)
    requires q == Loop && Valid(q, 1, v, []) && 1 in v.memo && BackFrom(v, 3, {1, 4, 3})
    ensures v.memo[1].Some? && v.memo[1].value.depth == 160
    ensures forall s, c :: RecursionCut(s, c) !in v.notes
  {
    NoCallIsCut(q, v);
    LoopWorst();
    assert Avoids(Down, v.cuts) by { DownAvoids(v.cuts); }
    MemoIsDeepest(q, 1, v, Down);
    assert Finished(q, 1, v, 1);
    LoopIsBounded(v.via[1]);
  }

  lemma DownAvoids(cuts: set<Edge>)
    requires (forall s, c :: Edge(s, Call, c) !in cuts) && Edge(3, Tail, 2) !in cuts
    ensures Avoids(Down, cuts)
  {
    var tail := Step(3, Tail, Step(2, Call, End(5)));
    assert Avoids(tail.rest, cuts) && Avoids(tail, cuts);
  }

  lemma LoopTargets()
    ensures Loop.Succ(1, Call) == {2, 4} && Loop.Succ(1, Tail) == {}
    ensures Loop.Succ(4, Call) == {3} && Loop.Succ(4, Tail) == {}
  {
  }

  // ----- The notes depend on the order

  /** 1 calls 2 and 3, 2 calls 3, and 3 tail-calls 2. */
  const Turn := Query(Graph(map[
    1 := Info(0, false, [2, 3], [], 0), 2 := Info(10, false, [3], [], 0), 3 := Info(5, false, [], [2], 0)]), None)

  lemma TurnEdges(e: Edge)
    ensures Turn.HasEdge(e) <==> e in {Edge(1, Call, 2), Edge(1, Call, 3), Edge(2, Call, 3), Edge(3, Tail, 2)}
  {
  }

  lemma TurnTargets()
    ensures Turn.Succ(1, Call) == {2, 3} && Turn.Succ(1, Tail) == {}
  {
  }

  /** Of the calls only that of 3 by 2 can close a cycle. */
  lemma TurnCloses(s: Func, c: Func)
    requires ClosesCycle(Turn, 1, Edge(s, Call, c))
    ensures s == 2 && c == 3
  {
    TurnEdges(Edge(s, Call, c));
    var t :| TrailBetween(Turn, t, 1, s) && Distinct(t) && c in t;
    assert s == 1 ==> |t| == 1;
  }

  /** Taking 2 first, the walk leaves no note. */
  method NoNote() returns (r: Option<Found>, notes: set<Note>)
    ensures r.Some? && forall s, c :: RecursionCut(s, c) !in notes
  {
    TurnTargets();
    var w, r0;
    ghost var path;
    w, r0, path := TakeFirst(Turn, 1, 2, 3);
    r, notes := TakeLast(w, 1, 3, r0, path, 2, {1, 2});
    TurnUnnoted(Turn, w.Now());
  }

  lemma TurnUnnoted(q: Query, v: View)
    requires q == Turn && Valid(q, 1, v, []) && 1 in v.memo && BackFrom(v, 2, {1, 2})
    ensures v.memo[1].Some? && forall s, c :: RecursionCut(s, c) !in v.notes
  {
    assert Finished(q, 1, v, 1);
    forall s, c ensures Edge(s, Call, c) !in v.cuts {
      if Edge(s, Call, c) in v.cuts {
        TurnCloses(s, c);
      }
    }
  }

  /** Taking 3 first, it notes the call of 3 by 2. */
  method OneNote() returns (r: Option<Found>, notes: set<Note>)
    ensures r.Some? && RecursionCut(2, 3) in notes
  {
    TurnTargets();
    var w, r0;
    ghost var path;
    w, r0, path := TakeFirst(Turn, 1, 3, 2);
    r, notes := TakeLast(w, 1, 2, r0, path, 3, {1, 3});
    TurnNoted(Turn, w.Now());
  }

  lemma TurnNoted(q: Query, v: View)
    requires q == Turn && Valid(q, 1, v, []) && 1 in v.memo && 3 in v.memo && BackFrom(v, 3, {1, 3})
    ensures v.memo[1].Some? && RecursionCut(2, 3) in v.notes
  {
    TurnEdges(Edge(3, Tail, 2));
    TurnEdges(Edge(2, Call, 3));
    assert Finished(q, 1, v, 1) && Finished(q, 1, v, 3);
    assert Edge(3, Tail, 2) !in v.cuts && Settled(q, v, Edge(3, Tail, 2));
    assert Finished(q, 1, v, 2) && Settled(q, v, Edge(2, Call, 3));
  }
}
