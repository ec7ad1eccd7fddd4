/**
 Worst-case stack depth over a call graph: the memoised depth-first walk of
 tools/elf-stack-depth/elf-stack-depth.py (worst / walk), call edges, tail edges,
 goal mode and recursive graphs included.
 */
module StackDepth {

  datatype Option<+T> = None | Some(value: T)

  /** A function is named by its start address. */
  type Func = nat

  /** What Elf.frame and Elf.edges report for one function. */
  datatype Info = Info(frame: nat, unbounded: bool, calls: seq<Func>, tails: seq<Func>, indirect: nat)

  datatype Kind = Call | Tail

  datatype Edge = Edge(from: Func, kind: Kind, to: Func)

  /** A call target outside the disassembly has an empty body: no frame, no edges. */
  datatype Graph = Graph(infos: map<Func, Info>) {
    function At(s: Func): Info {
      if s in infos then infos[s] else Info(0, false, [], [], 0)
    }

    function Targets(s: Func, k: Kind): set<Func> {
      if k == Call then set c | c in At(s).calls else set c | c in At(s).tails
    }

    /** Every function a walk from root can name. */
    function Universe(root: Func): set<Func> {
      {root} + infos.Keys
      + (set s, c | s in infos && c in infos[s].calls :: c)
      + (set s, c | s in infos && c in infos[s].tails :: c)
    }
  }

  /** A question to the tool: the deepest path from anywhere, or the deepest one ending at a goal. */
  datatype Query = Query(g: Graph, goal: Option<Func>) {
    /** The walk stops at the goal. */
    function Succ(s: Func, k: Kind): set<Func> {
      if goal == Some(s) then {} else g.Targets(s, k)
    }

    predicate HasEdge(e: Edge) {
      e.to in Succ(e.from, e.kind)
    }

    predicate MayEnd(s: Func) {
      goal.None? || goal.value == s
    }

    /** Stack still held by s while its callee runs: a tail call gives the frame back first. */
    function Held(s: Func, k: Kind): nat {
      if k == Call then g.At(s).frame else 0
    }
  }

  // ----- Reference: paths and trails of the call graph

  datatype Path = End(at: Func) | Step(at: Func, kind: Kind, rest: Path)

  ghost predicate IsPath(q: Query, p: Path) {
    match p
    case End(f) => q.MayEnd(f)
    case Step(f, k, rest) => q.HasEdge(Edge(f, k, rest.at)) && IsPath(q, rest)
  }

  /** Frames of the functions left by a call edge, plus the frame of the last function. */
  ghost function Depth(g: Graph, p: Path): nat {
    match p
    case End(f) => g.At(f).frame
    case Step(f, k, rest) => (if k.Call? then g.At(f).frame else 0) + Depth(g, rest)
  }

  ghost function Funcs(p: Path): set<Func> {
    match p
    case End(f) => {f}
    case Step(f, _, rest) => {f} + Funcs(rest)
  }

  ghost predicate Simple(p: Path) {
    p.Step? ==> p.at !in Funcs(p.rest) && Simple(p.rest)
  }

  ghost predicate Avoids(p: Path, cuts: set<Edge>) {
    p.Step? ==> Edge(p.at, p.kind, p.rest.at) !in cuts && Avoids(p.rest, cuts)
  }

  /** The (function, frame) list the tool prints for a path. */
  ghost function Listing(g: Graph, p: Path): seq<(Func, nat)> {
    match p
    case End(f) => [(f, g.At(f).frame)]
    case Step(f, k, rest) => [(f, if k.Call? then g.At(f).frame else 0)] + Listing(g, rest)
  }

  ghost predicate Linked(q: Query, s: Func, c: Func, cuts: set<Edge>) {
    exists k :: q.HasEdge(Edge(s, k, c)) && Edge(s, k, c) !in cuts
  }

  /** A walk along edges of the graph, none of them in cuts. */
  ghost predicate Trail(q: Query, t: seq<Func>, cuts: set<Edge>) {
    |t| > 0 && forall i | 0 < i < |t| :: Linked(q, t[i-1], t[i], cuts)
  }

  ghost predicate Distinct(t: seq<Func>) {
    forall i, j | 0 <= i < j < |t| :: t[i] != t[j]
  }

  ghost predicate TrailBetween(q: Query, t: seq<Func>, s: Func, f: Func) {
    Trail(q, t, {}) && t[0] == s && t[|t|-1] == f
  }

  ghost predicate Reaches(q: Query, s: Func, f: Func) {
    exists t :: TrailBetween(q, t, s, f)
  }

  /** Every trail from root that keeps off cuts meets each function once. */
  ghost predicate Acyclic(q: Query, root: Func, cuts: set<Edge>) {
    forall t | Trail(q, t, cuts) && t[0] == root :: Distinct(t)
  }

  /** The edge leads from the end of a simple trail back into that trail. */
  ghost predicate ClosesCycle(q: Query, root: Func, e: Edge) {
    q.HasEdge(e) && exists t :: TrailBetween(q, t, root, e.from) && Distinct(t) && e.to in t
  }

  /** A cycle of call edges that the root reaches; it comes back to its first function. */
  ghost predicate CallCycle(q: Query, root: Func, t: seq<Func>) {
    && |t| > 1 && t[0] == t[|t|-1] && Reaches(q, root, t[0])
    && forall i | 0 < i < |t| :: CallEdge(q, t, i)
  }

  ghost predicate CallEdge(q: Query, t: seq<Func>, i: int)
    requires 0 < i < |t|
  {
    q.HasEdge(Edge(t[i-1], Call, t[i]))
  }

  // ----- The walk

  /** depth and the listed path: the tuples kept in memo. */
  datatype Found = Found(depth: nat, path: seq<(Func, nat)>)

  datatype Note = Unbounded(f: Func) | Indirect(n: nat, f: Func) | RecursionCut(from: Func, to: Func)

  /** A result is the depth and listing of a real simple path that uses no cut edge. */
  ghost predicate Witnesses(q: Query, s: Func, r: Found, p: Path, cuts: set<Edge>) {
    && p.at == s && IsPath(q, p) && Simple(p) && Avoids(p, cuts)
    && r.depth == Depth(q.g, p) && r.path == Listing(q.g, p)
  }

  /** b is at least as deep as going on through a result of the edge's target. */
  predicate Covers(q: Query, b: Option<Found>, s: Func, k: Kind, r: Option<Found>) {
    r.Some? ==> b.Some? && b.value.depth >= q.Held(s, k) + r.value.depth
  }

  /** The walk's state: memo, visiting and notes, and beside them what the proof follows. */
  datatype View = View(
    memo: map<Func, Option<Found>>,
    visiting: set<Func>,
    notes: set<Note>,
    cuts: set<Edge>,          // edges skipped because their target was being visited
    via: map<Func, Path>,     // the path behind each memoised result
    rank: map<Func, nat>,     // finishing order
    clock: nat)

  /** An edge out of a finished function was cut, or led to an earlier finished one and counts. */
  ghost predicate Settled(q: Query, v: View, e: Edge)
    requires e.from in v.memo
  {
    || (e in v.cuts && e.to in v.memo.Keys + v.visiting)
    || (e !in v.cuts && e.to in v.memo && e.to in v.rank && e.from in v.rank && v.rank[e.to] < v.rank[e.from]
        && Covers(q, v.memo[e.from], e.from, e.kind, v.memo[e.to]))
  }

  ghost predicate Finished(q: Query, root: Func, v: View, f: Func)
    requires f in v.memo
  {
    && Reaches(q, root, f)
    && f in v.rank && v.rank[f] < v.clock
    && (v.memo[f].Some? ==> f in v.via && Funcs(v.via[f]) <= v.memo.Keys
                            && Witnesses(q, f, v.memo[f].value, v.via[f], v.cuts))
    && (q.MayEnd(f) ==> v.memo[f].Some? && v.memo[f].value.depth >= q.g.At(f).frame)
    && forall e: Edge | e.from == f && q.HasEdge(e) :: Settled(q, v, e)
  }

  /** The notes say exactly what was met among the functions entered so far. */
  ghost predicate NotesExact(q: Query, v: View, entered: set<Func>) {
    && (forall f :: Unbounded(f) in v.notes <==> f in entered && q.g.At(f).unbounded)
    && (forall f, n :: Indirect(n, f) in v.notes <==> f in entered && n == q.g.At(f).indirect && n > 0)
    && (forall s, c :: RecursionCut(s, c) in v.notes <==> Edge(s, Call, c) in v.cuts)
  }

  /** The invariant of the walk while the functions of stack are being visited. */
  ghost predicate Valid(q: Query, root: Func, v: View, stack: seq<Func>) {
    match v
    case View(memo, visiting, _, cuts, _, _, _) =>
      && visiting == (set f | f in stack) && Distinct(stack)
      && memo.Keys !! visiting
      && (stack != [] ==> TrailBetween(q, stack, root, stack[|stack|-1]))
      && (forall f | f in memo :: Finished(q, root, v, f))
      && (forall e | e in cuts :: e.from in memo.Keys + visiting && ClosesCycle(q, root, e))
      && (q.goal.Some? ==> q.goal.value !in visiting)
      && NotesExact(q, v, memo.Keys + visiting)
  }

  /** v's finished functions keep their results in w, and no edge out of one is cut later. */
  ghost predicate Keeps(v: View, w: View) {
    match v
    case View(memo, visiting, _, cuts, via, rank, clock) =>
      && memo.Keys <= w.memo.Keys
      && (forall f | f in memo :: w.memo[f] == memo[f])
      && (forall f | f in memo && f in via :: f in w.via && w.via[f] == via[f])
      && (forall f | f in memo && f in rank :: f in w.rank && w.rank[f] == rank[f])
      && clock <= w.clock
      && cuts <= w.cuts && (forall e | e in w.cuts - cuts :: e.from !in memo)
      && memo.Keys + visiting <= w.memo.Keys + w.visiting
  }

  lemma KeepsTransitive(u: View, v: View, w: View)
    requires Keeps(u, v) && Keeps(v, w)
    ensures Keeps(u, w)
  {
  }

  /** The walk went on: the stack is the same, and edges cut meanwhile leave finished functions or top. */
  ghost predicate Later(v: View, w: View, top: set<Func>) {
    match w
    case View(_, visiting, _, cuts, _, _, _) =>
      && Keeps(v, w) && visiting == v.visiting
      && forall e | e in cuts - v.cuts :: e.from !in visiting - top
  }

  /** The edges out of s cut meanwhile lead to s or to what was being visited before. */
  ghost predicate CutsBack(v: View, w: View, s: Func) {
    forall e | e in w.cuts - v.cuts && e.from == s :: e.to in v.visiting + {s}
  }

  /** The walk went on among the edges of s. */
  ghost predicate WentOn(v: View, w: View, s: Func) {
    match w
    case View(_, _, _, _, _, _, _) => Later(v, w, {s}) && CutsBack(v, w, s)
  }

  lemma WentOnTransitive(u: View, v: View, w: View, s: Func)
    requires WentOn(u, v, s) && WentOn(v, w, s)
    ensures WentOn(u, w, s)
  {
    KeepsTransitive(u, v, w);
  }

  /** Following an edge of s cuts none of the edges of s. */
  lemma FollowedIsWentOn(v: View, w: View, s: Func)
    requires Later(v, w, {}) && s in v.visiting
    ensures WentOn(v, w, s)
  {
  }

  /** s was entered, explored and left again. */
  lemma Visited(v0: View, v1: View, v2: View, v3: View, s: Func)
    requires s !in v0.visiting && v1.visiting == v0.visiting + {s} && v1.cuts == v0.cuts
    requires Keeps(v0, v1) && WentOn(v1, v2, s) && Keeps(v2, v3)
    requires v3.visiting == v2.visiting - {s} && v3.cuts == v2.cuts
    ensures Later(v0, v3, {}) && CutsBack(v0, v3, s)
  {
    KeepsTransitive(v0, v1, v2);
    KeepsTransitive(v0, v2, v3);
  }

  /** Once the goal has been met, every function on the way to it has a result. */
  ghost predicate GoalNews(q: Query, v: View, w: View, r: Option<Found>) {
    q.goal.Some? && q.goal.value in w.memo && q.goal.value !in v.memo ==> r.Some?
  }

  lemma GoalNewsAdds(q: Query, u: View, v: View, w: View, r: Option<Found>, r': Option<Found>)
    requires GoalNews(q, u, v, r) && GoalNews(q, v, w, r') && (r.Some? ==> r'.Some?)
    ensures GoalNews(q, u, w, r')
  {
  }

  lemma {:induction false} AvoidsMore(p: Path, cuts: set<Edge>, more: set<Edge>)
    requires Avoids(p, cuts)
    requires forall e | e in more - cuts :: e.from !in Funcs(p)
    ensures Avoids(p, more)
  {
    if p.Step? {
      AvoidsMore(p.rest, cuts, more);
    }
  }

  lemma FinishedKept(q: Query, root: Func, v: View, w: View, f: Func)
    requires f in v.memo && Finished(q, root, v, f) && Keeps(v, w)
    ensures Finished(q, root, w, f)
  {
    if v.memo[f].Some? {
      AvoidsMore(v.via[f], v.cuts, w.cuts);
    }
    forall e: Edge | e.from == f && q.HasEdge(e)
      ensures Settled(q, w, e)
    {
      assert Settled(q, v, e);
    }
  }

  /** An edge of s still to be followed while the edges of kind k to todo are. */
  predicate Pending(e: Edge, k: Kind, todo: set<Func>) {
    (e.kind == k && e.to in todo) || (e.kind == Tail && k == Call)
  }

  /** What the loops over the edges of s have established: best covers every edge followed so far. */
  ghost predicate Exploring(q: Query, v: View, s: Func, best: Option<Found>, bp: Path, k: Kind, todo: set<Func>) {
    match v
    case View(memo, visiting, _, cuts, _, _, _) =>
      && (best.Some? ==> Funcs(bp) <= memo.Keys + {s} && Witnesses(q, s, best.value, bp, cuts))
      && (q.MayEnd(s) ==> best.Some? && best.value.depth >= q.g.At(s).frame)
      && (forall e: Edge | e.from == s && e in cuts :: !Pending(e, k, todo))
      && (forall e: Edge | e.from == s && q.HasEdge(e) && !Pending(e, k, todo) ::
            || (e in cuts && e.to in memo.Keys + visiting)
            || (e !in cuts && e.to in memo && Covers(q, best, s, e.kind, memo[e.to])))
  }

  lemma DistinctSnoc(t: seq<Func>, s: Func)
    ensures Distinct(t + [s]) <==> Distinct(t) && s !in t
  {
    var u := t + [s];
    assert forall i | 0 <= i < |t| :: u[i] == t[i];
    assert u[|t|] == s;
  }

  lemma TrailExtends(q: Query, root: Func, stack: seq<Func>, s: Func, k: Kind, c: Func)
    requires TrailBetween(q, stack, root, s) && q.HasEdge(Edge(s, k, c))
    ensures TrailBetween(q, stack + [c], root, c)
  {
    var t := stack + [c];
    assert Linked(q, s, c, {});
    forall i | 0 < i < |t| ensures Linked(q, t[i-1], t[i], {}) {
      if i < |stack| { assert t[i-1] == stack[i-1] && t[i] == stack[i]; }
    }
  }

  function NotesOf(q: Query, s: Func): set<Note> {
    (if q.g.At(s).unbounded then {Unbounded(s)} else {})
    + (if q.g.At(s).indirect > 0 then {Indirect(q.g.At(s).indirect, s)} else {})
  }

  lemma AllKept(q: Query, root: Func, v: View, w: View, stack: seq<Func>)
    requires Valid(q, root, v, stack) && Keeps(v, w)
    ensures forall f | f in v.memo :: Finished(q, root, w, f)
  {
    forall f | f in v.memo ensures Finished(q, root, w, f) {
      FinishedKept(q, root, v, w, f);
    }
  }

  /** The notes of a function entered are added. */
  lemma NotesGrow(q: Query, v: View, w: View, entered: set<Func>, s: Func)
    requires NotesExact(q, v, entered) && w.notes == v.notes + NotesOf(q, s) && w.cuts == v.cuts
    ensures NotesExact(q, w, entered + {s})
  {
  }

  /** Entering s: nothing is known of it yet, and none of its edges is cut. */
  lemma Enter(q: Query, root: Func, v: View, w: View, stack: seq<Func>, s: Func, best: Option<Found>)
    requires Valid(q, root, v, stack) && s !in v.memo && s !in v.visiting && q.goal != Some(s)
    requires TrailBetween(q, stack + [s], root, s)
    requires w == v.(visiting := v.visiting + {s}, notes := v.notes + NotesOf(q, s))
    requires best == if q.goal.Some? then None else Some(Found(q.g.At(s).frame, [(s, q.g.At(s).frame)]))
    ensures Valid(q, root, w, stack + [s]) && Keeps(v, w)
    ensures Exploring(q, w, s, best, End(s), Call, q.Succ(s, Call))
  {
    AllKept(q, root, v, w, stack);
    NotesGrow(q, v, w, v.memo.Keys + v.visiting, s);
    assert v.memo.Keys + v.visiting + {s} == w.memo.Keys + w.visiting;
  }

  /** With the call edges done, the tail edges are next. */
  lemma CallsDone(q: Query, v: View, s: Func, best: Option<Found>, bp: Path)
    requires Exploring(q, v, s, best, bp, Call, {})
    ensures Exploring(q, v, s, best, bp, Tail, q.Succ(s, Tail))
  {
    assert forall e: Edge | Pending(e, Tail, q.Succ(s, Tail)) :: Pending(e, Call, {});
    assert forall e: Edge | e.from == s && q.HasEdge(e) && Pending(e, Call, {}) :: Pending(e, Tail, q.Succ(s, Tail));
  }

  lemma CutExploring(q: Query, v: View, w: View, e: Edge, best: Option<Found>, bp: Path, todo: set<Func>)
    requires Exploring(q, v, e.from, best, bp, e.kind, todo)
    requires e.to in todo && q.HasEdge(e) && e.to in v.visiting && e.to !in v.memo && e.from !in v.memo
    requires w.memo == v.memo && w.visiting == v.visiting && w.cuts == v.cuts + {e}
    ensures Exploring(q, w, e.from, best, bp, e.kind, todo - {e.to})
  {
    if best.Some? && bp.Step? {
      assert bp.rest.at in Funcs(bp.rest);
      AvoidsMore(bp.rest, v.cuts, w.cuts);
    }
  }

  /** Skipping an edge back into the stack. */
  lemma Cut(q: Query, root: Func, v: View, w: View, stack: seq<Func>, e: Edge)
    requires Valid(q, root, v, stack) && stack != [] && stack[|stack|-1] == e.from
    requires q.HasEdge(e) && e.to in v.visiting
    requires w == v.(cuts := v.cuts + {e},
                     notes := v.notes + if e.kind == Call then {RecursionCut(e.from, e.to)} else {})
    ensures Valid(q, root, w, stack) && Keeps(v, w)
  {
    assert e.from in v.visiting;
    AllKept(q, root, v, w, stack);
    assert ClosesCycle(q, root, e);
  }

  /** The better of the best path so far and the one going on through e. */
  function Pick(q: Query, best: Option<Found>, e: Edge, r: Option<Found>): Option<Found> {
    var held := q.Held(e.from, e.kind);
    if r.Some? && (best.None? || held + r.value.depth > best.value.depth)
    then Some(Found(held + r.value.depth, [(e.from, held)] + r.value.path))
    else best
  }

  ghost function PickPath(q: Query, best: Option<Found>, e: Edge, r: Option<Found>, bp: Path, rest: Path): Path {
    if Pick(q, best, e, r) == best then bp else Step(e.from, e.kind, rest)
  }

  /** Coming back from an edge that was followed. */
  lemma Follow(q: Query, root: Func, v: View, w: View, e: Edge, best: Option<Found>, bp: Path, rest: Path, todo: set<Func>)
    requires Exploring(q, v, e.from, best, bp, e.kind, todo)
    requires Later(v, w, {}) && e.from in v.visiting && e.from !in w.memo
    requires e.to in todo && q.HasEdge(e) && e.to in w.memo && Finished(q, root, w, e.to)
    requires w.memo[e.to].Some? ==> rest == w.via[e.to]
    ensures var r := w.memo[e.to];
            Exploring(q, w, e.from, Pick(q, best, e, r), PickPath(q, best, e, r, bp, rest), e.kind, todo - {e.to})
  {
    if best.Some? {
      AvoidsMore(bp, v.cuts, w.cuts);
    }
  }

  lemma StackPops(q: Query, root: Func, stack: seq<Func>, s: Func)
    requires Distinct(stack + [s]) && TrailBetween(q, stack + [s], root, s)
    ensures Distinct(stack) && s !in stack
    ensures (set f | f in stack + [s]) - {s} == set f | f in stack
    ensures stack != [] ==> TrailBetween(q, stack, root, stack[|stack|-1])
  {
    DistinctSnoc(stack, s);
    var full := stack + [s];
    assert forall f | f in full :: f in stack || f == s;
    assert forall f | f in stack :: f in full;
    forall i | 0 < i < |stack| ensures Linked(q, stack[i-1], stack[i], {}) {
      assert Linked(q, full[i-1], full[i], {});
    }
  }

  lemma Finishes(q: Query, root: Func, v: View, w: View, s: Func, best: Option<Found>, bp: Path)
    requires Exploring(q, v, s, best, bp, Tail, {}) && Reaches(q, root, s) && s !in v.memo
    requires forall f | f in v.memo :: f in v.rank && v.rank[f] < v.clock
    requires w == v.(memo := v.memo[s := best], visiting := v.visiting - {s},
                     via := v.via[s := bp], rank := v.rank[s := v.clock], clock := v.clock + 1)
    ensures Finished(q, root, w, s)
  {
    forall e: Edge | e.from == s && q.HasEdge(e) ensures Settled(q, w, e) {
      assert !Pending(e, Tail, {});
    }
  }

  lemma LeavingKeeps(v: View, w: View, s: Func)
    requires s !in v.memo && w.memo.Keys == v.memo.Keys + {s} && w.visiting == v.visiting - {s}
    requires forall f | f in v.memo :: w.memo[f] == v.memo[f]
    requires forall f | f in v.via && f != s :: f in w.via && w.via[f] == v.via[f]
    requires forall f | f in v.rank && f != s :: f in w.rank && w.rank[f] == v.rank[f]
    requires w.clock == v.clock + 1 && w.cuts == v.cuts
    ensures Keeps(v, w)
  {
  }

  lemma AllFinish(q: Query, root: Func, v: View, w: View, stack: seq<Func>, s: Func, best: Option<Found>, bp: Path)
    requires Valid(q, root, v, stack + [s]) && Exploring(q, v, s, best, bp, Tail, {}) && Keeps(v, w)
    requires w == v.(memo := v.memo[s := best], visiting := v.visiting - {s},
                     via := v.via[s := bp], rank := v.rank[s := v.clock], clock := v.clock + 1)
    ensures forall f | f in w.memo :: Finished(q, root, w, f)
  {
    assert (stack + [s])[|stack|] == s;
    AllKept(q, root, v, w, stack + [s]);
    Finishes(q, root, v, w, s, best, bp);
  }

  lemma LeavingIsValid(q: Query, root: Func, v: View, w: View, stack: seq<Func>, s: Func)
    requires Valid(q, root, v, stack + [s]) && forall f | f in w.memo :: Finished(q, root, w, f)
    requires w.memo.Keys == v.memo.Keys + {s} && w.visiting == v.visiting - {s} && w.cuts == v.cuts && w.notes == v.notes
    ensures Valid(q, root, w, stack)
  {
    assert (stack + [s])[|stack|] == s;
    StackPops(q, root, stack, s);
    assert w.memo.Keys + w.visiting == v.memo.Keys + v.visiting;
  }

  /** Leaving s: its result is memoised and it gets the latest rank. */
  lemma Leave(q: Query, root: Func, v: View, w: View, stack: seq<Func>, s: Func, best: Option<Found>, bp: Path)
    requires Valid(q, root, v, stack + [s]) && Exploring(q, v, s, best, bp, Tail, {})
    requires w == v.(memo := v.memo[s := best], visiting := v.visiting - {s},
                     via := v.via[s := bp], rank := v.rank[s := v.clock], clock := v.clock + 1)
    ensures Valid(q, root, w, stack) && Keeps(v, w)
  {
    assert (stack + [s])[|stack|] == s;
    LeavingKeeps(v, w, s);
    AllFinish(q, root, v, w, stack, s, best, bp);
    LeavingIsValid(q, root, v, w, stack, s);
  }

  /** Reaching the goal: it is memoised at once. */
  lemma ReachGoal(q: Query, root: Func, v: View, w: View, stack: seq<Func>, s: Func)
    requires Valid(q, root, v, stack) && s !in v.memo && s !in v.visiting && q.goal == Some(s)
    requires TrailBetween(q, stack + [s], root, s)
    requires w == v.(memo := v.memo[s := Some(Found(q.g.At(s).frame, [(s, q.g.At(s).frame)]))],
                     notes := v.notes + NotesOf(q, s),
                     via := v.via[s := End(s)], rank := v.rank[s := v.clock], clock := v.clock + 1)
    ensures Valid(q, root, w, stack) && Keeps(v, w)
  {
    AllKept(q, root, v, w, stack);
    NotesGrow(q, v, w, v.memo.Keys + v.visiting, s);
    assert v.memo.Keys + v.visiting + {s} == w.memo.Keys + w.visiting;
    assert Finished(q, root, w, s);
  }

  lemma TargetInUniverse(q: Query, root: Func, s: Func, k: Kind, c: Func)
    requires c in q.g.Targets(s, k)
    ensures c in q.g.Universe(root)
  {
  }

  class Walker {
    const q: Query
    ghost const root: Func
    var memo: map<Func, Option<Found>>
    var visiting: set<Func>
    var notes: set<Note>
    ghost var cuts: set<Edge>
    ghost var via: map<Func, Path>
    ghost var rank: map<Func, nat>
    ghost var clock: nat

    constructor (q: Query, root: Func)
      ensures this.q == q && this.root == root
      ensures Now() == View(map[], {}, {}, {}, map[], map[], 0)
    {
      this.q, this.root := q, root;
      memo, visiting, notes := map[], {}, {};
      cuts, via, rank, clock := {}, map[], map[], 0;
    }

    ghost function Now(): View
      reads this
    {
      View(memo, visiting, notes, cuts, via, rank, clock)
    }

    /** walk(s), called along stack. */
    method Walk(s: Func, ghost stack: seq<Func>, ghost universe: set<Func>) returns (r: Option<Found>)
      requires Valid(q, root, Now(), stack) && s !in visiting
      requires TrailBetween(q, stack + [s], root, s)
      requires universe == q.g.Universe(root) && s in universe
      modifies this
      decreases universe - memo.Keys - visiting, 1
      ensures Valid(q, root, Now(), stack) && Later(old(Now()), Now(), {}) && CutsBack(old(Now()), Now(), s)
      ensures s in memo && r == memo[s] && GoalNews(q, old(Now()), Now(), r)
    {
      if s in memo {
        return memo[s];
      }
      if q.goal == Some(s) {
        r := MeetGoal(s, stack);
      } else {
        r := Visit(s, stack, universe);
      }
    }

    method AddNotes(s: Func)
      modifies this
      ensures Now() == old(Now()).(notes := old(notes) + NotesOf(q, s))
    {
      var info := q.g.At(s);
      if info.unbounded {
        notes := notes + {Unbounded(s)};
      }
      if info.indirect > 0 {
        notes := notes + {Indirect(info.indirect, s)};
      }
    }

    method MeetGoal(s: Func, ghost stack: seq<Func>) returns (r: Option<Found>)
      requires Valid(q, root, Now(), stack) && s !in visiting && s !in memo && q.goal == Some(s)
      requires TrailBetween(q, stack + [s], root, s)
      modifies this
      ensures Valid(q, root, Now(), stack) && Later(old(Now()), Now(), {}) && cuts == old(cuts)
      ensures s in memo && r == memo[s] && r.Some?
    {
      ghost var before := Now();
      AddNotes(s);
      r := Some(Found(q.g.At(s).frame, [(s, q.g.At(s).frame)]));
      Memoise(s, r, End(s));
      ReachGoal(q, root, before, Now(), stack, s);
    }

    method Visit(s: Func, ghost stack: seq<Func>, ghost universe: set<Func>) returns (r: Option<Found>)
      requires Valid(q, root, Now(), stack) && s !in visiting && s !in memo && q.goal != Some(s)
      requires TrailBetween(q, stack + [s], root, s)
      requires universe == q.g.Universe(root) && s in universe
      modifies this
      decreases universe - memo.Keys - visiting, 0
      ensures Valid(q, root, Now(), stack) && Later(old(Now()), Now(), {}) && CutsBack(old(Now()), Now(), s)
      ensures s in memo && r == memo[s] && GoalNews(q, old(Now()), Now(), r)
    {
      ghost var before := Now();
      r := EnterFunc(s, stack);
      ghost var entered := Now();
      ghost var path := End(s);
      r, path := Explore(s, Call, r, path, stack + [s], universe);
      ghost var called := Now();
      CallsDone(q, called, s, r, path);
      r, path := Explore(s, Tail, r, path, stack + [s], universe);
      WentOnTransitive(entered, called, Now(), s);
      ghost var after := Now();
      LeaveFunc(s, r, path, stack);
      Visited(before, entered, after, Now(), s);
    }

    /** The part of walk before its loops. */
    method EnterFunc(s: Func, ghost stack: seq<Func>) returns (r: Option<Found>)
      requires Valid(q, root, Now(), stack) && s !in visiting && s !in memo && q.goal != Some(s)
      requires TrailBetween(q, stack + [s], root, s)
      modifies this
      ensures Valid(q, root, Now(), stack + [s]) && Keeps(old(Now()), Now())
      ensures Now() == old(Now()).(visiting := old(visiting) + {s}, notes := old(notes) + NotesOf(q, s))
      ensures Exploring(q, Now(), s, r, End(s), Call, q.Succ(s, Call)) && (q.goal.None? ==> r.Some?)
    {
      ghost var before := Now();
      AddNotes(s);
      var frame := q.g.At(s).frame;
      r := if q.goal.Some? then None else Some(Found(frame, [(s, frame)]));
      visiting := visiting + {s};
      Enter(q, root, before, Now(), stack, s, r);
    }

    /** The part of walk behind its loops. */
    method LeaveFunc(s: Func, r: Option<Found>, ghost path: Path, ghost stack: seq<Func>)
      requires Valid(q, root, Now(), stack + [s]) && Exploring(q, Now(), s, r, path, Tail, {})
      modifies this
      ensures Valid(q, root, Now(), stack) && Keeps(old(Now()), Now())
      ensures visiting == old(visiting) - {s} && cuts == old(cuts) && memo == old(memo)[s := r]
    {
      ghost var before := Now();
      visiting := visiting - {s};
      Memoise(s, r, path);
      Leave(q, root, before, Now(), stack, s, r, path);
    }

    /** memo[s] = r */
    method Memoise(s: Func, r: Option<Found>, ghost p: Path)
      modifies this
      ensures Now() == old(Now()).(memo := old(memo)[s := r], via := old(via)[s := p],
                                   rank := old(rank)[s := old(clock)], clock := old(clock) + 1)
    {
      memo := memo[s := r];
      via, rank, clock := via[s := p], rank[s := clock], clock + 1;
    }

    /** The loop over the call (or the tail) edges of s, in any order. */
    method Explore(s: Func, k: Kind, best0: Option<Found>, ghost path0: Path, ghost stack: seq<Func>,
                   ghost universe: set<Func>)
      returns (best: Option<Found>, ghost path: Path)
      requires Valid(q, root, Now(), stack) && stack != [] && stack[|stack|-1] == s
      requires Exploring(q, Now(), s, best0, path0, k, q.Succ(s, k))
      requires q.goal != Some(s) && universe == q.g.Universe(root)
      modifies this
      decreases universe - memo.Keys - visiting, 4
      ensures Valid(q, root, Now(), stack) && WentOn(old(Now()), Now(), s)
      ensures Exploring(q, Now(), s, best, path, k, {})
      ensures GoalNews(q, old(Now()), Now(), best) && (best0.Some? ==> best.Some?)
    {
      best, path := best0, path0;
      var todo := q.g.Targets(s, k);
      while todo != {}
        invariant todo <= q.Succ(s, k)
        invariant Valid(q, root, Now(), stack) && WentOn(old(Now()), Now(), s)
        invariant Exploring(q, Now(), s, best, path, k, todo)
        invariant GoalNews(q, old(Now()), Now(), best) && (best0.Some? ==> best.Some?)
      {
        var c :| c in todo;
        ghost var before, was := Now(), best;
        best, path := TakeEdge(s, k, c, best, path, stack, universe, todo);
        WentOnTransitive(old(Now()), before, Now(), s);
        GoalNewsAdds(q, old(Now()), before, Now(), was, best);
        todo := todo - {c};
      }
    }

    /** One round of the loop. */
    method TakeEdge(s: Func, k: Kind, c: Func, best0: Option<Found>, ghost path0: Path,
                    ghost stack: seq<Func>, ghost universe: set<Func>, ghost todo: set<Func>)
      returns (best: Option<Found>, ghost path: Path)
      requires Valid(q, root, Now(), stack) && stack != [] && stack[|stack|-1] == s
      requires c in todo && todo <= q.Succ(s, k) && Exploring(q, Now(), s, best0, path0, k, todo)
      requires universe == q.g.Universe(root)
      modifies this
      decreases universe - memo.Keys - visiting, 3
      ensures Valid(q, root, Now(), stack) && WentOn(old(Now()), Now(), s)
      ensures Exploring(q, Now(), s, best, path, k, todo - {c})
      ensures GoalNews(q, old(Now()), Now(), best) && (best0.Some? ==> best.Some?)
      ensures c !in old(visiting) ==> CutsBack(old(Now()), Now(), c) && c in memo
    {
      ghost var before := Now();
      if c in visiting {
        best, path := best0, path0;
        SkipEdge(s, k, c, best, path, stack, todo);
      } else {
        best, path := FollowEdge(s, k, c, best0, path0, stack, universe, todo);
        FollowedIsWentOn(before, Now(), s);
      }
    }

    /** An edge back to a function on the current path: skipped, noted only for a call. */
    method SkipEdge(s: Func, k: Kind, c: Func, ghost best: Option<Found>, ghost path: Path,
                    ghost stack: seq<Func>, ghost todo: set<Func>)
      requires Valid(q, root, Now(), stack) && stack != [] && stack[|stack|-1] == s
      requires c in todo && todo <= q.Succ(s, k) && Exploring(q, Now(), s, best, path, k, todo)
      requires c in visiting
      modifies this
      ensures Valid(q, root, Now(), stack) && WentOn(old(Now()), Now(), s)
      ensures Exploring(q, Now(), s, best, path, k, todo - {c}) && memo == old(memo)
    {
      ghost var before := Now();
      if k == Call {
        notes := notes + {RecursionCut(s, c)};
      }
      cuts := cuts + {Edge(s, k, c)};
      Cut(q, root, before, Now(), stack, Edge(s, k, c));
      CutExploring(q, before, Now(), Edge(s, k, c), best, path, todo);
    }

    method FollowEdge(s: Func, k: Kind, c: Func, best0: Option<Found>, ghost path0: Path,
                      ghost stack: seq<Func>, ghost universe: set<Func>, ghost todo: set<Func>)
      returns (best: Option<Found>, ghost path: Path)
      requires Valid(q, root, Now(), stack) && stack != [] && stack[|stack|-1] == s
      requires c in todo && todo <= q.Succ(s, k) && Exploring(q, Now(), s, best0, path0, k, todo)
      requires c !in visiting && universe == q.g.Universe(root)
      modifies this
      decreases universe - memo.Keys - visiting, 2
      ensures Valid(q, root, Now(), stack) && Later(old(Now()), Now(), {}) && CutsBack(old(Now()), Now(), c) && c in memo
      ensures Exploring(q, Now(), s, best, path, k, todo - {c})
      ensures GoalNews(q, old(Now()), Now(), best) && (best0.Some? ==> best.Some?)
    {
      ghost var before := Now();
      TrailExtends(q, root, stack, s, k, c);
      TargetInUniverse(q, root, s, k, c);
      var r := Walk(c, stack, universe);
      assert Finished(q, root, Now(), c);
      best := Pick(q, best0, Edge(s, k, c), r);
      ghost var rest := if r.Some? then via[c] else path0;
      path := PickPath(q, best0, Edge(s, k, c), r, path0, rest);
      Follow(q, root, before, Now(), Edge(s, k, c), best0, path0, rest, todo);
    }
  }

  // ----- What a finished walk means

  /** With nothing being visited, every function reachable from the root is finished. */
  lemma {:induction false} ReachableIsFinished(q: Query, root: Func, v: View, t: seq<Func>, i: nat)
    requires Valid(q, root, v, []) && root in v.memo
    requires Trail(q, t, {}) && t[0] == root && i < |t|
    ensures t[i] in v.memo
  {
    if i > 0 {
      ReachableIsFinished(q, root, v, t, i - 1);
      assert Linked(q, t[i-1], t[i], {});
      var k :| q.HasEdge(Edge(t[i-1], k, t[i]));
      assert Finished(q, root, v, t[i-1]) && Settled(q, v, Edge(t[i-1], k, t[i]));
    }
  }

  /** Along edges that were not cut, functions finish ever earlier. */
  lemma {:induction false} RanksFall(q: Query, root: Func, v: View, t: seq<Func>, i: nat, j: nat)
    requires Valid(q, root, v, []) && root in v.memo
    requires Trail(q, t, v.cuts) && t[0] == root && i < j < |t|
    ensures t[i] in v.rank && t[j] in v.rank && v.rank[t[j]] < v.rank[t[i]]
    decreases j
  {
    assert forall n | 0 < n < |t| :: Linked(q, t[n-1], t[n], v.cuts) ==> Linked(q, t[n-1], t[n], {});
    ReachableIsFinished(q, root, v, t, j - 1);
    assert Linked(q, t[j-1], t[j], v.cuts);
    var k :| q.HasEdge(Edge(t[j-1], k, t[j])) && Edge(t[j-1], k, t[j]) !in v.cuts;
    assert Finished(q, root, v, t[j-1]) && Settled(q, v, Edge(t[j-1], k, t[j]));
    if i < j - 1 {
      RanksFall(q, root, v, t, i, j - 1);
    }
  }

  /** The cut edges are exactly what stands between the graph and having no cycle. */
  lemma CutsMakeAcyclic(q: Query, root: Func, v: View)
    requires Valid(q, root, v, []) && root in v.memo
    ensures Acyclic(q, root, v.cuts)
    ensures v.cuts == {} <==> Acyclic(q, root, {})
  {
    forall t | Trail(q, t, v.cuts) && t[0] == root ensures Distinct(t) {
      forall i, j | 0 <= i < j < |t| ensures t[i] != t[j] {
        RanksFall(q, root, v, t, i, j);
      }
    }
    if e :| e in v.cuts {
      assert ClosesCycle(q, root, e);
      var t :| TrailBetween(q, t, root, e.from) && Distinct(t) && e.to in t;
      TrailExtends(q, root, t, e.from, e.kind, e.to);
      DistinctSnoc(t, e.to);
      assert Trail(q, t + [e.to], {}) && (t + [e.to])[0] == root && !Distinct(t + [e.to]);
    }
  }

  /** Along call edges that were not cut, too, wherever they start. */
  lemma {:induction false} CallRanksFall(q: Query, root: Func, v: View, t: seq<Func>, j: nat)
    requires Valid(q, root, v, []) && 0 < j < |t| && t[0] in v.memo
    requires forall i | 0 < i < |t| :: CallEdge(q, t, i) && Edge(t[i-1], Call, t[i]) !in v.cuts
    ensures t[j] in v.memo && t[0] in v.rank && t[j] in v.rank && v.rank[t[j]] < v.rank[t[0]]
  {
    if j > 1 {
      CallRanksFall(q, root, v, t, j - 1);
    }
    assert CallEdge(q, t, j);
    assert Finished(q, root, v, t[j-1]) && Settled(q, v, Edge(t[j-1], Call, t[j]));
  }

  /** Every cycle of call edges is cut at one of them, so it is reported. */
  lemma CallCycleIsCut(q: Query, root: Func, v: View, t: seq<Func>)
    requires Valid(q, root, v, []) && root in v.memo && CallCycle(q, root, t)
    ensures exists s, c :: RecursionCut(s, c) in v.notes
  {
    if forall i | 0 < i < |t| :: CallEdge(q, t, i) && Edge(t[i-1], Call, t[i]) !in v.cuts {
      MemoIsAnswer(q, root, v);
      CallRanksFall(q, root, v, t, |t| - 1);
    } else {
      var i :| 0 < i < |t| && Edge(t[i-1], Call, t[i]) in v.cuts;
      assert RecursionCut(t[i-1], t[i]) in v.notes;
    }
  }

  lemma {:induction false} NothingToAvoid(p: Path)
    ensures Avoids(p, {})
  {
    if p.Step? {
      NothingToAvoid(p.rest);
    }
  }

  /** No path that keeps off the cut edges is deeper than the memoised result. */
  lemma {:induction false} MemoIsDeepest(q: Query, root: Func, v: View, p: Path)
    requires Valid(q, root, v, []) && p.at in v.memo
    requires IsPath(q, p) && Avoids(p, v.cuts)
    ensures v.memo[p.at].Some? && Depth(q.g, p) <= v.memo[p.at].value.depth
  {
    assert Finished(q, root, v, p.at);
    if p.Step? {
      assert Settled(q, v, Edge(p.at, p.kind, p.rest.at));
      MemoIsDeepest(q, root, v, p.rest);
    }
  }

  lemma {:induction false} PathMeetsGoal(q: Query, p: Path)
    requires IsPath(q, p) && q.goal.Some?
    ensures q.goal.value in Funcs(p)
  {
    if p.Step? {
      PathMeetsGoal(q, p.rest);
    }
  }

  /** The finished functions are the reachable ones, and the root's result is the answer. */
  lemma MemoIsAnswer(q: Query, root: Func, v: View)
    requires Valid(q, root, v, []) && root in v.memo
    ensures forall f :: Reaches(q, root, f) <==> f in v.memo
    ensures forall p | IsPath(q, p) && p.at == root && Avoids(p, v.cuts) ::
              v.memo[root].Some? && Depth(q.g, p) <= v.memo[root].value.depth
    ensures q.goal.Some? && v.memo[root].Some? ==> Reaches(q, root, q.goal.value)
  {
    forall f ensures Reaches(q, root, f) <==> f in v.memo {
      if f in v.memo {
        assert Finished(q, root, v, f);
      }
      if Reaches(q, root, f) {
        var t :| TrailBetween(q, t, root, f);
        ReachableIsFinished(q, root, v, t, |t| - 1);
      }
    }
    forall p | IsPath(q, p) && p.at == root && Avoids(p, v.cuts)
      ensures v.memo[root].Some? && Depth(q.g, p) <= v.memo[root].value.depth
    {
      MemoIsDeepest(q, root, v, p);
    }
    if q.goal.Some? && v.memo[root].Some? {
      assert Finished(q, root, v, root);
      PathMeetsGoal(q, v.via[root]);
    }
  }

  // ----- What depth, listing and paths are, read off the disassembly

  /** The functions whose frames are on the stack at the end of a path: those left by a call, and the last. */
  ghost function OnStack(p: Path): seq<Func> {
    match p
    case End(f) => [f]
    case Step(f, Call, rest) => [f] + OnStack(rest)
    case Step(_, Tail, rest) => OnStack(rest)
  }

  ghost function FrameOf(infos: map<Func, Info>, f: Func): nat {
    if f in infos then infos[f].frame else 0
  }

  ghost function TotalOf(infos: map<Func, Info>, fs: seq<Func>): nat {
    if fs == [] then 0 else FrameOf(infos, fs[0]) + TotalOf(infos, fs[1..])
  }

  /** The depth of a path is the sum of the frames on the stack at its end. */
  lemma {:induction false} DepthIsFrames(g: Graph, p: Path)
    ensures Depth(g, p) == TotalOf(g.infos, OnStack(p))
  {
    if p.Step? {
      DepthIsFrames(g, p.rest);
      assert p.kind.Call? ==> OnStack(p)[1..] == OnStack(p.rest);
    }
  }

  /** The functions of a path in order, and whether each is left by a tail call. */
  ghost function Stops(p: Path): seq<(Func, bool)> {
    match p
    case End(f) => [(f, false)]
    case Step(f, k, rest) => [(f, k == Tail)] + Stops(rest)
  }

  /** The list shows every function of the path with its frame, or with 0 if it is left by a tail call. */
  lemma {:induction false} ListingExactly(g: Graph, p: Path)
    ensures |Listing(g, p)| == |Stops(p)|
    ensures forall i | 0 <= i < |Stops(p)| :: Listed(g.infos, Stops(p)[i], Listing(g, p)[i])
  {
    if p.Step? {
      ListingExactly(g, p.rest);
      assert forall i | 0 < i < |Stops(p)| ::
        Stops(p)[i] == Stops(p.rest)[i - 1] && Listing(g, p)[i] == Listing(g, p.rest)[i - 1];
    }
  }

  ghost predicate Listed(infos: map<Func, Info>, stop: (Func, bool), entry: (Func, nat)) {
    entry == (stop.0, if stop.1 then 0 else FrameOf(infos, stop.0))
  }

  /** The disassembly has the edge. */
  ghost predicate Jumps(infos: map<Func, Info>, s: Func, k: Kind, c: Func) {
    s in infos && match k case Call => c in infos[s].calls case Tail => c in infos[s].tails
  }

  ghost predicate Follows(infos: map<Func, Info>, p: Path) {
    p.Step? ==> Jumps(infos, p.at, p.kind, p.rest.at) && Follows(infos, p.rest)
  }

  /** The goal comes last and nowhere else. */
  ghost predicate EndsAt(p: Path, goal: Func) {
    match p
    case End(f) => f == goal
    case Step(f, _, rest) => f != goal && EndsAt(rest, goal)
  }

  lemma EdgeExactly(q: Query, s: Func, k: Kind, c: Func)
    ensures q.HasEdge(Edge(s, k, c)) <==> q.goal != Some(s) && Jumps(q.g.infos, s, k, c)
  {
  }

  /** The paths are those of the disassembly; with a goal, those that meet it at their end only. */
  lemma {:induction false} PathExactly(q: Query, p: Path)
    ensures IsPath(q, p) <==> Follows(q.g.infos, p) && (q.goal.Some? ==> EndsAt(p, q.goal.value))
  {
    if p.Step? {
      EdgeExactly(q, p.at, p.kind, p.rest.at);
      PathExactly(q, p.rest);
    }
  }

  // ----- The answer

  function SumFrames(path: seq<(Func, nat)>): nat {
    if path == [] then 0 else path[0].1 + SumFrames(path[1..])
  }

  /** The printed list names the path's functions and its frames add up to the depth. */
  lemma {:induction false} ListingIsFaithful(q: Query, p: Path)
    ensures SumFrames(Listing(q.g, p)) == Depth(q.g, p)
    ensures Listing(q.g, p) != [] && Listing(q.g, p)[0].0 == p.at
    ensures forall x | x in Listing(q.g, p) :: x.0 in Funcs(p)
    ensures Simple(p) ==> forall i, j | 0 <= i < j < |Listing(q.g, p)| :: Listing(q.g, p)[i].0 != Listing(q.g, p)[j].0
    ensures IsPath(q, p) ==> forall i | 0 < i < |Listing(q.g, p)| ::
            Linked(q, Listing(q.g, p)[i-1].0, Listing(q.g, p)[i].0, {})
  {
    if p.Step? {
      ListingIsFaithful(q, p.rest);
      var l, m := Listing(q.g, p), Listing(q.g, p.rest);
      assert l[1..] == m;
      assert forall i | 0 < i < |l| :: l[i] == m[i-1];
      if IsPath(q, p) {
        forall i | 0 < i < |l| ensures Linked(q, l[i-1].0, l[i].0, {}) {
          if i > 1 {
            assert l[i-1] == m[i-2];
            assert Linked(q, m[i-2].0, m[i-1].0, {});
          } else {
            assert q.HasEdge(Edge(p.at, p.kind, p.rest.at));
          }
        }
      }
    }
  }

  /**
   worst(elf, root, goal). On every graph the result is the exact worst depth once the cut edges are
   taken out, and the edges cut are edges back into the current path, so there are none exactly when
   nothing reachable is recursive. In goal mode there is no result exactly when the goal is unreachable.
   */
  method Worst(q: Query, root: Func) returns (r: Option<Found>, notes: set<Note>, ghost cuts: set<Edge>, ghost p: Path)
    ensures r.Some? ==> Witnesses(q, root, r.value, p, cuts) && SumFrames(r.value.path) == r.value.depth
    ensures r.None? <==> q.goal.Some? && !Reaches(q, root, q.goal.value)
    ensures forall p' | IsPath(q, p') && p'.at == root && Avoids(p', cuts) ::
              r.Some? && Depth(q.g, p') <= r.value.depth
    ensures Acyclic(q, root, cuts)
    ensures cuts == {} <==> Acyclic(q, root, {})
    ensures Acyclic(q, root, {}) ==>
              forall p' | IsPath(q, p') && p'.at == root :: r.Some? && Depth(q.g, p') <= r.value.depth
    ensures forall e | e in cuts :: ClosesCycle(q, root, e)
    ensures forall f :: Unbounded(f) in notes <==> Reaches(q, root, f) && f in q.g.infos && q.g.infos[f].unbounded
    ensures forall f, n :: Indirect(n, f) in notes <==>
              Reaches(q, root, f) && f in q.g.infos && n == q.g.infos[f].indirect && n > 0
    ensures forall s, c :: RecursionCut(s, c) in notes <==> Edge(s, Call, c) in cuts
    ensures (exists t :: CallCycle(q, root, t)) ==> exists s, c :: RecursionCut(s, c) in notes
  {
    var w := new Walker(q, root);
    assert TrailBetween(q, [] + [root], root, root);
    r := w.Walk(root, [], q.g.Universe(root));
    notes, cuts := w.notes, w.cuts;
    assert Finished(q, root, w.Now(), root);
    p := if r.Some? then w.via[root] else End(root);
    CutsMakeAcyclic(q, root, w.Now());
    MemoIsAnswer(q, root, w.Now());
    if t :| CallCycle(q, root, t) {
      CallCycleIsCut(q, root, w.Now(), t);
    }
    forall p' ensures Avoids(p', {}) {
      NothingToAvoid(p');
    }
    ListingIsFaithful(q, p);
  }

  // ----- With a goal and without

  /** A path to a goal is a path of the question without one, of the same depth and listing. */
  lemma GoalPathIsPath(g: Graph, goal: Func, p: Path)
    requires IsPath(Query(g, Some(goal)), p)
    ensures IsPath(Query(g, None), p)
  {
    PathExactly(Query(g, Some(goal)), p);
    PathExactly(Query(g, None), p);
  }

  /** Where nothing is recursive, the way to a goal is never deeper than the worst without one. */
  method GoalIsNoDeeper(g: Graph, root: Func, goal: Func) returns (to: Option<Found>, all: Option<Found>)
    ensures all.Some?
    ensures Acyclic(Query(g, None), root, {}) && to.Some? ==> to.value.depth <= all.value.depth
  {
    ghost var cuts, p;
    var notes;
    all, notes, cuts, p := Worst(Query(g, None), root);
    to, notes, cuts, p := Worst(Query(g, Some(goal)), root);
    if to.Some? {
      GoalPathIsPath(g, goal, p);
    }
  }

  /** A function of frame 100 that tail-calls one of frame 50: on the way to that goal only the 50 are held. */
  const TailToGoal := Query(Graph(map[1 := Info(100, false, [], [2], 0), 2 := Info(50, false, [], [], 0)]), Some(2))

  lemma TailToGoalPath(p: Path)
    requires IsPath(TailToGoal, p) && p.at == 1
    ensures Depth(TailToGoal.g, p) == 50 && Listing(TailToGoal.g, p) == [(1, 0), (2, 50)]
  {
    assert p == Step(1, Tail, End(2));
    assert Listing(TailToGoal.g, End(2)) == [(2, 50)];
  }

  method TailGivesFrameBack() returns (r: Option<Found>)
    ensures r == Some(Found(50, [(1, 0), (2, 50)]))
  {
    ghost var cuts, p;
    var notes;
    var q := TailToGoal;
    r, notes, cuts, p := Worst(q, 1);
    assert q.HasEdge(Edge(1, Tail, 2)) && Linked(q, 1, 2, {});
    assert TrailBetween(q, [1, 2], 1, 2);
    TailToGoalPath(p);
  }
}
