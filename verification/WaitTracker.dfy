/**
 The per-thread wait machine of scripts/prof-report.py (Analysis.run, on_wait, end_wait): waits,
 wakeups and messages are paired event by event. The run is proved to give, for every wait event of
 the whole trace, exactly the record one reads off the trace itself.
 */
module WaitTracker {

  datatype Option<+T> = None | Some(value: T)

  type Tid = nat

  /** The flags byte of thread_wait: bit 0, bit 1 (written when the wait ended) and bit 2. */
  datatype Flags = Flags(existing: bool, complete: bool, still: bool)

  datatype Event =
    | IrqEnter(irq: nat)
    | IrqExit
    | ScEnter(tid: Tid, n: nat)
    | ScExit(tid: Tid)
    | Wait(tid: Tid, flags: Flags, blocked: nat, sc: nat)
    | Wakeup(tid: Tid, waker: Tid, cause: nat)
    | Waking(tid: Tid)
    | Send(tid: Tid, mid: nat)
    | Recv(tid: Tid, mid: nat)
    | Respond(tid: Tid, mid: nat)
    | Other

  datatype Timed = Timed(ts: nat, cpu: nat, ev: Event)

  const NO_SYSCALL := 0xFFFF

  /** A thread_wakeup, kept with the index of its event. */
  datatype Wake = Wake(at: nat, waker: Tid, cause: nat, irq: Option<nat>)

  /** A wait as on_wait starts it; index is that of its event. */
  datatype OpenWait = OpenWait(index: nat, tid: Tid, start: int, existing: bool, syscall: Option<nat>, msg: Option<nat>)

  /** A wait as end_wait finishes it; closed is the index of the event that ended it. */
  datatype Record = Record(w: OpenWait, closed: nat, end: int, still: bool, wake: Option<Wake>, server: Option<Tid>)

  datatype Thread = Thread(syscall: Option<nat>, msg: Option<nat>, wait: Option<OpenWait>, wake: Option<Wake>)

  const Idle := Thread(None, None, None, None)

  // ----- Reference: what the trace itself says

  /** What one may look for in a trace. */
  datatype Query =
    | Touch(t: Tid)     // an event that ends or starts a wait of t
    | WaitOf(t: Tid)
    | WakeOf(t: Tid)
    | SyscallOf(t: Tid)
    | MessageOf(t: Tid)
    | ServiceOf(m: nat)

  predicate Matches(q: Query, e: Event) {
    match q
    case Touch(t) => (e.Wait? || e.Waking?) && e.tid == t
    case WaitOf(t) => e.Wait? && e.tid == t
    case WakeOf(t) => e.Wakeup? && e.tid == t
    case SyscallOf(t) => (e.ScEnter? || e.ScExit?) && e.tid == t
    case MessageOf(t) => (e.Send? || e.ScEnter? || e.ScExit?) && e.tid == t
    case ServiceOf(m) => (e.Send? || e.Recv? || e.Respond?) && e.mid == m
  }

  /** The last match before event n, -1 if there is none. */
  ghost function Last(evs: seq<Timed>, q: Query, n: nat): (r: int)
    requires n <= |evs|
    ensures -1 <= r < n
    ensures r >= 0 ==> Matches(q, evs[r].ev)
    ensures forall j | r < j < n :: !Matches(q, evs[j].ev)
  {
    if n == 0 then -1 else if Matches(q, evs[n-1].ev) then n - 1 else Last(evs, q, n - 1)
  }

  /** The first match from event n on, |evs| if there is none. */
  ghost function First(evs: seq<Timed>, q: Query, n: nat): (r: nat)
    requires n <= |evs|
    ensures n <= r <= |evs|
    ensures r < |evs| ==> Matches(q, evs[r].ev)
    ensures forall j | n <= j < r :: !Matches(q, evs[j].ev)
    decreases |evs| - n
  {
    if n == |evs| || Matches(q, evs[n].ev) then n else First(evs, q, n + 1)
  }

  /** Interrupts entered and not yet left on a CPU, innermost last. */
  ghost function IrqStack(evs: seq<Timed>, cpu: nat, n: nat): seq<nat>
    requires n <= |evs|
  {
    if n == 0 then [] else
    var s := IrqStack(evs, cpu, n - 1);
    if evs[n-1].cpu != cpu then s
    else match evs[n-1].ev
      case IrqEnter(i) => s + [i]
      case IrqExit => if s == [] then s else s[..|s| - 1]
      case _ => s
  }

  function Top(s: seq<nat>): Option<nat> {
    if s == [] then None else Some(s[|s| - 1])
  }

  ghost function WakeAt(evs: seq<Timed>, k: nat): Wake
    requires k < |evs| && evs[k].ev.Wakeup?
  {
    var e := evs[k].ev;
    Wake(k, e.waker, if e.cause > 4 then 4 else e.cause, if e.cause == 0 then Top(IrqStack(evs, evs[k].cpu, k)) else None)
  }

  /** The last wakeup of t after event p and before event n. */
  ghost function WakeSince(evs: seq<Timed>, t: Tid, p: int, n: nat): Option<Wake>
    requires n <= |evs|
  {
    var k := Last(evs, WakeOf(t), n);
    if k > p && k >= 0 then Some(WakeAt(evs, k)) else None
  }

  ghost function SyscallAt(evs: seq<Timed>, t: Tid, n: nat): Option<nat>
    requires n <= |evs|
  {
    var k := Last(evs, SyscallOf(t), n);
    if k >= 0 && evs[k].ev.ScEnter? then Some(evs[k].ev.n) else None
  }

  /** The message t sent in the system call it is in. */
  ghost function MessageAt(evs: seq<Timed>, t: Tid, n: nat): Option<nat>
    requires n <= |evs|
  {
    var k := Last(evs, MessageOf(t), n);
    if k >= 0 && evs[k].ev.Send? then Some(evs[k].ev.mid) else None
  }

  /** The last thread to receive or answer message m since it was last sent. */
  ghost function ServerAt(evs: seq<Timed>, m: nat, n: nat): Option<Tid>
    requires n <= |evs|
  {
    var k := Last(evs, ServiceOf(m), n);
    if k >= 0 && !evs[k].ev.Send? then Some(evs[k].ev.tid) else None
  }

  predicate IsWait(evs: seq<Timed>, i: nat) {
    i < |evs| && evs[i].ev.Wait?
  }

  ghost function OpenAt(evs: seq<Timed>, sends: set<nat>, i: nat): OpenWait
    requires IsWait(evs, i)
  {
    var e := evs[i].ev;
    var sc := if e.sc != 0xFFFF then Some(e.sc) else if e.flags.existing then None else SyscallAt(evs, e.tid, i);
    OpenWait(i, e.tid, if e.flags.complete then evs[i].ts - e.blocked else evs[i].ts, e.flags.existing, sc,
             if sc.Some? && sc.value in sends then MessageAt(evs, e.tid, i) else None)
  }

  /** A wait recorded at its start lasts until the next wait or waking of its thread. */
  ghost function ClosedAt(evs: seq<Timed>, i: nat): (c: nat)
    requires IsWait(evs, i)
    ensures i <= c <= |evs|
  {
    if evs[i].ev.flags.complete then i else First(evs, Touch(evs[i].ev.tid), i + 1)
  }

  /** The wait of t that is under way just before event n. */
  ghost function OpenBefore(evs: seq<Timed>, sends: set<nat>, t: Tid, n: nat): Option<OpenWait>
    requires n <= |evs|
  {
    var p := Last(evs, Touch(t), n);
    if p >= 0 && evs[p].ev.Wait? && !evs[p].ev.flags.complete then Some(OpenAt(evs, sends, p)) else None
  }

  ghost function StillAt(evs: seq<Timed>, i: nat): bool
    requires IsWait(evs, i)
  {
    var c := ClosedAt(evs, i);
    if c == i then evs[i].ev.flags.still else c == |evs| || evs[c].ev.Wait?
  }

  /**
   The wakeup that ended wait i: for a wait recorded at its start the last one during the wait; for
   one recorded when complete the last one since the thread's previous wait or waking, lost if a wait
   was still open then.
   */
  ghost function WakeEnding(evs: seq<Timed>, sends: set<nat>, i: nat): Option<Wake>
    requires IsWait(evs, i)
  {
    var t, c := evs[i].ev.tid, ClosedAt(evs, i);
    if StillAt(evs, i) then None
    else if c > i then WakeSince(evs, t, i, c)
    else if OpenBefore(evs, sends, t, i).Some? then None
    else WakeSince(evs, t, Last(evs, Touch(t), i), i)
  }

  /** Who served message m up to event n: the last to receive or answer it, thread 0 aside, else the waker. */
  ghost function ServedBy(evs: seq<Timed>, m: nat, n: nat, wake: Option<Wake>): Option<Tid>
    requires n <= |evs|
  {
    match ServerAt(evs, m, n)
    case Some(t) => if t == 0 then WakerOf(wake) else Some(t)
    case None => WakerOf(wake)
  }

  ghost function WakerOf(wake: Option<Wake>): Option<Tid> {
    match wake case Some(k) => Some(k.waker) case None => None
  }

  /** The record the trace holds for its wait event i. */
  ghost function RecordAt(evs: seq<Timed>, sends: set<nat>, i: nat): Record
    requires IsWait(evs, i)
  {
    var w, c, wake := OpenAt(evs, sends, i), ClosedAt(evs, i), WakeEnding(evs, sends, i);
    Record(w, c, if c < |evs| then evs[c].ts else evs[|evs| - 1].ts, StillAt(evs, i), wake,
           if w.msg.Some? then ServedBy(evs, w.msg.value, c, wake) else None)
  }

  // ----- How the reference moves from one event to the next

  ghost function ThreadAt(evs: seq<Timed>, sends: set<nat>, t: Tid, n: nat): Thread
    requires n <= |evs|
  {
    Thread(SyscallAt(evs, t, n), MessageAt(evs, t, n), OpenBefore(evs, sends, t, n),
           WakeSince(evs, t, Last(evs, Touch(t), n), n))
  }

  /** The events that change the state of t. */
  predicate Concerns(e: Event, t: Tid) {
    (e.ScEnter? || e.ScExit? || e.Wait? || e.Wakeup? || e.Waking? || e.Send?) && e.tid == t
  }

  lemma ThreadUntouched(evs: seq<Timed>, sends: set<nat>, t: Tid, n: nat)
    requires n < |evs| && !Concerns(evs[n].ev, t)
    ensures ThreadAt(evs, sends, t, n + 1) == ThreadAt(evs, sends, t, n)
  {
  }

  /** What event n makes of the state of the thread it concerns. */
  ghost function Changed(evs: seq<Timed>, sends: set<nat>, n: nat, th: Thread): Thread
    requires n < |evs|
  {
    match evs[n].ev
    case ScEnter(_, sc) => th.(syscall := Some(sc), msg := None)
    case ScExit(_) => th.(syscall := None, msg := None)
    case Wait(_, flags, _, _) =>
      th.(wait := if flags.complete then None else Some(OpenAt(evs, sends, n)), wake := None)
    case Wakeup(_, _, _) => th.(wake := Some(WakeAt(evs, n)))
    case Waking(_) => th.(wait := None, wake := None)
    case Send(_, mid) => th.(msg := Some(mid))
    case _ => th
  }

  lemma ThreadChanged(evs: seq<Timed>, sends: set<nat>, t: Tid, n: nat)
    requires n < |evs| && Concerns(evs[n].ev, t)
    ensures ThreadAt(evs, sends, t, n + 1) == Changed(evs, sends, n, ThreadAt(evs, sends, t, n))
  {
  }

  ghost predicate Sent(evs: seq<Timed>, m: nat, n: nat)
    requires n <= |evs|
  {
    exists k | 0 <= k < n :: evs[k].ev.Send? && evs[k].ev.mid == m
  }

  /** The wait of t under way before event c ends at c if c touches t. */
  lemma OpenClosesAt(evs: seq<Timed>, sends: set<nat>, t: Tid, c: nat)
    requires c <= |evs| && (c < |evs| ==> Matches(Touch(t), evs[c].ev))
    requires OpenBefore(evs, sends, t, c).Some?
    ensures var i := OpenBefore(evs, sends, t, c).value.index;
            && IsWait(evs, i) && i < c && evs[i].ev.tid == t && i == Last(evs, Touch(t), c)
            && ClosedAt(evs, i) == c && OpenBefore(evs, sends, t, c).value == OpenAt(evs, sends, i)
  {
  }

  /** A wait that ends at event n is n itself, or was the one under way. */
  lemma EndsNow(evs: seq<Timed>, sends: set<nat>, i: nat, n: nat)
    requires IsWait(evs, i) && ClosedAt(evs, i) == n
    ensures (i == n && evs[n].ev.flags.complete)
            || OpenBefore(evs, sends, evs[i].ev.tid, n) == Some(OpenAt(evs, sends, i))
    ensures i != n && n < |evs| ==> Matches(Touch(evs[i].ev.tid), evs[n].ev)
  {
  }

  lemma MessageWasSent(evs: seq<Timed>, sends: set<nat>, i: nat, n: nat)
    requires IsWait(evs, i) && i <= n <= |evs| && OpenAt(evs, sends, i).msg.Some?
    ensures Sent(evs, OpenAt(evs, sends, i).msg.value, n)
  {
    var k := Last(evs, MessageOf(evs[i].ev.tid), i);
    assert evs[k].ev.Send?;
  }

  // ----- The machine

  /** The waits that end at event n: the one under way, and n itself if recorded when complete. */
  ghost function EndingAt(evs: seq<Timed>, sends: set<nat>, n: nat): seq<nat>
    requires n < |evs|
  {
    var e := evs[n].ev;
    if !e.Wait? && !e.Waking? then [] else
    var open := OpenBefore(evs, sends, e.tid, n);
    (if open.Some? then [open.value.index] else []) + (if e.Wait? && e.flags.complete then [n] else [])
  }

  function ThreadOf(threads: map<Tid, Thread>, t: Tid): Thread {
    if t in threads then threads[t] else Idle
  }

  ghost predicate ThreadsExact(evs: seq<Timed>, sends: set<nat>, n: nat, threads: map<Tid, Thread>)
    requires n <= |evs|
  {
    forall t :: ThreadOf(threads, t) == ThreadAt(evs, sends, t, n)
  }

  ghost predicate IrqsExact(evs: seq<Timed>, n: nat, irqs: map<nat, seq<nat>>)
    requires n <= |evs|
  {
    forall cpu :: (if cpu in irqs then irqs[cpu] else []) == IrqStack(evs, cpu, n)
  }

  ghost predicate MessagesExact(evs: seq<Timed>, n: nat, msgs: map<nat, Option<Tid>>)
    requires n <= |evs|
  {
    forall m: nat :: MessageExact(evs, n, msgs, m)
  }

  ghost predicate MessageExact(evs: seq<Timed>, n: nat, msgs: map<nat, Option<Tid>>, m: nat)
    requires n <= |evs|
  {
    (m in msgs <==> Sent(evs, m, n)) && (m in msgs ==> msgs[m] == ServerAt(evs, m, n))
  }

  ghost predicate Distinct(s: seq<nat>) {
    forall i, j | 0 <= i < j < |s| :: s[i] != s[j]
  }

  ghost predicate RecordFor(evs: seq<Timed>, sends: set<nat>, i: nat, r: Record) {
    IsWait(evs, i) && r == RecordAt(evs, sends, i)
  }

  ghost predicate Finished(evs: seq<Timed>, sends: set<nat>, n: nat, i: nat, r: Record) {
    RecordFor(evs, sends, i, r) && ClosedAt(evs, i) < n
  }

  /** The finished records are those of the waits that ended before n, each once. */
  ghost predicate WaitsExact(evs: seq<Timed>, sends: set<nat>, n: nat, waits: seq<Record>, order: seq<nat>)
    requires n <= |evs|
  {
    && |order| == |waits| && Distinct(order)
    && (forall j | 0 <= j < |order| :: Finished(evs, sends, n, order[j], waits[j]))
    && (forall i: nat | IsWait(evs, i) && ClosedAt(evs, i) < n :: i in order)
  }

  // ----- One event

  /** The threads after event n: only the one it concerns changes. */
  ghost function ThreadsAfter(evs: seq<Timed>, sends: set<nat>, n: nat, threads: map<Tid, Thread>, t: Tid): map<Tid, Thread>
    requires n < |evs|
  {
    if Concerns(evs[n].ev, t) then threads[t := Changed(evs, sends, n, ThreadOf(threads, t))] else threads
  }

  lemma ThreadsStep(evs: seq<Timed>, sends: set<nat>, n: nat, threads: map<Tid, Thread>, t: Tid)
    requires n < |evs| && ThreadsExact(evs, sends, n, threads)
    requires forall x | Concerns(evs[n].ev, x) :: x == t
    ensures ThreadsExact(evs, sends, n + 1, ThreadsAfter(evs, sends, n, threads, t))
  {
    var threads' := ThreadsAfter(evs, sends, n, threads, t);
    forall x ensures ThreadOf(threads', x) == ThreadAt(evs, sends, x, n + 1) {
      if Concerns(evs[n].ev, x) {
        ThreadChanged(evs, sends, x, n);
      } else {
        ThreadUntouched(evs, sends, x, n);
      }
    }
  }

  function MessagesAfter(e: Event, msgs: map<nat, Option<Tid>>): map<nat, Option<Tid>> {
    match e
    case Send(_, mid) => msgs[mid := None]
    case Recv(t, mid) => if mid in msgs then msgs[mid := Some(t)] else msgs
    case Respond(t, mid) => if mid in msgs then msgs[mid := Some(t)] else msgs
    case _ => msgs
  }

  lemma SentNext(evs: seq<Timed>, m: nat, n: nat)
    requires n < |evs|
    ensures Sent(evs, m, n + 1) <==> Sent(evs, m, n) || (evs[n].ev.Send? && evs[n].ev.mid == m)
  {
  }

  lemma MessagesStep(evs: seq<Timed>, n: nat, msgs: map<nat, Option<Tid>>)
    requires n < |evs| && MessagesExact(evs, n, msgs)
    ensures MessagesExact(evs, n + 1, MessagesAfter(evs[n].ev, msgs))
  {
    var next, after := n + 1, MessagesAfter(evs[n].ev, msgs);
    forall m: nat ensures MessageExact(evs, next, after, m) {
      SentNext(evs, m, n);
      assert MessageExact(evs, n, msgs, m);
    }
  }

  function IrqsAfter(e: Timed, irqs: map<nat, seq<nat>>): map<nat, seq<nat>> {
    var s := if e.cpu in irqs then irqs[e.cpu] else [];
    match e.ev
    case IrqEnter(i) => irqs[e.cpu := s + [i]]
    case IrqExit => if s == [] then irqs else irqs[e.cpu := s[..|s| - 1]]
    case _ => irqs
  }

  lemma IrqsStep(evs: seq<Timed>, n: nat, irqs: map<nat, seq<nat>>)
    requires n < |evs| && IrqsExact(evs, n, irqs)
    ensures IrqsExact(evs, n + 1, IrqsAfter(evs[n], irqs))
  {
  }

  lemma DistinctAppend(a: seq<nat>, b: seq<nat>)
    requires Distinct(a) && Distinct(b) && forall x | x in b :: x !in a
    ensures Distinct(a + b)
  {
    forall i, j | 0 <= i < j < |a + b| ensures (a + b)[i] != (a + b)[j] {
      if i < |a| <= j {
        assert b[j - |a|] in b;
      }
    }
  }

  lemma EndingAtIsExact(evs: seq<Timed>, sends: set<nat>, n: nat)
    requires n < |evs|
    ensures Distinct(EndingAt(evs, sends, n))
    ensures forall i :: i in EndingAt(evs, sends, n) <==> IsWait(evs, i) && ClosedAt(evs, i) == n
  {
    var e := evs[n].ev;
    if (e.Wait? || e.Waking?) && OpenBefore(evs, sends, e.tid, n).Some? {
      OpenClosesAt(evs, sends, e.tid, n);
    }
    forall i: nat | IsWait(evs, i) && ClosedAt(evs, i) == n ensures i in EndingAt(evs, sends, n) {
      EndsNow(evs, sends, i, n);
    }
  }

  lemma NotYetFinished(evs: seq<Timed>, sends: set<nat>, n: nat, waits: seq<Record>, order: seq<nat>, i: nat)
    requires n <= |evs| && WaitsExact(evs, sends, n, waits, order) && IsWait(evs, i) && ClosedAt(evs, i) >= n
    ensures i !in order
  {
    assert forall j | 0 <= j < |order| :: Finished(evs, sends, n, order[j], waits[j]);
  }

  ghost predicate RecordsFor(evs: seq<Timed>, sends: set<nat>, ends: seq<nat>, recs: seq<Record>) {
    |ends| == |recs| && forall j | 0 <= j < |ends| :: RecordFor(evs, sends, ends[j], recs[j])
  }

  /** The waits that end at n are added, and no others end there. */
  lemma WaitsStep(evs: seq<Timed>, sends: set<nat>, n: nat, waits: seq<Record>, order: seq<nat>, recs: seq<Record>)
    requires n < |evs| && WaitsExact(evs, sends, n, waits, order)
    requires RecordsFor(evs, sends, EndingAt(evs, sends, n), recs)
    ensures WaitsExact(evs, sends, n + 1, waits + recs, order + EndingAt(evs, sends, n))
  {
    var adds := EndingAt(evs, sends, n);
    EndingAtIsExact(evs, sends, n);
    forall x | x in adds ensures x !in order {
      NotYetFinished(evs, sends, n, waits, order, x);
    }
    DistinctAppend(order, adds);
    var all, recs' := order + adds, waits + recs;
    forall j | 0 <= j < |all| ensures Finished(evs, sends, n + 1, all[j], recs'[j]) {
      if j < |order| {
        assert Finished(evs, sends, n, order[j], waits[j]);
      } else {
        assert all[j] == adds[j - |order|] && recs'[j] == recs[j - |order|];
      }
    }
  }

  /** The wait on_wait starts, from the event and the state of its thread. */
  function NewWait(e: Timed, n: nat, th: Thread, sends: set<nat>): OpenWait
    requires e.ev.Wait?
  {
    var sc := if e.ev.sc != NO_SYSCALL then Some(e.ev.sc) else if e.ev.flags.existing then None else th.syscall;
    var start := if e.ev.flags.complete then e.ts - e.ev.blocked else e.ts;
    OpenWait(n, e.ev.tid, start, e.ev.flags.existing, sc, if sc.Some? && sc.value in sends then th.msg else None)
  }

  datatype State = State(threads: map<Tid, Thread>, waits: seq<Record>, msgs: map<nat, Option<Tid>>,
                         irqs: map<nat, seq<nat>>, order: seq<nat>)

  /** The state after the first n events is what those events say. */
  ghost predicate Exact(evs: seq<Timed>, sends: set<nat>, n: nat, st: State) {
    match st
    case State(threads, waits, msgs, irqs, order) =>
      && n <= |evs| && ThreadsExact(evs, sends, n, threads) && IrqsExact(evs, n, irqs)
      && MessagesExact(evs, n, msgs) && WaitsExact(evs, sends, n, waits, order)
  }

  /** The state after an event that concerns thread t, with the records of the waits that end. */
  lemma ExactStep(evs: seq<Timed>, sends: set<nat>, n: nat, st: State, t: Tid, threads: map<Tid, Thread>, recs: seq<Record>)
    requires n < |evs| && Exact(evs, sends, n, st)
    requires forall x | Concerns(evs[n].ev, x) :: x == t
    requires threads == ThreadsAfter(evs, sends, n, st.threads, t)
    requires RecordsFor(evs, sends, EndingAt(evs, sends, n), recs)
    ensures Exact(evs, sends, n + 1, State(threads, st.waits + recs, MessagesAfter(evs[n].ev, st.msgs),
                                           IrqsAfter(evs[n], st.irqs), st.order + EndingAt(evs, sends, n)))
  {
    WaitsStep(evs, sends, n, st.waits, st.order, recs);
    ThreadsStep(evs, sends, n, st.threads, t);
    MessagesStep(evs, n, st.msgs);
    IrqsStep(evs, n, st.irqs);
  }

  lemma ThreadIsExact(evs: seq<Timed>, sends: set<nat>, n: nat, st: State, t: Tid)
    requires Exact(evs, sends, n, st)
    ensures n <= |evs| && ThreadOf(st.threads, t) == ThreadAt(evs, sends, t, n) && MessagesExact(evs, n, st.msgs)
  {
  }

  lemma EndingRecords(evs: seq<Timed>, sends: set<nat>, n: nat, recs: seq<Record>)
    requires IsWait(evs, n)
    requires var open := OpenBefore(evs, sends, evs[n].ev.tid, n);
             && (open.Some? ==> IsWait(evs, open.value.index))
             && recs == (if open.Some? then [RecordAt(evs, sends, open.value.index)] else [])
                        + (if evs[n].ev.flags.complete then [RecordAt(evs, sends, n)] else [])
    ensures RecordsFor(evs, sends, EndingAt(evs, sends, n), recs)
  {
  }

  lemma NewWaitIsOpen(evs: seq<Timed>, sends: set<nat>, n: nat, th: Thread)
    requires IsWait(evs, n) && th.syscall == SyscallAt(evs, evs[n].ev.tid, n) && th.msg == MessageAt(evs, evs[n].ev.tid, n)
    ensures NewWait(evs[n], n, th, sends) == OpenAt(evs, sends, n)
  {
  }

  class Analysis {
    const evs: seq<Timed>
    const sends: set<nat>          // the system call numbers named msgSend
    var threads: map<Tid, Thread>
    var waits: seq<Record>
    var msgs: map<nat, Option<Tid>>
    var irqs: map<nat, seq<nat>>
    ghost var order: seq<nat>      // the wait event each record belongs to

    constructor (evs: seq<Timed>, sends: set<nat>)
      ensures this.evs == evs && this.sends == sends && Exact(evs, sends, 0, Now())
    {
      this.evs, this.sends := evs, sends;
      threads, waits, msgs, irqs, order := map[], [], map[], map[], [];
    }

    ghost function Now(): State
      reads this
    {
      State(threads, waits, msgs, irqs, order)
    }

    method EndWait(t: Tid, closed: nat, ts: int, still: bool)
      requires t in threads && threads[t].wait.Some?
      modifies this`threads, this`waits
      ensures threads == old(threads)[t := old(threads[t]).(wait := None, wake := None)]
      ensures waits == old(waits) + [Ended(old(threads[t]), msgs, closed, ts, still)]
    {
      var th := threads[t];
      waits := waits + [Ended(th, msgs, closed, ts, still)];
      threads := threads[t := th.(wait := None, wake := None)];
    }

    method OnWaking(n: nat)
      requires n < |evs| && Exact(evs, sends, n, Now()) && evs[n].ev.Waking?
      modifies this
      ensures Exact(evs, sends, n + 1, Now())
    {
      var t := evs[n].ev.tid;
      var th := ThreadOf(threads, t);
      ghost var st, recs: seq<Record> := Now(), [];
      ThreadIsExact(evs, sends, n, st, t);
      if th.wait.Some? {
        EndedIsRecord(evs, sends, t, n, msgs, false);
        recs := [Ended(th, msgs, n, evs[n].ts, false)];
        EndWait(t, n, evs[n].ts, false);
      } else {
        threads := threads[t := th.(wake := None)];
      }
      ExactStep(evs, sends, n, st, t, threads, recs);
      order := order + EndingAt(evs, sends, n);
      assert waits == st.waits + recs;
    }

    /** on_wait's first step: a wait still open is ended. */
    method EndOpen(n: nat, t: Tid)
      requires IsWait(evs, n) && t == evs[n].ev.tid && MessagesExact(evs, n, msgs)
      requires ThreadOf(threads, t) == ThreadAt(evs, sends, t, n)
      modifies this`threads, this`waits
      ensures var th := ThreadAt(evs, sends, t, n);
              if th.wait.Some? then
                && IsWait(evs, th.wait.value.index)
                && waits == old(waits) + [RecordAt(evs, sends, th.wait.value.index)]
                && threads == old(threads)[t := th.(wait := None, wake := None)]
              else waits == old(waits) && threads == old(threads)
    {
      if ThreadOf(threads, t).wait.Some? {
        EndedIsRecord(evs, sends, t, n, msgs, true);
        EndWait(t, n, evs[n].ts, true);
      }
    }

    /** on_wait's last step: the new wait is left open, or ended at once if it is complete. */
    method Begin(n: nat, th: Thread, w: OpenWait)
      requires IsWait(evs, n) && MessagesExact(evs, n, msgs) && w == OpenAt(evs, sends, n)
      requires var t := evs[n].ev.tid;
               th.wake == if OpenBefore(evs, sends, t, n).Some? then None else ThreadAt(evs, sends, t, n).wake
      modifies this`threads, this`waits
      ensures waits == old(waits) + if evs[n].ev.flags.complete then [RecordAt(evs, sends, n)] else []
      ensures threads == old(threads)[evs[n].ev.tid :=
                th.(wait := if evs[n].ev.flags.complete then None else Some(w), wake := None)]
    {
      var e := evs[n].ev;
      var th1 := th.(wait := Some(w));
      threads := threads[e.tid := th1];
      if e.flags.complete {
        CompleteIsRecord(evs, sends, n, msgs, th1);
        EndWait(e.tid, n, evs[n].ts, e.flags.still);
      } else {
        threads := threads[e.tid := th1.(wake := None)];
      }
    }

    /** on_wait: the wait still open is ended and the new one begun. */
    method Switch(n: nat, t: Tid) returns (ghost recs: seq<Record>)
      requires IsWait(evs, n) && t == evs[n].ev.tid && MessagesExact(evs, n, msgs)
      requires ThreadOf(threads, t) == ThreadAt(evs, sends, t, n)
      modifies this`threads, this`waits
      ensures waits == old(waits) + recs && RecordsFor(evs, sends, EndingAt(evs, sends, n), recs)
      ensures threads == ThreadsAfter(evs, sends, n, old(threads), t)
    {
      ghost var open := OpenBefore(evs, sends, t, n);
      EndOpen(n, t);
      var th := ThreadOf(threads, t);
      NewWaitIsOpen(evs, sends, n, th);
      Begin(n, th, NewWait(evs[n], n, th, sends));
      recs := (if open.Some? then [RecordAt(evs, sends, open.value.index)] else [])
              + (if evs[n].ev.flags.complete then [RecordAt(evs, sends, n)] else []);
      EndingRecords(evs, sends, n, recs);
    }

    method OnWait(n: nat)
      requires IsWait(evs, n) && Exact(evs, sends, n, Now())
      modifies this
      ensures Exact(evs, sends, n + 1, Now())
    {
      var t := evs[n].ev.tid;
      ghost var st := Now();
      ThreadIsExact(evs, sends, n, st, t);
      ghost var recs := Switch(n, t);
      ExactStep(evs, sends, n, st, t, threads, recs);
      order := order + EndingAt(evs, sends, n);
    }

    /** Every other event. */
    method OnOther(n: nat)
      requires n < |evs| && Exact(evs, sends, n, Now()) && !evs[n].ev.Wait? && !evs[n].ev.Waking?
      modifies this
      ensures Exact(evs, sends, n + 1, Now())
    {
      var e := evs[n];
      ghost var st := Now();
      var stack := if e.cpu in irqs then irqs[e.cpu] else [];
      ghost var t: Tid := 0;
      match e.ev {
        case ScEnter(x, sc) => t, threads := x, threads[x := ThreadOf(threads, x).(syscall := Some(sc), msg := None)];
        case ScExit(x) => t, threads := x, threads[x := ThreadOf(threads, x).(syscall := None, msg := None)];
        case Wakeup(x, waker, cause) =>
          var irq := if stack != [] && cause == 0 then Some(stack[|stack| - 1]) else None;
          t, threads := x, threads[x := ThreadOf(threads, x).(wake := Some(Wake(n, waker, if cause < 4 then cause else 4, irq)))];
        case Send(x, mid) => t, threads := x, threads[x := ThreadOf(threads, x).(msg := Some(mid))];
        case _ =>
      }
      msgs, irqs := MessagesAfter(e.ev, msgs), IrqsAfter(e, irqs);
      ExactStep(evs, sends, n, st, t, threads, []);
      assert waits + [] == waits && order + [] == order;
    }
  }

  /** The time of the last event. */
  function EndTs(evs: seq<Timed>): nat {
    if evs == [] then 0 else evs[|evs| - 1].ts
  }

  /** The record end_wait appends. */
  function Ended(th: Thread, msgs: map<nat, Option<Tid>>, closed: nat, ts: int, still: bool): Record
    requires th.wait.Some?
  {
    var w := th.wait.value;
    var wake := if still then None else th.wake;
    var server :=
      if w.msg.None? then None
      else if w.msg.value in msgs && msgs[w.msg.value].Some? && msgs[w.msg.value].value != 0 then msgs[w.msg.value]
      else if wake.Some? then Some(wake.value.waker) else None;
    Record(w, closed, ts, still, wake, server)
  }

  /** Ending the wait under way gives its record. */
  lemma EndedIsRecord(evs: seq<Timed>, sends: set<nat>, t: Tid, c: nat, msgs: map<nat, Option<Tid>>, still: bool)
    requires c <= |evs| && (c < |evs| ==> Matches(Touch(t), evs[c].ev)) && MessagesExact(evs, c, msgs)
    requires OpenBefore(evs, sends, t, c).Some?
    requires still == (c == |evs| || evs[c].ev.Wait?)
    ensures var th := ThreadAt(evs, sends, t, c);
            var i := th.wait.value.index;
            && IsWait(evs, i) && ClosedAt(evs, i) == c
            && Ended(th, msgs, c, if c < |evs| then evs[c].ts else EndTs(evs), still) == RecordAt(evs, sends, i)
  {
    OpenClosesAt(evs, sends, t, c);
    var i := OpenBefore(evs, sends, t, c).value.index;
    if OpenAt(evs, sends, i).msg.Some? {
      MessageWasSent(evs, sends, i, c);
      assert MessageExact(evs, c, msgs, OpenAt(evs, sends, i).msg.value);
    }
  }

  /** A wait recorded when complete ends at its own event. */
  lemma CompleteIsRecord(evs: seq<Timed>, sends: set<nat>, n: nat, msgs: map<nat, Option<Tid>>, th: Thread)
    requires IsWait(evs, n) && evs[n].ev.flags.complete && MessagesExact(evs, n, msgs)
    requires th.wait == Some(OpenAt(evs, sends, n))
    requires var t := evs[n].ev.tid;
             th.wake == if OpenBefore(evs, sends, t, n).Some? then None else ThreadAt(evs, sends, t, n).wake
    ensures ClosedAt(evs, n) == n
    ensures Ended(th, msgs, n, evs[n].ts, evs[n].ev.flags.still) == RecordAt(evs, sends, n)
  {
    if OpenAt(evs, sends, n).msg.Some? {
      MessageWasSent(evs, sends, n, n);
      assert MessageExact(evs, n, msgs, OpenAt(evs, sends, n).msg.value);
    }
  }

  // ----- Conservation

  function CountWaits(evs: seq<Timed>, n: nat): nat
    requires n <= |evs|
  {
    if n == 0 then 0 else CountWaits(evs, n - 1) + if evs[n-1].ev.Wait? then 1 else 0
  }

  /** The threads with a wait under way. */
  ghost function OpenTids(evs: seq<Timed>, n: nat): set<Tid>
    requires n <= |evs|
  {
    if n == 0 then {} else
    var o, e := OpenTids(evs, n - 1), evs[n-1].ev;
    if e.Wait? && !e.flags.complete then o + {e.tid}
    else if e.Wait? || e.Waking? then o - {e.tid}
    else o
  }

  lemma {:induction false} OpenTidsAreOpen(evs: seq<Timed>, sends: set<nat>, n: nat, t: Tid)
    requires n <= |evs|
    ensures t in OpenTids(evs, n) <==> OpenBefore(evs, sends, t, n).Some?
  {
    if n > 0 {
      OpenTidsAreOpen(evs, sends, n - 1, t);
    }
  }

  /** The wait events that ended before event n. */
  ghost function EndedBefore(evs: seq<Timed>, n: nat): set<nat> {
    set i | 0 <= i < |evs| && IsWait(evs, i) && ClosedAt(evs, i) < n
  }

  lemma EndedGrows(evs: seq<Timed>, sends: set<nat>, n: nat)
    requires n < |evs|
    ensures |EndedBefore(evs, n + 1)| == |EndedBefore(evs, n)| + |EndingAt(evs, sends, n)|
  {
    EndingAtIsExact(evs, sends, n);
    var ends := EndingAt(evs, sends, n);
    var added := SetOf(ends);
    assert EndedBefore(evs, n + 1) == EndedBefore(evs, n) + added && EndedBefore(evs, n) !! added;
    SetOfDistinct(ends);
  }

  ghost function SetOf(s: seq<nat>): set<nat> {
    set i | i in s
  }

  lemma {:induction false} SetOfDistinct(s: seq<nat>)
    requires Distinct(s)
    ensures |SetOf(s)| == |s|
  {
    if s != [] {
      var t := s[..|s| - 1];
      SetOfDistinct(t);
      assert SetOf(s) == SetOf(t) + {s[|s| - 1]};
    }
  }

  lemma OpenTidsStep(evs: seq<Timed>, sends: set<nat>, n: nat)
    requires n < |evs|
    ensures |OpenTids(evs, n + 1)| + |EndingAt(evs, sends, n)| == |OpenTids(evs, n)| + if evs[n].ev.Wait? then 1 else 0
  {
    var e := evs[n].ev;
    if e.Wait? || e.Waking? {
      OpenTidsAreOpen(evs, sends, n, e.tid);
      var o := OpenTids(evs, n);
      assert e.tid in o ==> o + {e.tid} == o && |o - {e.tid}| == |o| - 1;
      assert e.tid !in o ==> |o + {e.tid}| == |o| + 1 && o - {e.tid} == o;
    }
  }

  lemma {:induction false} EndedAndOpen(evs: seq<Timed>, sends: set<nat>, n: nat)
    requires n <= |evs|
    ensures |EndedBefore(evs, n)| + |OpenTids(evs, n)| == CountWaits(evs, n)
  {
    if n == 0 {
      assert EndedBefore(evs, 0) == {};
    } else {
      var m := n - 1;
      EndedAndOpen(evs, sends, m);
      EndedGrows(evs, sends, m);
      OpenTidsStep(evs, sends, m);
      assert CountWaits(evs, m + 1) == CountWaits(evs, m) + if evs[m].ev.Wait? then 1 else 0;
    }
  }

  /** Finished waits and threads with an open wait make up the wait events seen, at every moment of a run. */
  lemma WaitsConserved(evs: seq<Timed>, sends: set<nat>, n: nat, st: State)
    requires n <= |evs| && Exact(evs, sends, n, st)
    ensures |st.waits| + |set t | t in st.threads && st.threads[t].wait.Some?| == CountWaits(evs, n)
  {
    assert EndedBefore(evs, n) == SetOf(st.order);
    SetOfDistinct(st.order);
    forall t ensures t in OpenTids(evs, n) <==> t in st.threads && st.threads[t].wait.Some? {
      OpenTidsAreOpen(evs, sends, n, t);
      ThreadIsExact(evs, sends, n, st, t);
    }
    assert OpenTids(evs, n) == set t | t in st.threads && st.threads[t].wait.Some?;
    EndedAndOpen(evs, sends, n);
  }

  // ----- The whole run

  /** Every record is that of its wait event, no wait event has two, and only those of todo may be missing. */
  ghost predicate Collected(evs: seq<Timed>, sends: set<nat>, waits: seq<Record>, order: seq<nat>, todo: set<Tid>) {
    && |order| == |waits| && Distinct(order)
    && (forall j | 0 <= j < |order| :: RecordFor(evs, sends, order[j], waits[j]))
    && (forall i: nat | IsWait(evs, i) ::
          i in order <==> (evs[i].ev.tid in todo ==> ClosedAt(evs, i) < |evs|))
  }

  lemma CollectStart(evs: seq<Timed>, sends: set<nat>, waits: seq<Record>, order: seq<nat>, threads: map<Tid, Thread>)
    requires WaitsExact(evs, sends, |evs|, waits, order) && ThreadsExact(evs, sends, |evs|, threads)
    ensures Collected(evs, sends, waits, order, threads.Keys)
  {
    assert forall j | 0 <= j < |order| :: Finished(evs, sends, |evs|, order[j], waits[j]);
    forall i: nat | IsWait(evs, i)
      ensures i in order <==> (evs[i].ev.tid in threads.Keys ==> ClosedAt(evs, i) < |evs|)
    {
      if ClosedAt(evs, i) == |evs| {
        EndsNow(evs, sends, i, |evs|);
        NotYetFinished(evs, sends, |evs|, waits, order, i);
        assert ThreadOf(threads, evs[i].ev.tid) == ThreadAt(evs, sends, evs[i].ev.tid, |evs|);
      }
    }
  }

  lemma CollectOne(evs: seq<Timed>, sends: set<nat>, waits: seq<Record>, order: seq<nat>, todo: set<Tid>, t: Tid,
                   recs: seq<Record>, adds: seq<nat>)
    requires Collected(evs, sends, waits, order, todo) && t in todo
    requires var open := OpenBefore(evs, sends, t, |evs|);
             if open.None? then recs == [] && adds == []
             else adds == [open.value.index] && IsWait(evs, adds[0]) && recs == [RecordAt(evs, sends, adds[0])]
    ensures Collected(evs, sends, waits + recs, order + adds, todo - {t})
  {
    if adds != [] {
      OpenClosesAt(evs, sends, t, |evs|);
    }
    DistinctAppend(order, adds);
    forall i: nat | IsWait(evs, i)
      ensures i in order + adds <==> (evs[i].ev.tid in todo - {t} ==> ClosedAt(evs, i) < |evs|)
    {
      if ClosedAt(evs, i) == |evs| {
        EndsNow(evs, sends, i, |evs|);
      }
    }
  }

  method Replay(a: Analysis)
    requires Exact(a.evs, a.sends, 0, a.Now())
    modifies a
    ensures Exact(a.evs, a.sends, |a.evs|, a.Now())
  {
    for n := 0 to |a.evs|
      invariant Exact(a.evs, a.sends, n, a.Now())
    {
      match a.evs[n].ev {
        case Wait(_, _, _, _) => a.OnWait(n);
        case Waking(_) => a.OnWaking(n);
        case _ => a.OnOther(n);
      }
    }
  }

  /** The waits still open at the end of the trace, in any order. */
  method EndRest(a: Analysis, ghost order0: seq<nat>) returns (ghost order: seq<nat>)
    requires var evs := a.evs; MessagesExact(evs, |evs|, a.msgs) && ThreadsExact(evs, a.sends, |evs|, a.threads)
    requires Collected(a.evs, a.sends, a.waits, order0, a.threads.Keys)
    modifies a
    ensures Collected(a.evs, a.sends, a.waits, order, {})
  {
    var evs, sends, msgs, todo := a.evs, a.sends, a.msgs, a.threads.Keys;
    ghost var threads0 := a.threads;
    order := order0;
    while todo != {}
      invariant a.msgs == msgs && todo <= a.threads.Keys && todo <= threads0.Keys
      invariant forall t | t in todo :: a.threads[t] == threads0[t]
      invariant Collected(evs, sends, a.waits, order, todo)
    {
      var t :| t in todo;
      assert ThreadOf(threads0, t) == ThreadAt(evs, sends, t, |evs|);
      ghost var waits0, recs, adds := a.waits, [], [];
      if a.threads[t].wait.Some? {
        EndedIsRecord(evs, sends, t, |evs|, msgs, true);
        recs, adds := [Ended(a.threads[t], msgs, |evs|, EndTs(evs), true)], [a.threads[t].wait.value.index];
        a.EndWait(t, |evs|, EndTs(evs), true);
      }
      assert a.waits == waits0 + recs;
      CollectOne(evs, sends, waits0, order, todo, t, recs, adds);
      order, todo := order + adds, todo - {t};
    }
  }

  /** The records are those of the wait events in `order`, which has each wait event once. */
  ghost predicate Reported(evs: seq<Timed>, sends: set<nat>, waits: seq<Record>, order: seq<nat>) {
    && |waits| == |order| && Distinct(order)
    && (forall j | 0 <= j < |order| :: RecordFor(evs, sends, order[j], waits[j]))
    && forall i: nat | IsWait(evs, i) :: i in order
  }

  /** Analysis.run: each wait event of the trace gets exactly one record, the one the trace holds for it. */
  method Run(evs: seq<Timed>, sends: set<nat>) returns (waits: seq<Record>)
    ensures exists order :: Reported(evs, sends, waits, order)
  {
    var a := new Analysis(evs, sends);
    Replay(a);
    CollectStart(evs, sends, a.waits, a.order, a.threads);
    ghost var order := EndRest(a, a.order);
    waits := a.waits;
    assert Reported(evs, sends, waits, order);
  }

  // ----- What the records mean

  ghost predicate TimeSorted(evs: seq<Timed>) {
    forall i, j | 0 <= i <= j < |evs| :: evs[i].ts <= evs[j].ts
  }

  lemma RecordSpan(evs: seq<Timed>, sends: set<nat>, i: nat)
    requires TimeSorted(evs) && IsWait(evs, i)
    ensures var r := RecordAt(evs, sends, i);
            && r.end >= r.w.start
            && r.end >= evs[i].ts && (r.closed < |evs| ==> r.end == evs[r.closed].ts)
  {
  }

  /** Event k is the last before event n to send, receive or answer message m. */
  ghost predicate LastAbout(evs: seq<Timed>, m: nat, k: nat, n: nat) {
    k < n <= |evs| && About(evs[k].ev, m) && forall j | k < j < n :: !About(evs[j].ev, m)
  }

  predicate About(e: Event, m: nat) {
    match e
    case Send(_, mid) => mid == m
    case Recv(_, mid) => mid == m
    case Respond(_, mid) => mid == m
    case _ => false
  }

  /** What the trace last says about message m before event n: thread t received or answered it. */
  ghost predicate HandledBy(evs: seq<Timed>, m: nat, t: Tid, n: nat) {
    exists k: nat :: LastAbout(evs, m, k, n) && (evs[k].ev == Recv(t, m) || evs[k].ev == Respond(t, m))
  }

  lemma LastIsAbout(evs: seq<Timed>, m: nat, n: nat)
    requires n <= |evs|
    ensures forall k: nat :: LastAbout(evs, m, k, n) <==> k == Last(evs, ServiceOf(m), n)
  {
    forall j: nat | j < n ensures About(evs[j].ev, m) <==> Matches(ServiceOf(m), evs[j].ev) {
    }
    var l := Last(evs, ServiceOf(m), n);
    forall k: nat | LastAbout(evs, m, k, n) ensures k == l {
      assert k <= l;
    }
  }

  /**
   The server of a wait for a message is the thread that last received or answered it before the wait ended, unless
   it was sent again since or that thread is 0; then it is the waker of the wakeup that ended the wait, if any.
   */
  lemma ServerExactly(evs: seq<Timed>, sends: set<nat>, i: nat)
    requires IsWait(evs, i)
    ensures var r := RecordAt(evs, sends, i);
            match r.w.msg
            case None => r.server == None
            case Some(m) =>
              && (forall t: Tid | HandledBy(evs, m, t, r.closed) && t != 0 :: r.server == Some(t))
              && ((forall t: Tid | HandledBy(evs, m, t, r.closed) :: t == 0) ==>
                    r.server == if r.wake.Some? then Some(r.wake.value.waker) else None)
  {
    var r := RecordAt(evs, sends, i);
    if r.w.msg.Some? {
      var m := r.w.msg.value;
      LastIsAbout(evs, m, r.closed);
      var k := Last(evs, ServiceOf(m), r.closed);
      if k >= 0 && !evs[k].ev.Send? {
        assert HandledBy(evs, m, evs[k].ev.tid, r.closed);
      }
    }
  }

  /** The wakeup recorded is that of its event: its waker, its cause up to 4, and for cause 0 the interrupt under way. */
  lemma WakeExactly(evs: seq<Timed>, sends: set<nat>, i: nat)
    requires IsWait(evs, i) && RecordAt(evs, sends, i).wake.Some?
    ensures var w := RecordAt(evs, sends, i).wake.value;
            && w.at < |evs| && evs[w.at].ev.Wakeup? && w.waker == evs[w.at].ev.waker
            && w.cause <= 4 && (evs[w.at].ev.cause <= 4 ==> w.cause == evs[w.at].ev.cause)
            && (evs[w.at].ev.cause > 4 ==> w.cause == 4)
            && var s := IrqStack(evs, evs[w.at].cpu, w.at);
               w.irq == if evs[w.at].ev.cause == 0 && s != [] then Some(s[|s| - 1]) else None
  {
    WakeupNextTouch(evs, sends, i);
  }

  /** A message served by thread 5 and a wakeup by thread 9: the server is 5. */
  const Served := [
    Timed(100, 0, Send(1, 7)),
    Timed(110, 0, Wait(1, Flags(false, false, false), 0, 3)),
    Timed(120, 1, Recv(5, 7)),
    Timed(130, 1, Wakeup(1, 9, 0)),
    Timed(140, 0, Waking(1))]

  lemma ServedByFive()
    ensures IsWait(Served, 1) && RecordAt(Served, {3}, 1).server == Some(5)
  {
    var evs := Served;
    assert Last(evs, MessageOf(1), 1) == 0;
    assert First(evs, Touch(1), 2) == 4 by { assert First(evs, Touch(1), 3) == First(evs, Touch(1), 4) == 4; }
    assert LastAbout(evs, 7, 2, 4);
    assert HandledBy(evs, 7, 5, 4);
    ServerExactly(evs, {3}, 1);
  }

  /** A wakeup ends at most one wait. */
  lemma WakeupEndsOneWait(evs: seq<Timed>, sends: set<nat>, i: nat, j: nat)
    requires IsWait(evs, i) && IsWait(evs, j)
    requires var a := RecordAt(evs, sends, i).wake; var b := RecordAt(evs, sends, j).wake;
             a.Some? && b.Some? && a.value.at == b.value.at
    ensures i == j
  {
    var k := RecordAt(evs, sends, i).wake.value.at;
    WakeupNextTouch(evs, sends, i);
    WakeupNextTouch(evs, sends, j);
    var t := evs[k].ev.tid;
    assert First(evs, Touch(t), k) == ClosedAt(evs, i) == ClosedAt(evs, j);
    if ClosedAt(evs, i) > i && ClosedAt(evs, j) > j {
      assert Last(evs, Touch(t), k) == i == j;
    }
  }

  /** The wakeup that ended a wait is the thread's, and the next thing to happen to the thread is that end. */
  lemma WakeupNextTouch(evs: seq<Timed>, sends: set<nat>, i: nat)
    requires IsWait(evs, i) && RecordAt(evs, sends, i).wake.Some?
    ensures var k := RecordAt(evs, sends, i).wake.value.at; var c := ClosedAt(evs, i); var t := evs[i].ev.tid;
            && k < c < |evs| && evs[k].ev.Wakeup? && evs[k].ev.tid == t
            && (forall x | k < x < c :: !Matches(Touch(t), evs[x].ev) && !Matches(WakeOf(t), evs[x].ev))
            && (c > i ==> i < k && evs[c].ev.Waking?)
            && (c == i ==> evs[i].ev.flags.complete)
  {
  }

  /** For a wait recorded at its start, the wakeup lies inside the wait. */
  lemma WakeupInsideWait(evs: seq<Timed>, sends: set<nat>, i: nat)
    requires TimeSorted(evs) && IsWait(evs, i) && !evs[i].ev.flags.complete
    requires RecordAt(evs, sends, i).wake.Some?
    ensures var r := RecordAt(evs, sends, i); r.w.start <= evs[r.wake.value.at].ts <= r.end
  {
    WakeupNextTouch(evs, sends, i);
  }

  /** Waits of one thread recorded at their start never overlap. */
  lemma WaitsDoNotOverlap(evs: seq<Timed>, sends: set<nat>, i: nat, j: nat)
    requires TimeSorted(evs) && IsWait(evs, i) && IsWait(evs, j) && i < j
    requires evs[i].ev.tid == evs[j].ev.tid && !evs[j].ev.flags.complete
    ensures RecordAt(evs, sends, i).end <= RecordAt(evs, sends, j).w.start
  {
    assert Matches(Touch(evs[i].ev.tid), evs[j].ev);
  }

  /**
   A wait recorded when complete begins no earlier than an earlier one ended exactly if its blocked time is at most
   the time since the event that ended that one: its own event, or the next wait or waking of the thread.
   */
  lemma CompleteWaitOverlaps(evs: seq<Timed>, sends: set<nat>, i: nat, j: nat)
    requires TimeSorted(evs) && IsWait(evs, i) && IsWait(evs, j) && i < j
    requires evs[i].ev.tid == evs[j].ev.tid && evs[j].ev.flags.complete
    ensures var c := ClosedAt(evs, i);
            && i <= c <= j && (c > i ==> forall x | i < x < c :: !Matches(Touch(evs[i].ev.tid), evs[x].ev))
            && RecordAt(evs, sends, i).end <= RecordAt(evs, sends, j).end
            && (RecordAt(evs, sends, i).end <= RecordAt(evs, sends, j).w.start
                <==> evs[j].ev.blocked <= evs[j].ts - evs[c].ts)
  {
    assert Matches(Touch(evs[i].ev.tid), evs[j].ev);
  }

  /** No two records of one thread overlap. */
  ghost predicate NoOverlap(evs: seq<Timed>, sends: set<nat>) {
    forall i: nat, j: nat | IsWait(evs, i) && IsWait(evs, j) && i < j && evs[i].ev.tid == evs[j].ev.tid ::
      RecordAt(evs, sends, i).end <= RecordAt(evs, sends, j).w.start
  }

  /** If wait j was recorded when complete, it was not blocked longer than since the last wait of its thread ended. */
  ghost predicate Fits(evs: seq<Timed>, j: nat)
    requires IsWait(evs, j)
  {
    var i := Last(evs, WaitOf(evs[j].ev.tid), j);
    evs[j].ev.flags.complete && i >= 0 ==>
      ClosedAt(evs, i) <= j && evs[j].ev.blocked <= evs[j].ts - evs[ClosedAt(evs, i)].ts
  }

  /** An earlier wait of the thread ends no later than a later one. */
  lemma EndsInOrder(evs: seq<Timed>, i: nat, k: nat)
    requires TimeSorted(evs) && IsWait(evs, i) && IsWait(evs, k) && i <= k && evs[i].ev.tid == evs[k].ev.tid
    ensures ClosedAt(evs, i) <= ClosedAt(evs, k)
  {
    assert Matches(Touch(evs[i].ev.tid), evs[k].ev);
  }

  /** In a time-sorted trace no two records of one thread overlap exactly if every complete wait fits. */
  lemma OverlapExactly(evs: seq<Timed>, sends: set<nat>)
    requires TimeSorted(evs)
    ensures NoOverlap(evs, sends) <==> forall j: nat | IsWait(evs, j) :: Fits(evs, j)
  {
    forall j: nat | IsWait(evs, j) && NoOverlap(evs, sends) ensures Fits(evs, j) {
      LastFits(evs, sends, j);
    }
    if forall j: nat | IsWait(evs, j) :: Fits(evs, j) {
      forall i: nat, j: nat | IsWait(evs, i) && IsWait(evs, j) && i < j && evs[i].ev.tid == evs[j].ev.tid
        ensures RecordAt(evs, sends, i).end <= RecordAt(evs, sends, j).w.start
      {
        FitsAll(evs, sends, i, j);
      }
    }
  }

  lemma LastFits(evs: seq<Timed>, sends: set<nat>, j: nat)
    requires TimeSorted(evs) && IsWait(evs, j) && NoOverlap(evs, sends)
    ensures Fits(evs, j)
  {
    var i := Last(evs, WaitOf(evs[j].ev.tid), j);
    if evs[j].ev.flags.complete && i >= 0 {
      CompleteWaitOverlaps(evs, sends, i, j);
    }
  }

  lemma FitsAll(evs: seq<Timed>, sends: set<nat>, i: nat, j: nat)
    requires TimeSorted(evs) && IsWait(evs, i) && IsWait(evs, j) && i < j && evs[i].ev.tid == evs[j].ev.tid
    requires Fits(evs, j)
    ensures RecordAt(evs, sends, i).end <= RecordAt(evs, sends, j).w.start
  {
    if evs[j].ev.flags.complete {
      var k := Last(evs, WaitOf(evs[j].ev.tid), j);
      assert Matches(WaitOf(evs[j].ev.tid), evs[i].ev);
      EndsInOrder(evs, i, k);
      CompleteWaitOverlaps(evs, sends, i, j);
    } else {
      WaitsDoNotOverlap(evs, sends, i, j);
    }
  }

  /** Thread 1 waits from 100 to 110; at 120 a wait is recorded that was blocked for 15. */
  const Overlapping := [
    Timed(100, 0, Wait(1, Flags(false, false, false), 0, 0xFFFF)),
    Timed(110, 0, Waking(1)),
    Timed(120, 0, Wait(1, Flags(false, true, false), 15, 0xFFFF))]

  lemma OverlapHappens(sends: set<nat>)
    ensures TimeSorted(Overlapping) && IsWait(Overlapping, 0) && IsWait(Overlapping, 2)
    ensures RecordAt(Overlapping, sends, 0).end == 110 && RecordAt(Overlapping, sends, 2).w.start == 105
  {
    assert Matches(Touch(1), Overlapping[1].ev);
    assert First(Overlapping, Touch(1), 1) == 1;
  }

  /**
   A complete wait whose thread had a wakeup since its last wait or waking is attributed that wakeup exactly if that
   last event did not leave a wait open.
   */
  lemma CompleteWaitWakes(evs: seq<Timed>, sends: set<nat>, i: nat, p: int, k: nat)
    requires IsWait(evs, i) && evs[i].ev.flags.complete && !evs[i].ev.flags.still
    requires p == Last(evs, Touch(evs[i].ev.tid), i)
    requires p < k < i && evs[k].ev.Wakeup? && evs[k].ev.tid == evs[i].ev.tid && k == Last(evs, WakeOf(evs[i].ev.tid), i)
    ensures RecordAt(evs, sends, i).wake == Some(WakeAt(evs, k)) <==>
            !(p >= 0 && evs[p].ev.Wait? && !evs[p].ev.flags.complete)
    ensures p >= 0 && evs[p].ev.Wait? && !evs[p].ev.flags.complete ==>
            RecordAt(evs, sends, i).wake == None && RecordAt(evs, sends, p).wake == None
  {
    if p >= 0 && evs[p].ev.Wait? && !evs[p].ev.flags.complete {
      assert First(evs, Touch(evs[i].ev.tid), p + 1) == i;
    }
  }

  /** Thread 1 waits, thread 2 wakes it, and then a complete wait of thread 1 is recorded: nobody gets the wakeup. */
  const Dropped := [
    Timed(100, 0, Wait(1, Flags(false, false, false), 0, 0xFFFF)),
    Timed(110, 0, Wakeup(1, 2, 0)),
    Timed(120, 0, Wait(1, Flags(false, true, false), 5, 0xFFFF))]

  lemma WakeupIsDropped(sends: set<nat>)
    ensures IsWait(Dropped, 0) && IsWait(Dropped, 2)
    ensures RecordAt(Dropped, sends, 0).wake == None && RecordAt(Dropped, sends, 2).wake == None
  {
    assert Last(Dropped, Touch(1), 2) == 0 && Last(Dropped, WakeOf(1), 2) == 1;
    CompleteWaitWakes(Dropped, sends, 2, 0, 1);
  }
}
