/**
 From decoded events to what the wait machine sees: the fields the handlers of scripts/prof-report.py unpack
 (Analysis.run, on_wait), and the whole way from the bytes of a trace to its wait records.
 */
module TraceEvents {
  import opened LittleEndian
  import D = TraceDecode
  import W = WaitTracker

  type Half = x: nat | x < 0x1_0000_0000

  type Quarter = x: nat | x < 0x1_0000

  // ----- The recorder's side

  /** What is recorded, field by field, in the order of the payload. */
  datatype Traced =
    | IrqEnter(irq: byte)
    | IrqExit(irq: byte)
    | Waking(tid: Quarter)
    | ScEnter(n: byte, tid: Quarter)
    | ScExit(n: byte, tid: Quarter)
    | Wakeup(tid: Quarter, waker: Quarter, cause: byte)
    | Send(tid: Quarter, port: Half, kind: Half, mid: Half)
    | Recv(tid: Quarter, port: Half, mid: Half, spid: Quarter)
    | Respond(tid: Quarter, port: Half, mid: Half)
    | Create(pid: Quarter, tid: Quarter, extra: byte, name: seq<byte>)
    | Exec(pid: Quarter, tid: Quarter, extra: byte, name: seq<byte>)
    | Stats(lost: Half, late: Half)
    | Sample(tid: Quarter, mode: byte, kflags: byte, kpc: Word, klr: Word, sc: Quarter, ec: byte, kfar: Word,
             kframes: seq<Word>, regs: seq<Word>, frames: seq<Word>, stack: seq<Word>)
    | Wait(tid: Quarter, flags: byte, queue: Half, timeout: Half, blocked: Half, sc: Quarter, args: seq<Word>,
           kframes: seq<Word>, regs: seq<Word>, frames: seq<Word>, stack: seq<Word>)

  function IdOf(t: Traced): byte {
    match t
    case IrqEnter(_) => 0x20
    case IrqExit(_) => 0x21
    case Waking(_) => 0x25
    case ScEnter(_, _) => 0x28
    case ScExit(_, _) => 0x29
    case Wakeup(_, _, _) => 0x42
    case Send(_, _, _, _) => 0x43
    case Recv(_, _, _, _) => 0x44
    case Respond(_, _, _) => 0x45
    case Create(_, _, _, _) => 0x26
    case Exec(_, _, _, _) => 0x33
    case Stats(_, _) => 0x46
    case Sample(_, _, _, _, _, _, _, _, _, _, _, _) => 0x40
    case Wait(_, _, _, _, _, _, _, _, _, _, _) => 0x41
  }

  /** The counts and the arguments have their sizes. */
  predicate Countable(t: Traced) {
    && (t.Create? || t.Exec? ==> |t.name| == 128) && (t.Wait? ==> |t.args| == 4)
    && (t.Wait? || t.Sample? ==> |t.kframes| < 256 && |t.regs| == 4 && |t.frames| < 256 && |t.stack| < 0x1_0000)
  }

  function Fixed(t: Traced): seq<byte> {
    match t
    case IrqEnter(irq) => [irq]
    case IrqExit(irq) => [irq]
    case Waking(tid) => Le16(tid)
    case ScEnter(n, tid) => [n] + Le16(tid)
    case ScExit(n, tid) => [n] + Le16(tid)
    case Wakeup(tid, waker, cause) => Le16(tid) + Le16(waker) + [cause]
    case Send(tid, port, kind, mid) => Le16(tid) + Le32(port) + Le32(kind) + Le32(mid)
    case Recv(tid, port, mid, spid) => Le16(tid) + Le32(port) + Le32(mid) + Le16(spid)
    case Respond(tid, port, mid) => Le16(tid) + Le32(port) + Le32(mid)
    case Create(pid, tid, extra, name) => Le16(pid) + Le16(tid) + [extra] + name
    case Exec(pid, tid, extra, name) => Le16(pid) + Le16(tid) + [extra] + name
    case Stats(lost, late) => Le32(lost) + Le32(late)
    case Sample(tid, mode, kflags, kpc, klr, sc, ec, kfar, _, _, _, _) =>
      Le16(tid) + [mode, kflags] + Le64(kpc) + Le64(klr) + Le16(sc) + [ec] + Le64(kfar)
    case Wait(tid, flags, queue, timeout, blocked, sc, args, _, _, _, _) =>
      Le16(tid) + [flags] + Le32(queue) + Le32(timeout) + Le32(blocked) + Le16(sc) + D.Words(args)
  }

  function BodyOf(t: Traced): D.Body {
    if t.Wait? || t.Sample? then D.Nested(Fixed(t), t.kframes, t.regs, t.frames, t.stack) else D.Plain(Fixed(t))
  }

  /** The table of payload sizes agrees with the fields. */
  lemma SizesAgree(t: Traced, ts: Half)
    requires Countable(t)
    ensures D.WellFormed(D.Event(ts, IdOf(t), BodyOf(t)))
    ensures !t.Wait? && !t.Sample? ==> D.FixedSize(IdOf(t)) == |Fixed(t)|
    ensures (t.Wait? ==> |Fixed(t)| == 49) && (t.Sample? ==> |Fixed(t)| == 31)
  {
  }

  // ----- What the handlers unpack

  /** The payload is long enough for its handler. */
  predicate Whole(eid: byte, p: seq<byte>) {
    match eid
    case 0x20 => |p| >= 1
    case 0x25 => |p| >= 2
    case 0x28 => |p| >= 3
    case 0x29 => |p| >= 3
    case 0x42 => |p| >= 5
    case 0x43 => |p| >= 14
    case 0x44 => |p| >= 12
    case 0x45 => |p| >= 10
    case 0x41 => |p| >= 50
    case _ => true
  }

  function FlagsOf(f: byte): W.Flags {
    W.Flags(f % 2 == 1, f / 2 % 2 == 1, f / 4 % 2 == 1)
  }

  /** The event as the handlers see it. */
  function Handled(eid: byte, p: seq<byte>): W.Event
    requires Whole(eid, p)
  {
    match eid
    case 0x20 => W.IrqEnter(p[0])
    case 0x21 => W.IrqExit
    case 0x25 => W.Waking(U16(p, 0))
    case 0x28 => W.ScEnter(U16(p, 1), p[0])
    case 0x29 => W.ScExit(U16(p, 1))
    case 0x42 => W.Wakeup(U16(p, 0), U16(p, 2), p[4])
    case 0x43 => W.Send(U16(p, 0), U32(p, 10))
    case 0x44 => W.Recv(U16(p, 0), U32(p, 6))
    case 0x45 => W.Respond(U16(p, 0), U32(p, 6))
    case 0x41 => W.Wait(U16(p, 0), FlagsOf(p[2]), U32(p, 11), U16(p, 15))
    case _ => W.Other
  }

  /** What was recorded, in the terms of the wait machine. */
  ghost function Meaning(t: Traced): W.Event {
    match t
    case IrqEnter(irq) => W.IrqEnter(irq)
    case IrqExit(_) => W.IrqExit
    case Waking(tid) => W.Waking(tid)
    case ScEnter(n, tid) => W.ScEnter(tid, n)
    case ScExit(_, tid) => W.ScExit(tid)
    case Wakeup(tid, waker, cause) => W.Wakeup(tid, waker, cause)
    case Send(tid, _, _, mid) => W.Send(tid, mid)
    case Recv(tid, _, mid, _) => W.Recv(tid, mid)
    case Respond(tid, _, mid) => W.Respond(tid, mid)
    case Wait(tid, flags, _, _, blocked, sc, _, _, _, _, _) =>
      W.Wait(tid, W.Flags(flags % 2 != 0, flags % 4 >= 2, flags % 8 >= 4), blocked, sc)
    case _ => W.Other
  }

  lemma At16(p: seq<byte>, o: nat, v: Quarter)
    requires o + 2 <= |p| && p[o..o + 2] == Le16(v)
    ensures U16(p, o) == v
  {
    Reads16(p, o, v);
  }

  lemma At32(p: seq<byte>, o: nat, v: Half)
    requires o + 4 <= |p| && p[o..o + 4] == Le32(v)
    ensures U32(p, o) == v
  {
    Reads32(p, o, v);
  }

  lemma SecondBit(f: byte)
    ensures f / 2 % 2 == 1 <==> f % 4 >= 2
  {
  }

  lemma ThirdBit(f: byte)
    ensures f / 4 % 2 == 1 <==> f % 8 >= 4
  {
  }

  lemma FlagsAre(f: byte)
    ensures FlagsOf(f) == W.Flags(f % 2 != 0, f % 4 >= 2, f % 8 >= 4)
  {
    SecondBit(f);
    ThirdBit(f);
  }

  lemma SendHandled(t: Traced)
    requires t.Send? || t.Recv? || t.Respond?
    ensures Whole(IdOf(t), Fixed(t)) && Handled(IdOf(t), Fixed(t)) == Meaning(t)
  {
    var p := Fixed(t);
    assert p[0..2] == Le16(t.tid);
    At16(p, 0, t.tid);
    if t.Send? {
      assert p[10..14] == Le32(t.mid);
      At32(p, 10, t.mid);
    } else {
      assert p[6..10] == Le32(t.mid);
      At32(p, 6, t.mid);
    }
  }

  lemma CallHandled(t: Traced)
    requires t.ScEnter? || t.ScExit? || t.Wakeup? || t.Waking? || t.IrqEnter? || t.IrqExit?
    ensures Whole(IdOf(t), Fixed(t)) && Handled(IdOf(t), Fixed(t)) == Meaning(t)
  {
    var p := Fixed(t);
    if t.ScEnter? || t.ScExit? {
      assert p[1..3] == Le16(t.tid);
      At16(p, 1, t.tid);
    } else if t.Wakeup? || t.Waking? {
      assert p[0..2] == Le16(t.tid);
      At16(p, 0, t.tid);
      if t.Wakeup? {
        assert p[2..4] == Le16(t.waker);
        At16(p, 2, t.waker);
      }
    }
  }

  /** The fields of a wait, whatever follows them. */
  lemma WaitFields(t: Traced, rest: seq<byte>)
    requires t.Wait?
    ensures var p := Fixed(t) + rest;
            |p| >= 17 && U16(p, 0) == t.tid && p[2] == t.flags && U32(p, 11) == t.blocked && U16(p, 15) == t.sc
  {
    var p := Fixed(t) + rest;
    assert p[0..2] == Le16(t.tid) && p[11..15] == Le32(t.blocked) && p[15..17] == Le16(t.sc);
    At16(p, 0, t.tid);
    At32(p, 11, t.blocked);
    At16(p, 15, t.sc);
  }

  lemma WaitPayload(t: Traced) returns (rest: seq<byte>)
    requires t.Wait? && Countable(t)
    ensures D.EncodeBody(BodyOf(t)) == Fixed(t) + rest && |rest| >= 1
  {
    var n, words, urec := [|t.kframes|], D.Words(t.kframes), D.Urecord(BodyOf(t));
    rest := n + words + urec;
    Associates(Fixed(t), n, words, urec);
  }

  lemma Associates(a: seq<byte>, b: seq<byte>, c: seq<byte>, d: seq<byte>)
    ensures a + b + c + d == a + (b + c + d)
  {
  }

  lemma WaitHandled(t: Traced)
    requires t.Wait? && Countable(t)
    ensures var p := D.EncodeBody(BodyOf(t)); Whole(IdOf(t), p) && Handled(IdOf(t), p) == Meaning(t)
  {
    var rest := WaitPayload(t);
    SizesAgree(t, 0);
    WaitFields(t, rest);
    FlagsAre(t.flags);
  }

  /** What is recorded is what the handlers see. */
  lemma HandledAsRecorded(t: Traced)
    requires Countable(t)
    ensures var p := D.EncodeBody(BodyOf(t)); Whole(IdOf(t), p) && Handled(IdOf(t), p) == Meaning(t)
  {
    match t {
      case Wait(_, _, _, _, _, _, _, _, _, _, _) => WaitHandled(t);
      case Send(_, _, _, _) => SendHandled(t);
      case Recv(_, _, _, _) => SendHandled(t);
      case Respond(_, _, _) => SendHandled(t);
      case Create(_, _, _, _) =>
      case Exec(_, _, _, _) =>
      case Stats(_, _) =>
      case Sample(_, _, _, _, _, _, _, _, _, _, _, _) =>
      case _ => CallHandled(t);
    }
  }

  // ----- From the bytes of the channels to the records

  /** Every event the decoder lets through is whole: no handler reads behind its payload. */
  lemma DecodedIsWhole(b: seq<byte>, o: nat, seqno: nat, cpu: nat, r: D.Raw)
    requires D.Of(b).Parses(o) && D.Stands(b, o, seqno, cpu, r)
    ensures Whole(r.eid, r.payload)
  {
    D.OfAt(b, o);
  }

  function TimedOf(r: D.Raw): W.Timed
    requires Whole(r.eid, r.payload)
  {
    W.Timed(r.ts, r.cpu, Handled(r.eid, r.payload))
  }

  ghost predicate AllWhole(raws: seq<D.Raw>) {
    forall k | 0 <= k < |raws| :: Whole(raws[k].eid, raws[k].payload)
  }

  /** evs are the decoded events as the handlers see them. */
  ghost predicate SeenAs(raws: seq<D.Raw>, evs: seq<W.Timed>) {
    |evs| == |raws| && forall k | 0 <= k < |raws| :: Whole(raws[k].eid, raws[k].payload) && evs[k] == TimedOf(raws[k])
  }

  method Handle(raws: seq<D.Raw>) returns (evs: seq<W.Timed>)
    requires AllWhole(raws)
    ensures SeenAs(raws, evs)
  {
    evs := [];
    for k := 0 to |raws|
      invariant SeenAs(raws[..k], evs)
    {
      evs := evs + [TimedOf(raws[k])];
    }
    assert raws[..|raws|] == raws;
  }

  lemma TraceIsWhole(files: seq<(nat, seq<byte>)>, raws: seq<D.Raw>)
    requires forall r | r in raws :: D.FromFile(files, r)
    ensures AllWhole(raws)
  {
    forall k | 0 <= k < |raws| ensures Whole(raws[k].eid, raws[k].payload) {
      assert D.FromFile(files, raws[k]);
      var i: nat, o: nat :| D.ReadFrom(files, raws[k], i, o);
      DecodedIsWhole(files[i].1, o, raws[k].seqno, files[i].0, raws[k]);
    }
  }

  /** The channel files, decoded and merged, are the events evs. */
  ghost predicate TraceOf(files: seq<(nat, seq<byte>)>, raws: seq<D.Raw>, evs: seq<W.Timed>) {
    && SeenAs(raws, evs)
    && exists parts, offs ::
         D.AllLoaded(files, parts, offs) && |offs| == |files| && D.IsMergeOf(raws, parts[|files|])
  }

  /** Any channel files at all: they are decoded without a fault, and each wait gets the record its trace holds for it. */
  method Analyze(files: seq<(nat, seq<byte>)>, sends: set<nat>) returns (waits: seq<W.Record>)
    ensures exists raws, evs, order :: TraceOf(files, raws, evs) && W.Reported(evs, sends, waits, order)
  {
    var raws := D.LoadTrace(files);
    TraceIsWhole(files, raws);
    var evs := Handle(raws);
    waits := W.Run(evs, sends);
    ghost var order :| W.Reported(evs, sends, waits, order);
    assert TraceOf(files, raws, evs);
  }

  // ----- The whole way for a recorded trace

  /** Event k was recorded at that time. */
  datatype Stamped = Stamped(ts: Half, event: Traced)

  predicate Recordable(trace: seq<Stamped>) {
    && (forall k | 0 <= k < |trace| :: Countable(trace[k].event))
    && forall i, j | 0 <= i < j < |trace| :: trace[i].ts <= trace[j].ts
  }

  function Written(trace: seq<Stamped>): (evs: seq<D.Event>)
    ensures |evs| == |trace|
  {
    seq(|trace|, k requires 0 <= k < |trace| => D.Event(trace[k].ts, IdOf(trace[k].event), BodyOf(trace[k].event)))
  }

  /** What the wait machine is to see of it, on one CPU. */
  ghost function Recorded(trace: seq<Stamped>, cpu: nat): (evs: seq<W.Timed>)
    ensures |evs| == |trace|
  {
    seq(|trace|, k requires 0 <= k < |trace| => W.Timed(trace[k].ts, cpu, Meaning(trace[k].event)))
  }

  lemma WrittenIsWellFormed(trace: seq<Stamped>)
    requires Recordable(trace)
    ensures forall e | e in Written(trace) :: D.WellFormed(e)
    ensures D.InOrder(D.Stamps(Written(trace)))
  {
    forall e | e in Written(trace) ensures D.WellFormed(e) {
      var k :| 0 <= k < |trace| && Written(trace)[k] == e;
      SizesAgree(trace[k].event, trace[k].ts);
    }
  }

  lemma ReadIsRecorded(trace: seq<Stamped>, cpu: nat, k: nat, r: D.Raw)
    requires Recordable(trace) && k < |trace| && D.ReadAs(r, Written(trace)[k], cpu, k)
    ensures Whole(r.eid, r.payload) && TimedOf(r) == Recorded(trace, cpu)[k]
  {
    HandledAsRecorded(trace[k].event);
  }

  /**
   The whole way: a trace written by one CPU, with its start lost up to junk that holds no boundary, is decoded to
   exactly the events recorded, and each wait gets the record they hold for it.
   */
  method AnalyzeRecorded(junk: seq<byte>, trace: seq<Stamped>, cpu: nat, sends: set<nat>)
    returns (waits: seq<W.Record>, skipped: nat)
    requires Recordable(trace) && (trace != [] || junk == [])
    requires (forall e | e in Written(trace) :: D.WellFormed(e)) ==>
               D.NoBoundaryIn(D.Of(junk + D.Join(D.EncodeEach(Written(trace)), |trace|)), 0, |junk|)
    ensures skipped == |junk|
    ensures exists order :: W.Reported(Recorded(trace, cpu), sends, waits, order)
  {
    WrittenIsWellFormed(trace);
    var raws;
    raws, skipped := D.LoadEncoded(junk, Written(trace), cpu);
    forall k | 0 <= k < |raws| ensures Whole(raws[k].eid, raws[k].payload) && TimedOf(raws[k]) == Recorded(trace, cpu)[k] {
      ReadIsRecorded(trace, cpu, k, raws[k]);
    }
    var evs := Handle(raws);
    assert evs == Recorded(trace, cpu);
    waits := W.Run(evs, sends);
  }
}
