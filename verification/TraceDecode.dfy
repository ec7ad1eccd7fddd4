/**
 The binary trace decoder of scripts/prof-report.py: variable-length events with nested counts
 (urec_end, parse_urec, ev_size), resynchronisation after dropped bytes (sync_at, load_stream) and
 the merge of the per-CPU streams (load_trace).
 */
module TraceDecode {

  import opened LittleEndian

  const EV_SAMPLE: byte := 0x40
  const EV_WAIT: byte := 0x41
  const RESYNC_RUN := 6

  /** EV_FIXED: payload size of the fixed-size events, 0 for an unknown id. */
  function FixedSize(eid: byte): nat {
    match eid
    case 0x20 => 1 case 0x21 => 1 case 0x22 => 2 case 0x23 => 2 case 0x24 => 2 case 0x25 => 2
    case 0x26 => 133 case 0x27 => 4 case 0x28 => 3 case 0x29 => 3 case 0x2a => 1 case 0x2b => 1
    case 0x2c => 20 case 0x2d => 6 case 0x2e => 6 case 0x2f => 6 case 0x30 => 6 case 0x31 => 3
    case 0x32 => 2 case 0x33 => 133 case 0x42 => 5 case 0x43 => 14 case 0x44 => 12 case 0x45 => 10
    case 0x46 => 8
    case _ => 0
  }

  /** The ids of fixed-size events, and which of them share a size. */
  lemma KnownIds(eid: byte)
    ensures FixedSize(eid) > 0 <==> 0x20 <= eid <= 0x33 || 0x42 <= eid <= 0x46
    ensures FixedSize(eid) == 1 <==> eid in [0x20, 0x21, 0x2a, 0x2b]
    ensures FixedSize(eid) == 2 <==> 0x22 <= eid <= 0x25 || eid == 0x32
    ensures FixedSize(eid) == 3 <==> eid in [0x28, 0x29, 0x31]
    ensures FixedSize(eid) == 6 <==> 0x2d <= eid <= 0x30
    ensures FixedSize(eid) == 133 <==> eid in [0x26, 0x33]
    ensures FixedSize(0x27) == 4 && FixedSize(0x2c) == 20
  {
  }

  function Words(ws: seq<Word>): (s: seq<byte>)
    ensures |s| == 8 * |ws|
  {
    if ws == [] then [] else Le64(ws[0]) + Words(ws[1..])
  }

  /** "<%dQ": n words starting at o. */
  function UnpackWords(b: seq<byte>, o: nat, n: nat): seq<nat>
    requires o + 8 * n <= |b|
    decreases n
  {
    if n == 0 then [] else [U64(b, o)] + UnpackWords(b, o + 8, n - 1)
  }

  // ----- Reading one event

  /** The count byte at o. */
  function Count(b: seq<byte>, o: nat): nat
    requires o < |b|
  {
    b[o]
  }

  /** urec_end: size of the payload at p whose user part starts at p + o, 0 if it does not fit. */
  function UrecEnd(b: seq<byte>, p: nat, o: nat): (r: nat)
    requires p <= |b|
    ensures r != 0 ==> o + 35 <= r <= |b| - p
  {
    var avail := |b| - p;
    if avail < o + 33 then 0 else
    var o1 := o + 33 + Count(b, p + o + 32) * 8;
    if avail < o1 + 2 then 0 else
    var o2 := o1 + 2 + U16(b, p + o1) * 8;
    if avail < o2 then 0 else o2
  }

  /** parse_urec: registers, frames and the copied stack of a user record. */
  datatype Urec = Urec(pc: nat, lr: nat, sp: nat, fp: nat, frames: seq<nat>, stack: seq<nat>)

  function ParseUrec(b: seq<byte>, o: nat): Urec
    requires UrecEnd(b, 0, o) != 0
  {
    var nf := Count(b, o + 32);
    var o1 := o + 33 + nf * 8;
    var ns := U16(b, o1);
    Urec(U64(b, o), U64(b, o + 8), U64(b, o + 16), U64(b, o + 24),
         UnpackWords(b, o + 33, nf), UnpackWords(b, o1 + 2, ns))
  }

  /** ev_size: payload size of the event at o, 0 if unknown or truncated. */
  function EvSize(b: seq<byte>, o: nat): (r: nat)
    requires o + 5 <= |b|
    ensures r != 0 ==> o + 5 + r <= |b|
  {
    var eid := b[o + 4];
    var p := o + 5;
    var avail := |b| - p;
    if eid == EV_SAMPLE then
      if avail < 32 then 0 else UrecEnd(b, p, 32 + Count(b, p + 31) * 8)
    else if eid == EV_WAIT then
      if avail < 50 then 0 else UrecEnd(b, p, 50 + Count(b, p + 49) * 8)
    else
      var sz := FixedSize(eid);
      if avail >= sz then sz else 0
  }

  function Ts(b: seq<byte>, o: nat): nat
    requires o + 4 <= |b|
  {
    U32(b, o)
  }

  // ----- Boundaries

  datatype Option<+T> = None | Some(value: T)

  /** A byte string as the decoder sees it: what, if anything, parses at each offset. */
  datatype Stream = Stream(len: nat, size: nat -> nat, ts: nat -> nat) {
    ghost predicate Parses(o: nat) {
      size(o) != 0 && Next(o) <= len
    }

    ghost function Next(o: nat): nat {
      o + 5 + size(o)
    }
  }

  ghost function Of(b: seq<byte>): Stream {
    Stream(|b|, (o: nat) => if o + 5 <= |b| then EvSize(b, o) else 0, (o: nat) => if o + 4 <= |b| then Ts(b, o) else 0)
  }

  /** The offset after n events parsed back to back from o. */
  ghost function Hop(s: Stream, o: nat, n: nat): (r: Option<nat>)
    ensures r.Some? && n > 0 ==> o + 5 * n < r.value <= s.len
  {
    if n == 0 then Some(o) else
    var h := Hop(s, o, n - 1);
    if h.Some? && s.Parses(h.value) then Some(s.Next(h.value)) else None
  }

  lemma {:induction false} HopPrefix(s: Stream, o: nat, i: nat, n: nat)
    requires i < n && Hop(s, o, n).Some?
    ensures Hop(s, o, i).Some? && s.Parses(Hop(s, o, i).value)
    decreases n
  {
    if i < n - 1 {
      HopPrefix(s, o, i, n - 1);
    }
  }

  ghost function TsAtHop(s: Stream, o: nat, i: nat): nat {
    var h := Hop(s, o, i);
    if h.Some? then s.ts(h.value) else 0
  }

  /** n events parse back to back from o with time not going back. */
  ghost predicate Run(s: Stream, o: nat, n: nat) {
    Hop(s, o, n).Some? && forall i | 0 < i < n :: TimeGoesOn(s, o, i)
  }

  ghost predicate TimeGoesOn(s: Stream, o: nat, i: nat)
    requires i > 0
  {
    TsAtHop(s, o, i - 1) <= TsAtHop(s, o, i)
  }

  /** o is a boundary: six events parse from it, or all up to the end (at least one). */
  ghost predicate Boundary(s: Stream, o: nat) {
    exists n :: 1 <= n <= 6 && Run(s, o, n) && (n == 6 || Hop(s, o, n).value == s.len)
  }

  lemma BoundaryParses(s: Stream, o: nat)
    requires Boundary(s, o)
    ensures s.Parses(o)
  {
    var n :| 1 <= n <= RESYNC_RUN && Run(s, o, n);
    HopPrefix(s, o, 0, n);
  }

  ghost predicate HopInside(s: Stream, o: nat, m: nat) {
    Hop(s, o, m).Some? && Hop(s, o, m).value < s.len
  }

  /** A run that breaks before the end of the input is no boundary. */
  lemma NoBoundary(s: Stream, o: nat, n: nat)
    requires n < RESYNC_RUN && !Run(s, o, n + 1)
    requires forall m | 1 <= m <= n :: HopInside(s, o, m)
    ensures !Boundary(s, o)
  {
    assert forall m | 1 <= m <= n :: HopInside(s, o, m) ==> Hop(s, o, m).value != s.len;
    forall m | n < m <= RESYNC_RUN ensures !Run(s, o, m) {
      if m > n + 1 && Run(s, o, m) {
        HopPrefix(s, o, n + 1, m);
      }
    }
  }

  /** n events of a run from start are behind o, the last of them at time prev, and the input did not end before. */
  ghost predicate Along(s: Stream, start: nat, n: nat, o: nat, prev: nat) {
    && Hop(s, start, n) == Some(o) && o <= s.len && Run(s, start, n) && (n > 0 ==> prev == TsAtHop(s, start, n - 1))
    && forall m | 1 <= m < n :: HopInside(s, start, m)
  }

  lemma AlongNext(s: Stream, start: nat, n: nat, o: nat, prev: nat)
    requires Along(s, start, n, o, prev) && o < s.len && s.Parses(o) && (n > 0 ==> prev <= s.ts(o))
    ensures Along(s, start, n + 1, s.Next(o), s.ts(o))
  {
    assert n > 0 ==> TimeGoesOn(s, start, n);
    assert n > 0 ==> HopInside(s, start, n);
  }

  lemma AlongEnds(s: Stream, start: nat, n: nat, o: nat, prev: nat)
    requires Along(s, start, n, o, prev) && 1 <= n <= RESYNC_RUN && (n == RESYNC_RUN || o == s.len)
    ensures Boundary(s, start)
  {
  }

  lemma AlongBreaks(s: Stream, start: nat, n: nat, o: nat, prev: nat)
    requires Along(s, start, n, o, prev) && n < RESYNC_RUN && (o < s.len || n == 0)
    requires !s.Parses(o) || (n > 0 && s.ts(o) < prev)
    ensures !Boundary(s, start)
  {
    assert n > 0 ==> HopInside(s, start, n);
    assert s.Parses(o) ==> !TimeGoesOn(s, start, n);
    NoBoundary(s, start, n);
  }

  lemma OfAt(b: seq<byte>, o: nat)
    ensures Of(b).len == |b|
    ensures o + 5 <= |b| ==> Of(b).size(o) == EvSize(b, o) && Of(b).ts(o) == Ts(b, o)
    ensures o + 5 > |b| ==> !Of(b).Parses(o)
  {
  }

  method SyncAt(b: seq<byte>, start: nat) returns (r: bool)
    requires start <= |b|
    ensures r <==> Boundary(Of(b), start)
  {
    var n: nat, prev: nat, o: nat := 0, 0, start;
    while n < RESYNC_RUN
      invariant n <= RESYNC_RUN && Along(Of(b), start, n, o, prev)
    {
      OfAt(b, o);
      if o == |b| {
        if n > 0 {
          AlongEnds(Of(b), start, n, o, prev);
        } else {
          AlongBreaks(Of(b), start, n, o, prev);
        }
        return n > 0;
      }
      if o + 5 > |b| {
        AlongBreaks(Of(b), start, n, o, prev);
        return false;
      }
      var ts := Ts(b, o);
      var sz := EvSize(b, o);
      if sz == 0 || (n > 0 && ts < prev) {
        AlongBreaks(Of(b), start, n, o, prev);
        return false;
      }
      AlongNext(Of(b), start, n, o, prev);
      prev, n, o := ts, n + 1, o + 5 + sz;
    }
    AlongEnds(Of(b), start, n, o, prev);
    return true;
  }

  // ----- Decoding a stream

  ghost predicate AllParse(s: Stream, offs: seq<nat>) {
    forall i | 0 <= i < |offs| :: s.Parses(offs[i])
  }

  /** Where the n-th event ends, given the offsets of the events. */
  ghost function EndOf(s: Stream, offs: seq<nat>, n: nat): nat
    requires n <= |offs|
  {
    if n == 0 then 0 else s.Next(offs[n - 1])
  }

  /** The decoder has to look for a boundary: at the start, and where nothing parses. */
  ghost predicate Lost(s: Stream, o: nat, n: nat) {
    n == 0 || s.size(o) == 0
  }

  ghost predicate NoBoundaryIn(s: Stream, lo: nat, hi: nat) {
    forall o | lo <= o < hi :: !Boundary(s, o)
  }

  /** Event n is where event n-1 ended, or at the least boundary after that if the decoder is lost. */
  ghost predicate Resumes(s: Stream, from: nat, to: nat, n: nat) {
    && from + 5 <= s.len
    && if Lost(s, from, n) then from <= to && Boundary(s, to) && NoBoundaryIn(s, from, to) else to == from
  }

  /** Nothing follows the last event: no room for one, or lost with no boundary ahead. */
  ghost predicate Exhausted(s: Stream, from: nat, n: nat) {
    from + 5 <= s.len ==> Lost(s, from, n) && NoBoundaryIn(s, from, s.len - 4)
  }

  ghost predicate ResumesAt(s: Stream, offs: seq<nat>, n: nat)
    requires n < |offs|
  {
    Resumes(s, EndOf(s, offs, n), offs[n], n)
  }

  ghost predicate Follows(s: Stream, offs: seq<nat>) {
    AllParse(s, offs) && forall n | 0 <= n < |offs| :: ResumesAt(s, offs, n)
  }

  /** offs are the offsets of the events that decoding the whole of s yields. */
  ghost predicate IsDecoding(s: Stream, offs: seq<nat>) {
    Follows(s, offs) && Exhausted(s, EndOf(s, offs, |offs|), |offs|)
  }

  /** Where the decoder stops: after the last event, or at the last offset tried for a boundary. */
  ghost function Stop(s: Stream, offs: seq<nat>): nat {
    var end := EndOf(s, offs, |offs|);
    if end + 5 <= s.len then s.len - 4 else end
  }

  ghost function EventBytes(s: Stream, offs: seq<nat>): nat {
    if offs == [] then 0 else EventBytes(s, offs[..|offs| - 1]) + 5 + s.size(offs[|offs| - 1])
  }

  /** One more event. */
  lemma FollowsSnoc(s: Stream, offs: seq<nat>, o: nat)
    requires Follows(s, offs) && s.Parses(o) && Resumes(s, EndOf(s, offs, |offs|), o, |offs|)
    ensures Follows(s, offs + [o])
  {
    var more := offs + [o];
    forall n | 0 <= n < |more| ensures ResumesAt(s, more, n) {
      if n < |offs| {
        assert ResumesAt(s, offs, n);
      }
    }
  }

  lemma BytesSnoc(s: Stream, offs: seq<nat>, o: nat)
    ensures EventBytes(s, offs + [o]) == EventBytes(s, offs) + 5 + s.size(o)
  {
    assert (offs + [o])[..|offs|] == offs;
  }

  datatype Raw = Raw(ts: nat, seqno: nat, cpu: nat, eid: byte, payload: seq<byte>)

  function RawAt(b: seq<byte>, o: nat, seqno: nat, cpu: nat): Raw
    requires o + 5 <= |b|
  {
    Raw(Ts(b, o), seqno, cpu, b[o + 4], b[o + 5..o + 5 + EvSize(b, o)])
  }

  /** r is what stands at o: a time of four bytes, an id, a payload of that event's size; its CPU is that of the file. */
  ghost predicate Stands(b: seq<byte>, o: nat, seqno: nat, cpu: nat, r: Raw) {
    match r
    case Raw(ts, n, c, eid, payload) =>
      && o + 5 <= |b| && o + 5 + EvSize(b, o) <= |b| && ts == U32(b, o) && n == seqno && c == cpu && eid == b[o + 4]
      && payload == b[o + 5..o + 5 + EvSize(b, o)]
  }

  /** out holds, after its first `base` events, one event for each offset. */
  ghost predicate Emitted(b: seq<byte>, cpu: nat, out0: seq<Raw>, out: seq<Raw>, offs: seq<nat>) {
    && |out| == |out0| + |offs| && out[..|out0|] == out0
    && forall k | 0 <= k < |offs| :: Stands(b, offs[k], |out0| + k, cpu, out[|out0| + k])
  }

  lemma EmittedSnoc(b: seq<byte>, cpu: nat, out0: seq<Raw>, out: seq<Raw>, offs: seq<nat>, o: nat, r: Raw)
    requires Emitted(b, cpu, out0, out, offs) && o + 5 <= |b| && r == RawAt(b, o, |out|, cpu)
    ensures Emitted(b, cpu, out0, out + [r], offs + [o])
  {
    var more := out + [r];
    assert more[..|out0|] == out[..|out0|];
  }

  /** The search for the next boundary. */
  method FindSync(b: seq<byte>, start: nat) returns (o: nat)
    requires start + 5 <= |b|
    ensures start <= o <= |b| - 4 && NoBoundaryIn(Of(b), start, o)
    ensures o + 5 <= |b| ==> Boundary(Of(b), o)
  {
    o := start;
    while o + 5 <= |b|
      invariant start <= o <= |b| - 4 && NoBoundaryIn(Of(b), start, o)
    {
      var found := SyncAt(b, o);
      if found {
        return;
      }
      o := o + 1;
    }
  }

  /**
   One event is appended for each offset of the decoding. Skipped bytes, event bytes and a tail shorter than an
   event header make up the input.
   */
  ghost predicate Decoded(b: seq<byte>, cpu: nat, out0: seq<Raw>, out: seq<Raw>, skipped: nat, offs: seq<nat>) {
    && IsDecoding(Of(b), offs) && Emitted(b, cpu, out0, out, offs)
    && skipped + EventBytes(Of(b), offs) == Stop(Of(b), offs)
    && 0 <= |b| - (skipped + EventBytes(Of(b), offs)) < 5
  }

  /** load_stream. */
  method LoadStream(b: seq<byte>, cpu: nat, out0: seq<Raw>) returns (out: seq<Raw>, skipped: nat)
    ensures exists offs :: Decoded(b, cpu, out0, out, skipped, offs)
  {
    ghost var offs: seq<nat> := [];
    ghost var s := Of(b);
    var o, seqno, sync := 0, |out0|, true;
    skipped := 0;
    out := out0;
    while o + 5 <= |b|
      invariant Follows(s, offs) && o == EndOf(s, offs, |offs|) <= |b|
      invariant sync ==> Lost(s, o, |offs|)
      invariant !sync ==> |offs| > 0
      invariant seqno == |out| && Emitted(b, cpu, out0, out, offs)
      invariant skipped + EventBytes(s, offs) == o
      decreases |b| - o, !sync
    {
      if sync {
        var start := o;
        o := FindSync(b, start);
        skipped := skipped + (o - start);
        sync := false;
        if o + 5 > |b| {
          assert Decoded(b, cpu, out0, out, skipped, offs);
          return;
        }
        BoundaryParses(s, o);
      }
      var sz := EvSize(b, o);
      assert sz == s.size(o);
      if sz == 0 {
        sync := true;
        continue;
      }
      FollowsSnoc(s, offs, o);
      BytesSnoc(s, offs, o);
      var r := RawAt(b, o, seqno, cpu);
      EmittedSnoc(b, cpu, out0, out, offs, o, r);
      out, offs := out + [r], offs + [o];
      seqno := seqno + 1;
      o := o + 5 + sz;
    }
    assert Decoded(b, cpu, out0, out, skipped, offs);
  }

  // ----- The decoding is determined by the bytes, and a resync is worth at least a run of events

  lemma {:induction false} DecodingsAgree(s: Stream, a: seq<nat>, b: seq<nat>, n: nat)
    requires Follows(s, a) && Follows(s, b) && n <= |a| && n <= |b|
    ensures a[..n] == b[..n]
  {
    if n > 0 {
      DecodingsAgree(s, a, b, n - 1);
      assert EndOf(s, a, n - 1) == EndOf(s, b, n - 1) by {
        if n > 1 {
          assert a[..n - 1][n - 2] == b[..n - 1][n - 2];
        }
      }
      assert ResumesAt(s, a, n - 1) && ResumesAt(s, b, n - 1);
      assert a[..n] == a[..n - 1] + [a[n - 1]] && b[..n] == b[..n - 1] + [b[n - 1]];
    }
  }

  /** Before each of its events a decoding is not exhausted. */
  lemma NotExhausted(s: Stream, b: seq<nat>, n: nat)
    requires Follows(s, b) && n < |b|
    ensures !Exhausted(s, EndOf(s, b, n), n)
  {
    assert ResumesAt(s, b, n) && s.Parses(b[n]);
  }

  lemma NoLonger(s: Stream, a: seq<nat>, b: seq<nat>)
    requires IsDecoding(s, a) && IsDecoding(s, b)
    ensures |a| >= |b|
  {
    if |a| < |b| {
      DecodingsAgree(s, a, b, |a|);
      assert |a| > 0 ==> a[..|a|][|a| - 1] == b[..|a|][|a| - 1];
      NotExhausted(s, b, |a|);
    }
  }

  lemma DecodingIsUnique(s: Stream, a: seq<nat>, b: seq<nat>)
    requires IsDecoding(s, a) && IsDecoding(s, b)
    ensures a == b
  {
    NoLonger(s, a, b);
    NoLonger(s, b, a);
    DecodingsAgree(s, a, b, |a|);
    assert a[..|a|] == a && b[..|b|] == b;
  }

  /** Emitted ranges are in order and disjoint. */
  lemma {:induction false} EventsAreOrdered(s: Stream, offs: seq<nat>, i: nat, j: nat)
    requires Follows(s, offs) && i < j < |offs|
    ensures s.Next(offs[i]) <= offs[j]
    decreases j
  {
    assert ResumesAt(s, offs, j);
    if i < j - 1 {
      EventsAreOrdered(s, offs, i, j - 1);
    }
  }

  lemma {:induction false} RunIsEmitted(s: Stream, offs: seq<nat>, n: nat, m: nat, i: nat)
    requires IsDecoding(s, offs) && n < |offs| && Hop(s, offs[n], m).Some? && i < m
    ensures n + i < |offs| && Hop(s, offs[n], i) == Some(offs[n + i])
  {
    if i > 0 {
      RunIsEmitted(s, offs, n, m, i - 1);
      HopPrefix(s, offs[n], i - 1, m);
      HopPrefix(s, offs[n], i, m);
      var h := Hop(s, offs[n], i).value;
      assert EndOf(s, offs, n + i) == h;
      if n + i < |offs| {
        assert ResumesAt(s, offs, n + i);
      }
    }
  }

  /** After a resync at least six events, or all up to the end, come out back to back. */
  lemma ResyncYieldsRun(s: Stream, offs: seq<nat>, n: nat) returns (m: nat)
    requires IsDecoding(s, offs) && n < |offs| && Boundary(s, offs[n])
    ensures 1 <= m <= 6 && n + m <= |offs|
    ensures forall i | 0 <= i < m :: Hop(s, offs[n], i) == Some(offs[n + i])
    ensures m == 6 || EndOf(s, offs, n + m) == s.len
  {
    m :| 1 <= m <= RESYNC_RUN && Run(s, offs[n], m) && (m == RESYNC_RUN || Hop(s, offs[n], m).value == s.len);
    forall i | 0 <= i < m ensures n + i < |offs| && Hop(s, offs[n], i) == Some(offs[n + i]) {
      RunIsEmitted(s, offs, n, m, i);
    }
    assert Hop(s, offs[n], m - 1) == Some(offs[n + (m - 1)]);
  }

  // ----- The encoder's side, and the round trip

  /** A payload: fixed bytes, or kernel frames and a user record with their counts. */
  datatype Body =
    | Plain(bytes: seq<byte>)
    | Nested(head: seq<byte>, kframes: seq<Word>, regs: seq<Word>, frames: seq<Word>, stack: seq<Word>)

  datatype Event = Event(ts: nat, eid: byte, body: Body)

  predicate WellFormed(e: Event) {
    && e.ts < 0x1_0000_0000
    && if e.eid == 0x40 || e.eid == 0x41 then
         && e.body.Nested? && |e.body.head| == (if e.eid == 0x40 then 31 else 49)
         && |e.body.kframes| < 256 && |e.body.regs| == 4
         && |e.body.frames| < 256 && |e.body.stack| < 0x1_0000
       else
         e.body.Plain? && FixedSize(e.eid) > 0 && |e.body.bytes| == FixedSize(e.eid)
  }

  function Urecord(b: Body): seq<byte>
    requires b.Nested? && |b.frames| < 256
  {
    Words(b.regs) + [|b.frames|] + Words(b.frames) + Le16(|b.stack|) + Words(b.stack)
  }

  function EncodeBody(b: Body): seq<byte>
    requires b.Nested? ==> |b.kframes| < 256 && |b.frames| < 256
  {
    match b
    case Plain(bytes) => bytes
    case Nested(head, kframes, _, _, _) => head + [|kframes|] + Words(kframes) + Urecord(b)
  }

  function Encode(e: Event): seq<byte>
    requires WellFormed(e)
  {
    Le32(e.ts) + [e.eid] + EncodeBody(e.body)
  }

  /** The first n of some byte strings, one after the other. */
  function Join(xs: seq<seq<byte>>, n: nat): seq<byte>
    requires n <= |xs|
  {
    if n == 0 then [] else Join(xs, n - 1) + xs[n - 1]
  }

  function EncodeEach(evs: seq<Event>): (xs: seq<seq<byte>>)
    requires forall e | e in evs :: WellFormed(e)
    ensures |xs| == |evs|
  {
    seq(|evs|, n requires 0 <= n < |evs| => Encode(evs[n]))
  }

  /** The piece x of pre + x + post sits at |pre|. */
  lemma PieceAt(pre: seq<byte>, x: seq<byte>, post: seq<byte>, i: nat, j: nat)
    requires i <= j <= |x|
    ensures (pre + x + post)[|pre| + i..|pre| + j] == x[i..j]
  {
  }

  lemma UrecordEnd(pre: seq<byte>, body: Body, post: seq<byte>, p: nat)
    requires body.Nested? && |body.regs| == 4 && |body.frames| < 256 && |body.stack| < 0x1_0000 && p <= |pre|
    ensures UrecEnd(pre + Urecord(body) + post, p, |pre| - p) == |pre| - p + |Urecord(body)|
  {
    var u := Urecord(body);
    var b := pre + u + post;
    var nf, ns := |body.frames|, |body.stack|;
    assert |u| == 33 + 8 * nf + 2 + 8 * ns;
    assert u[32] == nf;
    assert b[|pre| + 32] == u[32];
    PieceAt(pre, u, post, 33 + 8 * nf, 35 + 8 * nf);
    assert u[33 + 8 * nf..35 + 8 * nf] == Le16(ns);
    Reads16(b, |pre| + 33 + 8 * nf, ns);
  }

  lemma EncodedFields(pre: seq<byte>, e: Event, post: seq<byte>)
    requires WellFormed(e)
    ensures var b := pre + Encode(e) + post; var o := |pre|;
            && o + 5 <= |b| && Ts(b, o) == e.ts && b[o + 4] == e.eid
            && b[o + 5..o + 5 + |EncodeBody(e.body)|] == EncodeBody(e.body)
  {
    var x := Encode(e);
    PieceAt(pre, x, post, 0, 4);
    PieceAt(pre, x, post, 5, |x|);
    assert x[0..4] == Le32(e.ts);
    assert x[5..|x|] == EncodeBody(e.body);
    assert (pre + x + post)[|pre| + 4] == x[4] == e.eid;
    Reads32(pre + x + post, |pre|, e.ts);
  }

  /** The payload size from the count byte and the user record behind the kernel frames. */
  lemma NestedSize(b: seq<byte>, o: nat, h: nat, n: nat)
    requires o + 5 + h < |b| && b[o + 5 + h] == n
    requires (b[o + 4] == EV_SAMPLE && h == 31) || (b[o + 4] == EV_WAIT && h == 49)
    ensures EvSize(b, o) == UrecEnd(b, o + 5, h + 1 + n * 8)
  {
  }

  lemma NestedShape(pre: seq<byte>, stamp: seq<byte>, eid: byte, head: seq<byte>, n: byte, words: seq<byte>,
                    urec: seq<byte>, post: seq<byte>)
    requires |stamp| == 4
    ensures var b := pre + (stamp + [eid] + (head + [n] + words + urec)) + post;
            && b == (pre + stamp + [eid] + head + [n] + words) + urec + post
            && b[|pre| + 4] == eid && b[|pre| + 5 + |head|] == n
  {
  }

  lemma SizeOfParts(pre: seq<byte>, stamp: seq<byte>, eid: byte, head: seq<byte>, n: byte, words: seq<byte>,
                    body: Body, post: seq<byte>)
    requires |stamp| == 4 && |words| == 8 * n
    requires (eid == EV_SAMPLE && |head| == 31) || (eid == EV_WAIT && |head| == 49)
    requires body.Nested? && |body.regs| == 4 && |body.frames| < 256 && |body.stack| < 0x1_0000
    ensures var u := Urecord(body);
            EvSize(pre + (stamp + [eid] + (head + [n] + words + u)) + post, |pre|) == |head| + 1 + |words| + |u|
  {
    NestedShape(pre, stamp, eid, head, n, words, Urecord(body), post);
    var front := pre + stamp + [eid] + head + [n] + words;
    NestedSize(front + Urecord(body) + post, |pre|, |head|, n);
    UrecordEnd(front, body, post, |pre| + 5);
  }

  lemma EncodedNestedSize(pre: seq<byte>, e: Event, post: seq<byte>)
    requires WellFormed(e) && e.body.Nested?
    ensures |pre| + 5 <= |pre + Encode(e) + post|
    ensures EvSize(pre + Encode(e) + post, |pre|) == |EncodeBody(e.body)| > 0
  {
    SizeOfParts(pre, Le32(e.ts), e.eid, e.body.head, |e.body.kframes|, Words(e.body.kframes), e.body, post);
  }

  /** Whatever surrounds it, an encoded event is read with its own size. */
  lemma EncodedSize(pre: seq<byte>, e: Event, post: seq<byte>)
    requires WellFormed(e)
    ensures |pre| + 5 <= |pre + Encode(e) + post|
    ensures EvSize(pre + Encode(e) + post, |pre|) == |EncodeBody(e.body)| > 0
  {
    if e.body.Nested? {
      EncodedNestedSize(pre, e, post);
    } else {
      EncodedFields(pre, e, post);
    }
  }

  // ----- A list of encoded events as a stream

  /** Piece n sits after the first n, with the rest behind it. */
  lemma {:induction false} JoinSplits(xs: seq<seq<byte>>, n: nat, m: nat) returns (post: seq<byte>)
    requires n < m <= |xs|
    ensures Join(xs, m) == Join(xs, n) + xs[n] + post
  {
    if n + 1 == m {
      post := [];
    } else {
      var p := JoinSplits(xs, n, m - 1);
      post := p + xs[m - 1];
    }
  }

  /** One event of the given time takes up exactly the piece x at offset o. */
  ghost predicate Fits(s: Stream, o: nat, x: seq<byte>, ts: nat) {
    match s
    case Stream(_, _, stamp) => s.Parses(o) && s.Next(o) == o + |x| && stamp(o) == ts
  }

  ghost predicate FitsAt(s: Stream, at: nat, xs: seq<seq<byte>>, ts: seq<nat>, n: nat)
    requires n < |xs| == |ts|
  {
    Fits(s, at + |Join(xs, n)|, xs[n], ts[n])
  }

  /** The pieces parse back to back from offset at to the end. */
  ghost predicate Holds(s: Stream, at: nat, xs: seq<seq<byte>>, ts: seq<nat>) {
    && |ts| == |xs| && s.len == at + |Join(xs, |xs|)|
    && forall n | 0 <= n < |xs| :: FitsAt(s, at, xs, ts, n)
  }

  lemma {:induction false} HopsAlong(s: Stream, at: nat, xs: seq<seq<byte>>, ts: seq<nat>, n: nat)
    requires Holds(s, at, xs, ts) && n <= |xs|
    ensures Hop(s, at, n) == Some(at + |Join(xs, n)|)
    ensures n < |xs| ==> TsAtHop(s, at, n) == ts[n]
  {
    if n > 0 {
      HopsAlong(s, at, xs, ts, n - 1);
      assert FitsAt(s, at, xs, ts, n - 1);
    }
    if n < |xs| {
      assert FitsAt(s, at, xs, ts, n);
    }
  }

  predicate InOrder(ts: seq<nat>) {
    forall i | 0 < i < |ts| && i < 6 :: ts[i - 1] <= ts[i]
  }

  lemma StartIsBoundary(s: Stream, at: nat, xs: seq<seq<byte>>, ts: seq<nat>)
    requires Holds(s, at, xs, ts) && xs != [] && InOrder(ts)
    ensures Boundary(s, at)
  {
    var n := if |xs| < RESYNC_RUN then |xs| else RESYNC_RUN;
    HopsAlong(s, at, xs, ts, n);
    forall i | 0 < i < n ensures TimeGoesOn(s, at, i) {
      HopsAlong(s, at, xs, ts, i - 1);
      HopsAlong(s, at, xs, ts, i);
    }
    assert Run(s, at, n);
  }

  function Offsets(xs: seq<seq<byte>>, at: nat): seq<nat> {
    seq(|xs|, n requires 0 <= n < |xs| => at + |Join(xs, n)|)
  }

  /** Behind junk in which nothing is a boundary, the decoding is exactly the pieces. */
  lemma DecodesToItself(s: Stream, at: nat, xs: seq<seq<byte>>, ts: seq<nat>)
    requires Holds(s, at, xs, ts) && xs != [] && InOrder(ts) && NoBoundaryIn(s, 0, at)
    ensures IsDecoding(s, Offsets(xs, at)) && EndOf(s, Offsets(xs, at), |xs|) == s.len
  {
    var offs := Offsets(xs, at);
    StartIsBoundary(s, at, xs, ts);
    forall n | 0 <= n < |offs| ensures s.Parses(offs[n]) && s.Next(offs[n]) == at + |Join(xs, n + 1)| {
      assert FitsAt(s, at, xs, ts, n);
    }
    forall n | 0 <= n < |offs| ensures ResumesAt(s, offs, n) {
      if n > 0 {
        assert s.Next(offs[n - 1]) == offs[n];
      }
    }
    assert s.Next(offs[|xs| - 1]) == s.len;
  }

  lemma PieceLength(s: Stream, at: nat, xs: seq<seq<byte>>, ts: seq<nat>, n: nat)
    requires Holds(s, at, xs, ts) && n < |xs|
    ensures 5 + s.size(at + |Join(xs, n)|) == |xs[n]|
  {
    assert FitsAt(s, at, xs, ts, n);
  }

  lemma {:induction false} BytesOfPieces(s: Stream, at: nat, xs: seq<seq<byte>>, ts: seq<nat>, n: nat)
    requires Holds(s, at, xs, ts) && n <= |xs|
    ensures EventBytes(s, Offsets(xs, at)[..n]) == |Join(xs, n)|
  {
    if n > 0 {
      BytesOfPieces(s, at, xs, ts, n - 1);
      var o := Offsets(xs, at);
      BytesSnoc(s, o[..n - 1], o[n - 1]);
      assert o[..n] == o[..n - 1] + [o[n - 1]];
      PieceLength(s, at, xs, ts, n - 1);
    }
  }

  lemma PiecesAreDecoded(s: Stream, at: nat, xs: seq<seq<byte>>, ts: seq<nat>, offs: seq<nat>)
    requires Holds(s, at, xs, ts) && xs != [] && InOrder(ts) && NoBoundaryIn(s, 0, at)
    requires IsDecoding(s, offs)
    ensures offs == Offsets(xs, at) && Stop(s, offs) == s.len && EventBytes(s, offs) == s.len - at
  {
    DecodesToItself(s, at, xs, ts);
    DecodingIsUnique(s, offs, Offsets(xs, at));
    BytesOfPieces(s, at, xs, ts, |xs|);
    assert offs[..|xs|] == offs;
  }

  /** Event e is read at o, with its own time, id and payload. */
  ghost predicate Shows(b: seq<byte>, o: nat, e: Event) {
    match e
    case Event(ts, eid, body) =>
      && WellFormed(e)
      && o + 5 <= |b| && Ts(b, o) == ts && b[o + 4] == eid
      && EvSize(b, o) == |EncodeBody(body)| > 0
      && b[o + 5..o + 5 + EvSize(b, o)] == EncodeBody(body)
  }

  lemma EncodedShows(b: seq<byte>, pre: seq<byte>, e: Event, post: seq<byte>)
    requires WellFormed(e) && b == pre + Encode(e) + post
    ensures Shows(b, |pre|, e) && Fits(Of(b), |pre|, Encode(e), e.ts)
  {
    EncodedFields(pre, e, post);
    EncodedSize(pre, e, post);
  }

  function Stamps(evs: seq<Event>): seq<nat> {
    seq(|evs|, n requires 0 <= n < |evs| => evs[n].ts)
  }

  ghost predicate ShowsAt(b: seq<byte>, at: nat, xs: seq<seq<byte>>, evs: seq<Event>, n: nat)
    requires n < |xs| == |evs|
  {
    Shows(b, at + |Join(xs, n)|, evs[n])
  }

  ghost predicate EncodedAs(x: seq<byte>, e: Event, ts: nat) {
    WellFormed(e) && x == Encode(e) && ts == e.ts
  }

  ghost predicate AllEncoded(xs: seq<seq<byte>>, evs: seq<Event>, ts: seq<nat>) {
    && |evs| == |xs| == |ts|
    && forall n {:trigger EncodedAs(xs[n], evs[n], ts[n])} | 0 <= n < |evs| :: EncodedAs(xs[n], evs[n], ts[n])
  }

  lemma JunkInFront(junk: seq<byte>, before: seq<byte>, x: seq<byte>, post: seq<byte>)
    ensures junk + (before + x + post) == (junk + before) + x + post
  {
  }

  lemma PieceShows(s: Stream, b: seq<byte>, pre: seq<byte>, post: seq<byte>, at: nat,
                   xs: seq<seq<byte>>, evs: seq<Event>, ts: seq<nat>, n: nat)
    requires n < |evs| == |xs| == |ts| && EncodedAs(xs[n], evs[n], ts[n])
    requires s == Of(b) && b == pre + xs[n] + post && |pre| == at + |Join(xs, n)|
    ensures FitsAt(s, at, xs, ts, n) && ShowsAt(b, at, xs, evs, n)
  {
    EncodedShows(b, pre, evs[n], post);
  }

  lemma JunkAndPieces(junk: seq<byte>, xs: seq<seq<byte>>, n: nat) returns (pre: seq<byte>, post: seq<byte>)
    requires n < |xs|
    ensures junk + Join(xs, |xs|) == pre + xs[n] + post && |pre| == |junk| + |Join(xs, n)|
  {
    pre := junk + Join(xs, n);
    post := JoinSplits(xs, n, |xs|);
    JunkInFront(junk, Join(xs, n), xs[n], post);
  }

  lemma EncodedAt(s: Stream, b: seq<byte>, junk: seq<byte>, xs: seq<seq<byte>>, evs: seq<Event>, ts: seq<nat>, n: nat)
    requires s == Of(b) && b == junk + Join(xs, |xs|)
    requires n < |evs| == |xs| == |ts| && EncodedAs(xs[n], evs[n], ts[n])
    ensures FitsAt(s, |junk|, xs, ts, n) && ShowsAt(b, |junk|, xs, evs, n)
  {
    var pre, post := JunkAndPieces(junk, xs, n);
    PieceShows(s, b, pre, post, |junk|, xs, evs, ts, n);
  }

  lemma EncodedHolds(s: Stream, b: seq<byte>, junk: seq<byte>, xs: seq<seq<byte>>, evs: seq<Event>, ts: seq<nat>)
    requires s == Of(b) && b == junk + Join(xs, |xs|)
    requires |evs| == |xs| == |ts| && AllEncoded(xs, evs, ts)
    ensures Holds(s, |junk|, xs, ts)
    ensures forall n | 0 <= n < |evs| :: ShowsAt(b, |junk|, xs, evs, n)
  {
    forall n | 0 <= n < |evs| ensures FitsAt(s, |junk|, xs, ts, n) && ShowsAt(b, |junk|, xs, evs, n) {
      assert EncodedAs(xs[n], evs[n], ts[n]);
      EncodedAt(s, b, junk, xs, evs, ts, n);
    }
  }

  ghost predicate SameEvent(r: Raw, e: Event) {
    match r
    case Raw(ts, _, _, eid, payload) =>
      WellFormed(e) && ts == e.ts && eid == e.eid && payload == EncodeBody(e.body)
  }

  /** The same event, with its place and the CPU of the file. */
  ghost predicate ReadAs(r: Raw, e: Event, cpu: nat, k: nat) {
    SameEvent(r, e) && r.cpu == cpu && r.seqno == k
  }

  lemma ShownIsSame(b: seq<byte>, o: nat, e: Event, seqno: nat, cpu: nat, r: Raw)
    requires Shows(b, o, e) && Stands(b, o, seqno, cpu, r)
    ensures SameEvent(r, e) && r.cpu == cpu && r.seqno == seqno
  {
  }

  lemma EmittedAt(b: seq<byte>, cpu: nat, out: seq<Raw>, offs: seq<nat>, k: nat)
    requires Emitted(b, cpu, [], out, offs) && k < |offs|
    ensures |out| == |offs| && Stands(b, offs[k], k, cpu, out[k])
  {
    assert Stands(b, offs[k], 0 + k, cpu, out[0 + k]);
  }

  lemma RawShows(b: seq<byte>, o: nat, e: Event, k: nat, cpu: nat, out: seq<Raw>, offs: seq<nat>)
    requires Shows(b, o, e) && k < |offs| && offs[k] == o && Emitted(b, cpu, [], out, offs)
    ensures |out| == |offs| && SameEvent(out[k], e) && out[k].cpu == cpu && out[k].seqno == k
  {
    EmittedAt(b, cpu, out, offs, k);
    ShownIsSame(b, o, e, k, cpu, out[k]);
  }

  lemma PieceIsRaw(b: seq<byte>, at: nat, xs: seq<seq<byte>>, evs: seq<Event>, k: nat, cpu: nat,
                   out: seq<Raw>, offs: seq<nat>)
    requires k < |xs| == |evs| && ShowsAt(b, at, xs, evs, k)
    requires offs == Offsets(xs, at) && Emitted(b, cpu, [], out, offs)
    ensures |out| == |xs| && ReadAs(out[k], evs[k], cpu, k)
  {
    RawShows(b, at + |Join(xs, k)|, evs[k], k, cpu, out, offs);
  }

  lemma PiecesAreRaw(b: seq<byte>, at: nat, xs: seq<seq<byte>>, evs: seq<Event>, cpu: nat, out: seq<Raw>, offs: seq<nat>)
    requires |xs| == |evs| && forall k | 0 <= k < |evs| :: ShowsAt(b, at, xs, evs, k)
    requires offs == Offsets(xs, at) && Emitted(b, cpu, [], out, offs)
    ensures |out| == |evs| && forall k | 0 <= k < |evs| :: ReadAs(out[k], evs[k], cpu, k)
  {
    assert |out| == |offs|;
    forall k | 0 <= k < |evs| ensures ReadAs(out[k], evs[k], cpu, k) {
      PieceIsRaw(b, at, xs, evs, k, cpu, out, offs);
    }
  }

  /** What comes out of a stream that holds the pieces, and how much is skipped. */
  ghost predicate Recovered(s: Stream, junk: nat, evs: seq<Event>, cpu: nat, out: seq<Raw>, offs: seq<nat>) {
    && |out| == |evs| && (forall k | 0 <= k < |evs| :: ReadAs(out[k], evs[k], cpu, k))
    && Stop(s, offs) - EventBytes(s, offs) == junk
  }

  lemma HeldIsRecovered(s: Stream, b: seq<byte>, at: nat, xs: seq<seq<byte>>, evs: seq<Event>, ts: seq<nat>,
                        cpu: nat, out: seq<Raw>, offs: seq<nat>)
    requires evs != [] && |evs| == |xs| == |ts| && InOrder(ts) && Holds(s, at, xs, ts)
    requires forall n | 0 <= n < |evs| :: ShowsAt(b, at, xs, evs, n)
    requires NoBoundaryIn(s, 0, at) && IsDecoding(s, offs) && Emitted(b, cpu, [], out, offs)
    ensures Recovered(s, at, evs, cpu, out, offs)
  {
    PiecesAreDecoded(s, at, xs, ts, offs);
    PiecesAreRaw(b, at, xs, evs, cpu, out, offs);
  }

  /** Decoding encoded events behind junk in which nothing is a boundary gives the events and skips the junk. */
  lemma RoundTrip(s: Stream, b: seq<byte>, junk: seq<byte>, xs: seq<seq<byte>>, evs: seq<Event>, ts: seq<nat>,
                  cpu: nat, out: seq<Raw>, offs: seq<nat>)
    requires evs != [] && |evs| == |xs| == |ts| && InOrder(ts)
    requires AllEncoded(xs, evs, ts)
    requires b == junk + Join(xs, |xs|) && s == Of(b)
    requires NoBoundaryIn(s, 0, |junk|) && IsDecoding(s, offs) && Emitted(b, cpu, [], out, offs)
    ensures Recovered(s, |junk|, evs, cpu, out, offs)
  {
    EncodedHolds(s, b, junk, xs, evs, ts);
    HeldIsRecovered(s, b, |junk|, xs, evs, ts, cpu, out, offs);
  }

  /**
   Round trip with resync: a stream of encoded events behind junk without boundaries yields every
   event, and exactly the junk is skipped.
   */
  method LoadEncoded(junk: seq<byte>, evs: seq<Event>, cpu: nat) returns (out: seq<Raw>, skipped: nat)
    requires (evs != [] || junk == []) && InOrder(Stamps(evs)) && forall e | e in evs :: WellFormed(e)
    requires NoBoundaryIn(Of(junk + Join(EncodeEach(evs), |evs|)), 0, |junk|)
    ensures skipped == |junk| && |out| == |evs|
    ensures forall k | 0 <= k < |evs| :: ReadAs(out[k], evs[k], cpu, k)
  {
    var xs := EncodeEach(evs);
    var b := junk + Join(xs, |xs|);
    out, skipped := LoadStream(b, cpu, []);
    ghost var offs :| Decoded(b, cpu, [], out, skipped, offs);
    if evs != [] {
      RoundTrip(Of(b), b, junk, xs, evs, Stamps(evs), cpu, out, offs);
    }
  }

  // ----- Nested records survive the round trip too

  lemma {:induction false} WordsUnpack(b: seq<byte>, o: nat, ws: seq<Word>)
    requires o + 8 * |ws| <= |b| && b[o..o + 8 * |ws|] == Words(ws)
    ensures UnpackWords(b, o, |ws|) == ws
    decreases |ws|
  {
    if ws != [] {
      var x := b[o..o + 8 * |ws|];
      assert b[o..o + 8] == x[..8] == Le64(ws[0]);
      assert b[o + 8..o + 8 + 8 * |ws[1..]|] == x[8..] == Words(ws[1..]);
      WordsUnpack(b, o + 8, ws[1..]);
      Reads64(b, o, ws[0]);
    }
  }

  /** Where the parts of a user record are. */
  lemma UrecordShape(pre: seq<byte>, regs: seq<byte>, nf: byte, frames: seq<byte>, count: seq<byte>, stack: seq<byte>)
    requires |count| == 2
    ensures var b := pre + (regs + [nf] + frames + count + stack);
            var o1 := |pre| + |regs|; var o2 := o1 + 1 + |frames|;
            && |b| == o2 + 2 + |stack|
            && b[|pre|..o1] == regs && b[o1] == nf && b[o1 + 1..o2] == frames
            && b[o2..o2 + 2] == count && b[o2 + 2..o2 + 2 + |stack|] == stack
  {
  }

  /** The parts of the user record at o: four registers, counted frames, counted stack words. */
  ghost predicate HasUrecord(b: seq<byte>, o: nat, body: Body)
    requires body.Nested?
  {
    var o1 := o + 33 + 8 * |body.frames|;
    && |body.regs| == 4 && |b| == o1 + 2 + 8 * |body.stack|
    && b[o..o + 32] == Words(body.regs) && b[o + 32] == |body.frames|
    && b[o + 33..o1] == Words(body.frames)
    && b[o1..o1 + 2] == Le16(|body.stack|) && b[o1 + 2..|b|] == Words(body.stack)
  }

  lemma UrecordIsThere(pre: seq<byte>, body: Body)
    requires body.Nested? && |body.regs| == 4 && |body.frames| < 256
    ensures HasUrecord(pre + Urecord(body), |pre|, body)
  {
    UrecordShape(pre, Words(body.regs), |body.frames|, Words(body.frames), Le16(|body.stack|), Words(body.stack));
  }

  lemma UrecordEnds(b: seq<byte>, o: nat, body: Body)
    requires body.Nested? && HasUrecord(b, o, body) && |body.stack| < 0x1_0000
    ensures UrecEnd(b, 0, o) == |b| && Count(b, o + 32) == |body.frames|
    ensures U16(b, o + 33 + 8 * |body.frames|) == |body.stack|
  {
    Reads16(b, o + 33 + 8 * |body.frames|, |body.stack|);
  }

  /** The words a user record at o is unpacked into. */
  ghost predicate UnpacksTo(b: seq<byte>, o: nat, regs: seq<Word>, frames: seq<Word>, stack: seq<Word>) {
    var o1 := o + 33 + 8 * |frames|;
    && |regs| == 4 && o1 + 2 + 8 * |stack| <= |b|
    && Count(b, o + 32) == |frames| && U16(b, o1) == |stack|
    && UnpackWords(b, o, 4) == regs && UnpackWords(b, o + 33, |frames|) == frames
    && UnpackWords(b, o1 + 2, |stack|) == stack
  }

  lemma ParseFromParts(b: seq<byte>, o: nat, regs: seq<Word>, frames: seq<Word>, stack: seq<Word>)
    requires UrecEnd(b, 0, o) != 0 && UnpacksTo(b, o, regs, frames, stack)
    ensures ParseUrec(b, o) == Urec(regs[0], regs[1], regs[2], regs[3], frames, stack)
  {
    UnpackedAt(b, o, 4, 0);
    UnpackedAt(b, o, 4, 1);
    UnpackedAt(b, o, 4, 2);
    UnpackedAt(b, o, 4, 3);
  }

  lemma UrecordUnpacks(b: seq<byte>, o: nat, body: Body)
    requires body.Nested? && HasUrecord(b, o, body) && |body.stack| < 0x1_0000
    ensures UnpacksTo(b, o, body.regs, body.frames, body.stack)
  {
    UrecordEnds(b, o, body);
    UrecordWords(b, o, body);
  }

  lemma UrecordParses(b: seq<byte>, o: nat, body: Body)
    requires body.Nested? && HasUrecord(b, o, body) && |body.stack| < 0x1_0000
    ensures UrecEnd(b, 0, o) == |b|
    ensures var r := body.regs;
            ParseUrec(b, o) == Urec(r[0], r[1], r[2], r[3], body.frames, body.stack)
  {
    UrecordUnpacks(b, o, body);
    UrecordEnds(b, o, body);
    ParseFromParts(b, o, body.regs, body.frames, body.stack);
  }

  lemma UrecordWords(b: seq<byte>, o: nat, body: Body)
    requires body.Nested? && HasUrecord(b, o, body)
    ensures UnpackWords(b, o, |body.regs|) == body.regs
    ensures UnpackWords(b, o + 33, |body.frames|) == body.frames
    ensures UnpackWords(b, o + 33 + 8 * |body.frames| + 2, |body.stack|) == body.stack
  {
    RegsUnpack(b, o, body);
    FramesUnpack(b, o, body);
    StackUnpack(b, o, body);
  }

  lemma RegsUnpack(b: seq<byte>, o: nat, body: Body)
    requires body.Nested? && HasUrecord(b, o, body)
    ensures UnpackWords(b, o, |body.regs|) == body.regs
  {
    SliceUnpacks(b, o, o + 32, body.regs);
  }

  lemma FramesUnpack(b: seq<byte>, o: nat, body: Body)
    requires body.Nested? && HasUrecord(b, o, body)
    ensures UnpackWords(b, o + 33, |body.frames|) == body.frames
  {
    SliceUnpacks(b, o + 33, o + 33 + 8 * |body.frames|, body.frames);
  }

  lemma StackUnpack(b: seq<byte>, o: nat, body: Body)
    requires body.Nested? && HasUrecord(b, o, body)
    ensures UnpackWords(b, o + 33 + 8 * |body.frames| + 2, |body.stack|) == body.stack
  {
    SliceUnpacks(b, o + 33 + 8 * |body.frames| + 2, |b|, body.stack);
  }

  lemma SliceUnpacks(b: seq<byte>, o: nat, end: nat, ws: seq<Word>)
    requires end == o + 8 * |ws| <= |b| && b[o..end] == Words(ws)
    ensures UnpackWords(b, o, |ws|) == ws
  {
    WordsUnpack(b, o, ws);
  }

  lemma {:induction false} UnpackedAt(b: seq<byte>, o: nat, n: nat, i: nat)
    requires o + 8 * n <= |b| && i < n
    ensures |UnpackWords(b, o, n)| == n && UnpackWords(b, o, n)[i] == U64(b, o + 8 * i)
    decreases n
  {
    if i > 0 {
      UnpackedAt(b, o + 8, n - 1, i - 1);
    } else if n > 1 {
      UnpackedAt(b, o + 8, n - 1, 0);
    }
  }

  lemma FramesShape(h: seq<byte>, n: byte, words: seq<byte>, rest: seq<byte>)
    ensures var p := h + [n] + words + rest;
            p[|h|] == n && p[|h| + 1..|h| + 1 + |words|] == words
  {
  }

  lemma PayloadFrames(p: seq<byte>, h: seq<byte>, ws: seq<Word>, rest: seq<byte>)
    requires |ws| < 256 && p == h + [|ws|] + Words(ws) + rest
    ensures p[|h|] == |ws| && UnpackWords(p, |h| + 1, |ws|) == ws
  {
    FramesShape(h, |ws|, Words(ws), rest);
    WordsUnpack(p, |h| + 1, ws);
  }

  lemma PayloadUrecord(p: seq<byte>, pre: seq<byte>, body: Body)
    requires body.Nested? && |body.regs| == 4 && |body.frames| < 256 && |body.stack| < 0x1_0000
    requires p == pre + Urecord(body)
    ensures UrecEnd(p, 0, |pre|) != 0
    ensures var r := body.regs;
            ParseUrec(p, |pre|) == Urec(r[0], r[1], r[2], r[3], body.frames, body.stack)
  {
    UrecordIsThere(pre, body);
    UrecordParses(p, |pre|, body);
  }

  /** Unpacking payload p gives the kernel frames, and the user record behind them, of the body. */
  ghost predicate UnpacksFrames(p: seq<byte>, body: Body)
    requires body.Nested?
  {
    var h, n := |body.head|, |body.kframes|;
    h + 1 + 8 * n <= |p| && p[h] == n && UnpackWords(p, h + 1, n) == body.kframes
  }

  ghost predicate UnpacksUser(p: seq<byte>, body: Body)
    requires body.Nested? && |body.regs| == 4
  {
    var o, r := |body.head| + 1 + 8 * |body.kframes|, body.regs;
    UrecEnd(p, 0, o) != 0 && ParseUrec(p, o) == Urec(r[0], r[1], r[2], r[3], body.frames, body.stack)
  }

  lemma UserUnpacks(p: seq<byte>, pre: seq<byte>, body: Body)
    requires body.Nested? && |body.regs| == 4 && |body.frames| < 256 && |body.stack| < 0x1_0000
    requires |pre| == |body.head| + 1 + 8 * |body.kframes| && p == pre + Urecord(body)
    ensures UnpacksUser(p, body)
  {
    var o := |pre|;
    PayloadUrecord(p, pre, body);
    assert o == |body.head| + 1 + 8 * |body.kframes|;
  }

  /** What on_sample and on_wait unpack from a decoded payload is what was encoded. */
  lemma PayloadParses(e: Event)
    requires WellFormed(e) && e.body.Nested?
    ensures UnpacksFrames(EncodeBody(e.body), e.body) && UnpacksUser(EncodeBody(e.body), e.body)
  {
    var b := e.body;
    PayloadFrames(EncodeBody(b), b.head, b.kframes, Urecord(b));
    UserUnpacks(EncodeBody(b), b.head + [|b.kframes|] + Words(b.kframes), b);
  }

  // ----- What is read as an event is the encoding of one

  lemma {:induction false} WordsAt(b: seq<byte>, o: nat, n: nat) returns (ws: seq<Word>)
    requires o + 8 * n <= |b|
    ensures |ws| == n && Words(ws) == b[o..o + 8 * n]
    decreases n
  {
    if n == 0 {
      ws := [];
    } else {
      var rest := WordsAt(b, o + 8, n - 1);
      Writes64(b, o);
      ws := [U64(b, o)] + rest;
      assert ws[1..] == rest;
      assert b[o..o + 8 * n] == b[o..o + 8] + b[o + 8..o + 8 * n];
    }
  }

  lemma UserPieces(b: seq<byte>, o: nat, o1: nat, end: nat)
    requires o + 33 <= o1 && o1 + 2 <= end <= |b|
    ensures b[o..end] == b[o..o + 32] + [b[o + 32]] + b[o + 33..o1] + b[o1..o1 + 2] + b[o1 + 2..end]
  {
  }

  /** The end of a user record from its two counts. */
  lemma UserEnd(b: seq<byte>, p: nat, o: nat, nf: nat, o1: nat, ns: nat)
    requires p <= |b| && UrecEnd(b, p, o) != 0 && nf == Count(b, p + o + 32) && o1 == p + o + 33 + nf * 8
             && ns == U16(b, o1)
    ensures nf < 256 && o1 + 2 + 8 * ns == p + UrecEnd(b, p, o) <= |b|
  {
  }

  /** Its parts, one after the other, are its bytes. */
  lemma UserFromParts(b: seq<byte>, o: nat, o1: nat, end: nat, body: Body)
    requires body.Nested? && |body.frames| < 256 && |body.stack| < 0x1_0000 && o + 33 <= o1 && o1 + 2 <= end <= |b|
    requires Words(body.regs) == b[o..o + 32] && b[o + 32] == |body.frames| && Words(body.frames) == b[o + 33..o1]
    requires Le16(|body.stack|) == b[o1..o1 + 2] && Words(body.stack) == b[o1 + 2..end]
    ensures Urecord(body) == b[o..end]
  {
    UserPieces(b, o, o1, end);
  }

  /** A user record that fits is the encoding of its registers, frames and stack. */
  lemma UserIsEncoded(b: seq<byte>, p: nat, o: nat, head: seq<byte>, kframes: seq<Word>) returns (body: Body)
    requires p <= |b| && UrecEnd(b, p, o) != 0
    ensures body.Nested? && body.head == head && body.kframes == kframes
    ensures |body.regs| == 4 && |body.frames| < 256 && |body.stack| < 0x1_0000
    ensures Urecord(body) == b[p + o..p + UrecEnd(b, p, o)]
  {
    var nf := Count(b, p + o + 32);
    var o1 := p + o + 33 + nf * 8;
    var ns := U16(b, o1);
    UserEnd(b, p, o, nf, o1, ns);
    var regs := WordsAt(b, p + o, 4);
    var frames := WordsAt(b, p + o + 33, nf);
    var stack := WordsAt(b, o1 + 2, ns);
    Writes16(b, o1);
    body := Nested(head, kframes, regs, frames, stack);
    UserFromParts(b, p + o, o1, p + UrecEnd(b, p, o), body);
  }

  lemma PayloadPieces(b: seq<byte>, p: nat, h: nat, n: nat, end: nat)
    requires p + h + 1 + 8 * n <= end <= |b|
    ensures b[p..end] == b[p..p + h] + [b[p + h]] + b[p + h + 1..p + h + 1 + 8 * n] + b[p + h + 1 + 8 * n..end]
  {
  }

  lemma PayloadFromParts(b: seq<byte>, p: nat, h: nat, o: nat, end: nat, body: Body)
    requires body.Nested? && |body.kframes| < 256 && |body.frames| < 256
             && o == p + h + 1 + 8 * |body.kframes| <= end <= |b|
    requires body.head == b[p..p + h] && b[p + h] == |body.kframes| && Words(body.kframes) == b[p + h + 1..o]
    requires Urecord(body) == b[o..end]
    ensures EncodeBody(body) == b[p..end]
  {
    PayloadPieces(b, p, h, |body.kframes|, end);
  }

  lemma NestedIsEncoded(b: seq<byte>, p: nat, h: nat, o: nat) returns (body: Body)
    requires p + h < |b| && o == h + 1 + Count(b, p + h) * 8 && UrecEnd(b, p, o) != 0
    ensures body.Nested? && |body.head| == h && |body.kframes| < 256
    ensures |body.regs| == 4 && |body.frames| < 256 && |body.stack| < 0x1_0000
    ensures EncodeBody(body) == b[p..p + UrecEnd(b, p, o)]
  {
    var end := p + UrecEnd(b, p, o);
    assert p + o <= end <= |b|;
    var kframes := WordsAt(b, p + h + 1, Count(b, p + h));
    body := UserIsEncoded(b, p, o, b[p..p + h], kframes);
    PayloadFromParts(b, p, h, p + o, end, body);
  }

  lemma NestedBody(b: seq<byte>, o: nat, h: nat) returns (body: Body)
    requires o + 5 <= |b| && EvSize(b, o) != 0
    requires (b[o + 4] == EV_SAMPLE && h == 31) || (b[o + 4] == EV_WAIT && h == 49)
    ensures WellFormed(Event(0, b[o + 4], body))
    ensures EncodeBody(body) == b[o + 5..o + 5 + EvSize(b, o)]
  {
    var p := o + 5;
    var n := Count(b, p + h);
    NestedSize(b, o, h, n);
    body := NestedIsEncoded(b, p, h, h + 1 + n * 8);
  }

  lemma BodyIsEncoded(b: seq<byte>, o: nat) returns (body: Body)
    requires o + 5 <= |b| && EvSize(b, o) != 0
    ensures WellFormed(Event(0, b[o + 4], body))
    ensures EncodeBody(body) == b[o + 5..o + 5 + EvSize(b, o)]
  {
    if b[o + 4] == EV_SAMPLE {
      body := NestedBody(b, o, 31);
    } else if b[o + 4] == EV_WAIT {
      body := NestedBody(b, o, 49);
    } else {
      body := Plain(b[o + 5..o + 5 + EvSize(b, o)]);
    }
  }

  /** The bytes read as an event of size r. */
  ghost predicate IsEvent(b: seq<byte>, o: nat, r: nat)
    requires o + 5 + r <= |b|
  {
    exists e :: WellFormed(e) && Encode(e) == b[o..o + 5 + r]
  }

  lemma SizedIsEvent(b: seq<byte>, o: nat)
    requires o + 5 <= |b| && EvSize(b, o) != 0
    ensures IsEvent(b, o, EvSize(b, o))
  {
    var body := BodyIsEncoded(b, o);
    Writes32(b, o);
    var e, end := Event(Ts(b, o), b[o + 4], body), o + 5 + EvSize(b, o);
    assert b[o..end] == b[o..o + 4] + [b[o + 4]] + b[o + 5..end];
    assert WellFormed(e) && Encode(e) == b[o..end];
  }

  lemma SliceBetween(b: seq<byte>, o: nat, end: nat)
    requires o <= end <= |b|
    ensures b == b[..o] + b[o..end] + b[end..]
  {
  }

  lemma EventIsSized(b: seq<byte>, o: nat, r: nat, e: Event)
    requires o + 5 + r <= |b| && WellFormed(e) && Encode(e) == b[o..o + 5 + r]
    ensures EvSize(b, o) == r
  {
    SliceBetween(b, o, o + 5 + r);
    assert |Encode(e)| == 5 + |EncodeBody(e.body)|;
    EncodedSize(b[..o], e, b[o + 5 + r..]);
  }

  /** ev_size is r exactly if the bytes are the encoding of an event with a payload of r bytes; else it is 0. */
  lemma EvSizeExactly(b: seq<byte>, o: nat, r: nat)
    requires 0 < r && o + 5 + r <= |b|
    ensures EvSize(b, o) == r <==> IsEvent(b, o, r)
  {
    if EvSize(b, o) == r {
      SizedIsEvent(b, o);
    } else if IsEvent(b, o, r) {
      var e :| WellFormed(e) && Encode(e) == b[o..o + 5 + r];
      EventIsSized(b, o, r, e);
    }
  }

  // ----- Merging the streams

  predicate Before(a: Raw, b: Raw) {
    a.ts < b.ts || (a.ts == b.ts && a.seqno < b.seqno)
  }

  /** Strictly ascending by (time, sequence number). */
  ghost predicate Sorted(s: seq<Raw>) {
    forall i, j | 0 <= i < j < |s| :: s[i].ts < s[j].ts || (s[i].ts == s[j].ts && s[i].seqno < s[j].seqno)
  }

  function Insert(r: Raw, s: seq<Raw>): seq<Raw> {
    if s == [] || Before(r, s[0]) then [r] + s else [s[0]] + Insert(r, s[1..])
  }

  lemma {:induction false} InsertAdds(r: Raw, s: seq<Raw>)
    ensures multiset(Insert(r, s)) == multiset(s) + multiset{r}
  {
    if s != [] && !Before(r, s[0]) {
      InsertAdds(r, s[1..]);
      assert s == [s[0]] + s[1..];
    }
  }

  lemma SortedCons(r: Raw, s: seq<Raw>)
    requires Sorted(s) && forall x | x in s :: Before(r, x)
    ensures Sorted([r] + s)
  {
    var t := [r] + s;
    forall i, j | 0 <= i < j < |t| ensures t[i].ts < t[j].ts || (t[i].ts == t[j].ts && t[i].seqno < t[j].seqno) {
      assert t[j] == s[j - 1] && (i > 0 ==> t[i] == s[i - 1]);
      assert i == 0 ==> Before(r, s[j - 1]);
    }
  }

  lemma HeadIsFirst(s: seq<Raw>, x: Raw)
    requires Sorted(s) && s != [] && x in s
    ensures x == s[0] || Before(s[0], x)
  {
    var k :| 0 <= k < |s| && s[k] == x;
  }

  lemma {:induction false} InsertSorts(r: Raw, s: seq<Raw>)
    requires Sorted(s) && forall x | x in s :: x.seqno != r.seqno
    ensures Sorted(Insert(r, s))
  {
    if s == [] || Before(r, s[0]) {
      forall x | x in s ensures Before(r, x) {
        HeadIsFirst(s, x);
      }
      SortedCons(r, s);
    } else {
      InsertSorts(r, s[1..]);
      InsertAdds(r, s[1..]);
      var t := Insert(r, s[1..]);
      forall x | x in t ensures Before(s[0], x) {
        assert x in multiset(t);
        assert x == r || x in s[1..];
      }
      SortedCons(s[0], t);
    }
  }

  /** evs are the events of raw in time order, those of equal time in the order they were read. */
  ghost predicate IsMergeOf(evs: seq<Raw>, raw: seq<Raw>) {
    && multiset(evs) == multiset(raw) && Sorted(evs)
    && forall k | 0 <= k < |raw| :: raw[k].seqno == k
  }

  lemma NotYetIn(evs: seq<Raw>, raw: seq<Raw>, k: nat, x: Raw)
    requires k < |raw| && (forall i | 0 <= i < |raw| :: raw[i].seqno == i) && multiset(evs) == multiset(raw[..k])
             && x in evs
    ensures x.seqno != raw[k].seqno
  {
    assert x in multiset(raw[..k]);
    var i :| 0 <= i < k && raw[..k][i] == x;
  }

  lemma MergeNext(evs: seq<Raw>, raw: seq<Raw>, k: nat)
    requires k < |raw| && (forall i | 0 <= i < |raw| :: raw[i].seqno == i) && multiset(evs) == multiset(raw[..k])
             && Sorted(evs)
    ensures multiset(Insert(raw[k], evs)) == multiset(raw[..k + 1]) && Sorted(Insert(raw[k], evs))
  {
    forall x | x in evs ensures x.seqno != raw[k].seqno {
      NotYetIn(evs, raw, k, x);
    }
    InsertSorts(raw[k], evs);
    InsertAdds(raw[k], evs);
    assert raw[..k + 1] == raw[..k] + [raw[k]];
  }

  method Merge(raw: seq<Raw>) returns (evs: seq<Raw>)
    requires forall k | 0 <= k < |raw| :: raw[k].seqno == k
    ensures IsMergeOf(evs, raw)
  {
    evs := [];
    for k := 0 to |raw|
      invariant multiset(evs) == multiset(raw[..k]) && Sorted(evs)
    {
      MergeNext(evs, raw, k);
      evs := Insert(raw[k], evs);
    }
    assert raw[..|raw|] == raw;
  }

  /** Two events of a stream whose times do not go back stay in the order of the stream. */
  lemma MergeIsStable(evs: seq<Raw>, raw: seq<Raw>, i: nat, j: nat, p: nat, q: nat)
    requires IsMergeOf(evs, raw) && p < |evs| && q < |evs|
    requires i < j < |raw| && raw[i].ts <= raw[j].ts && evs[p] == raw[i] && evs[q] == raw[j]
    ensures p < q
  {
    assert !Before(evs[q], evs[p]);
  }

  /** Decoding one channel file (cpu, bytes) took the event list from before to after. */
  ghost predicate Loaded(file: (nat, seq<byte>), before: seq<Raw>, after: seq<Raw>, offs: seq<nat>) {
    match file
    case (cpu, b) => IsDecoding(Of(b), offs) && Emitted(b, cpu, before, after, offs)
  }

  /** The event list after each of the first files. */
  ghost predicate AllLoaded(files: seq<(nat, seq<byte>)>, parts: seq<seq<Raw>>, offs: seq<seq<nat>>) {
    && |parts| == |offs| + 1 && |offs| <= |files| && parts[0] == []
    && forall i | 0 <= i < |offs| :: Loaded(files[i], parts[i], parts[i + 1], offs[i])
  }

  lemma OneMoreLoaded(files: seq<(nat, seq<byte>)>, parts: seq<seq<Raw>>, offs: seq<seq<nat>>, after: seq<Raw>, o: seq<nat>)
    requires AllLoaded(files, parts, offs) && |offs| < |files|
    requires Loaded(files[|offs|], parts[|offs|], after, o)
    ensures AllLoaded(files, parts + [after], offs + [o])
  {
  }

  /** load_trace: the channel files in the order they are found, decoded one after the other and merged. */
  method LoadTrace(files: seq<(nat, seq<byte>)>) returns (evs: seq<Raw>)
    ensures exists parts, offs ::
      AllLoaded(files, parts, offs) && |offs| == |files| && IsMergeOf(evs, parts[|files|])
    ensures forall r | r in evs :: FromFile(files, r)
  {
    var raw: seq<Raw> := [];
    ghost var parts: seq<seq<Raw>>, offs: seq<seq<nat>> := [[]], [];
    for i := 0 to |files|
      invariant AllLoaded(files, parts, offs) && |offs| == i && raw == parts[i]
      invariant forall k | 0 <= k < |raw| :: raw[k].seqno == k
    {
      ghost var before := raw;
      var skipped;
      raw, skipped := LoadStream(files[i].1, files[i].0, raw);
      ghost var o :| Decoded(files[i].1, files[i].0, before, raw, skipped, o);
      NumberedOn(files[i].1, files[i].0, before, raw, o);
      OneMoreLoaded(files, parts, offs, raw, o);
      parts, offs := parts + [raw], offs + [o];
    }
    evs := Merge(raw);
    forall r | r in evs ensures FromFile(files, r) {
      MergedFromFiles(files, parts, offs, evs, r);
    }
  }

  /** Event r was read from one of the files, whole, and carries the CPU of that file. */
  ghost predicate FromFile(files: seq<(nat, seq<byte>)>, r: Raw) {
    exists i: nat, o: nat :: ReadFrom(files, r, i, o)
  }

  ghost predicate ReadFrom(files: seq<(nat, seq<byte>)>, r: Raw, i: nat, o: nat) {
    i < |files| && Of(files[i].1).Parses(o) && Stands(files[i].1, o, r.seqno, files[i].0, r)
  }

  lemma {:induction false} PartsFromFiles(files: seq<(nat, seq<byte>)>, parts: seq<seq<Raw>>, offs: seq<seq<nat>>,
                                          i: nat, k: nat)
    requires AllLoaded(files, parts, offs) && i < |parts| && k < |parts[i]|
    ensures FromFile(files, parts[i][k])
    decreases i
  {
    var j := i - 1;
    assert Loaded(files[j], parts[j], parts[j + 1], offs[j]);
    if k < |parts[j]| {
      PartsFromFiles(files, parts, offs, j, k);
      assert parts[i][..|parts[j]|][k] == parts[j][k];
    } else {
      var n := k - |parts[j]|;
      assert Stands(files[j].1, offs[j][n], |parts[j]| + n, files[j].0, parts[i][|parts[j]| + n]);
      assert ReadFrom(files, parts[i][k], j, offs[j][n]);
    }
  }

  /** Every event of the merged trace was read from a file and carries its CPU. */
  lemma MergedFromFiles(files: seq<(nat, seq<byte>)>, parts: seq<seq<Raw>>, offs: seq<seq<nat>>, evs: seq<Raw>, r: Raw)
    requires AllLoaded(files, parts, offs) && |offs| == |files| && IsMergeOf(evs, parts[|files|]) && r in evs
    ensures FromFile(files, r)
  {
    assert r in multiset(evs);
    assert r in parts[|files|];
    var k :| 0 <= k < |parts[|files|]| && parts[|files|][k] == r;
    PartsFromFiles(files, parts, offs, |files|, k);
  }

  lemma NumberedOn(b: seq<byte>, cpu: nat, out0: seq<Raw>, out: seq<Raw>, offs: seq<nat>)
    requires Emitted(b, cpu, out0, out, offs) && forall k | 0 <= k < |out0| :: out0[k].seqno == k
    ensures forall k | 0 <= k < |out| :: out[k].seqno == k
  {
    forall k | 0 <= k < |out| ensures out[k].seqno == k {
      if k < |out0| {
        assert out[..|out0|][k] == out0[k];
      } else {
        assert Stands(b, offs[k - |out0|], |out0| + (k - |out0|), cpu, out[|out0| + (k - |out0|)]);
      }
    }
  }
}
