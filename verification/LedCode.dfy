/**
 LED pulses and stage codes: build_stage_groups of scripts/analyze-rpi4-actled-video.py, and the
 encoder side, StageDef.bits of scripts/rpi4_actled_probe_layout.py. Durations are real numbers;
 a threshold that is not finite is None.
 */
module LedCode {
  import opened LedMask

  datatype Option<+T> = None | Some(value: T)

  datatype Params = Params(fps: real, sync: Option<real>, gap: real, maxPulse: real, bit: Option<real>)

  type Settings = p: Params | p.fps > 0.0 witness Params(1.0, None, 0.0, 0.0, None)

  const PULSES := 6

  function Seconds(frames: int, p: Settings): real {
    frames as real / p.fps
  }

  /** A pulse long enough to open a group. */
  predicate IsSync(p: Settings, s: Segment) {
    p.sync.Some? && Seconds(s.Frames(), p) >= p.sync.value && Seconds(s.Frames(), p) <= p.maxPulse
  }

  /** The dark time between two pulses is within a group's. */
  predicate Close(p: Settings, a: Segment, b: Segment) {
    Seconds(b.start - a.end - 1, p) <= p.gap
  }

  predicate BitOf(p: Settings, s: Segment) {
    p.bit.Some? && Seconds(s.Frames(), p) > p.bit.value
  }

  // ----- Reference: durations

  /** How long a pulse lasts, and how long it is dark between two, in seconds. */
  ghost function Lasts(s: Segment, fps: real): real
    requires fps > 0.0
  {
    (s.end - s.start + 1) as real / fps
  }

  ghost function DarkFor(a: Segment, b: Segment, fps: real): real
    requires fps > 0.0
  {
    (b.start - a.end - 1) as real / fps
  }

  /** It lasts at least the sync threshold and at most the longest valid pulse. */
  ghost predicate SyncLong(p: Settings, s: Segment) {
    p.sync.Some? && p.sync.value <= Lasts(s, p.fps) <= p.maxPulse
  }

  ghost predicate Adjacent(p: Settings, a: Segment, b: Segment) {
    DarkFor(a, b, p.fps) <= p.gap
  }

  /** A one: longer than the bit threshold. */
  ghost predicate One(p: Settings, s: Segment)
    requires p.bit.Some?
  {
    Lasts(s, p.fps) > p.bit.value
  }

  // ----- Codes and bit strings

  /** int(bits, 2) */
  function FromBits(bits: seq<bool>): nat {
    if bits == [] then 0 else 2 * FromBits(bits[..|bits| - 1]) + if bits[|bits| - 1] then 1 else 0
  }

  /** The shortest binary notation. */
  function Binary(c: nat): (r: seq<bool>)
    ensures |r| > 0
  {
    if c < 2 then [c == 1] else Binary(c / 2) + [c % 2 == 1]
  }

  function Padded(bits: seq<bool>, width: nat): seq<bool>
    decreases width - |bits|
  {
    if |bits| >= width then bits else Padded([false] + bits, width)
  }

  /** StageDef.bits: format(code, "0{width}b"), nothing for width 0. */
  function Bits(code: nat, width: nat): seq<bool> {
    if width == 0 then [] else Padded(Binary(code), width)
  }

  function Pow2(n: nat): nat {
    if n == 0 then 1 else 2 * Pow2(n - 1)
  }

  lemma {:induction false} BinaryDenotes(c: nat)
    ensures FromBits(Binary(c)) == c
  {
    if c >= 2 {
      BinaryDenotes(c / 2);
      assert Binary(c)[..|Binary(c)| - 1] == Binary(c / 2);
    } else {
      assert FromBits([]) == 0;
      assert [c == 1][..0] == [];
    }
  }

  lemma {:induction false} LeadingZero(bits: seq<bool>)
    ensures FromBits([false] + bits) == FromBits(bits)
  {
    var b := [false] + bits;
    if bits == [] {
      assert b[..0] == [];
    } else {
      LeadingZero(bits[..|bits| - 1]);
      assert b[..|b| - 1] == [false] + bits[..|bits| - 1];
    }
  }

  lemma {:induction false} PaddingKeepsValue(bits: seq<bool>, width: nat)
    ensures FromBits(Padded(bits, width)) == FromBits(bits)
    ensures |Padded(bits, width)| == if |bits| >= width then |bits| else width
    decreases width - |bits|
  {
    if |bits| < width {
      LeadingZero(bits);
      PaddingKeepsValue([false] + bits, width);
    }
  }

  lemma {:induction false} BinaryLength(c: nat, n: nat)
    requires n > 0
    ensures |Binary(c)| <= n <==> c < Pow2(n)
  {
    if c >= 2 && n > 1 {
      BinaryLength(c / 2, n - 1);
    } else if n == 1 {
      assert Pow2(1) == 2 * Pow2(0);
    } else {
      assert Pow2(n) >= 2 by { Pow2Positive(n - 1); }
    }
  }

  lemma {:induction false} Pow2Positive(n: nat)
    ensures Pow2(n) >= 1
  {
    if n > 0 {
      Pow2Positive(n - 1);
    }
  }

  /** Reading the bit string back gives the code; it has the given width exactly for codes that fit. */
  lemma BitsRoundTrip(code: nat, width: nat)
    requires width > 0
    ensures FromBits(Bits(code, width)) == code
    ensures |Bits(code, width)| == width <==> code < Pow2(width)
  {
    BinaryDenotes(code);
    PaddingKeepsValue(Binary(code), width);
    BinaryLength(code, width);
  }

  // ----- Groups

  datatype Decode = NoDecode | Invalid | Valid(bits: seq<bool>, code: nat)

  datatype Group = Group(index: nat, pulses: seq<Segment>, decode: Decode, complete: bool)

  /** How many pulses the group opened at i takes, k of them already taken. */
  ghost function Taken(segs: seq<Segment>, p: Settings, i: nat, k: nat): (r: nat)
    requires 1 <= k <= PULSES && i + k <= |segs|
    ensures k <= r <= PULSES && i + r <= |segs|
    decreases PULSES - k
  {
    if k < PULSES && i + k < |segs| && Close(p, segs[i + k - 1], segs[i + k]) then Taken(segs, p, i, k + 1) else k
  }

  function BitsOf(p: Settings, pulses: seq<Segment>): seq<bool> {
    seq(|pulses|, k requires 0 <= k < |pulses| => BitOf(p, pulses[k]))
  }

  function GroupOf(p: Settings, index: nat, pulses: seq<Segment>): Group
    requires |pulses| >= 1
  {
    var decode :=
      if |pulses| == PULSES && p.bit.Some? then
        var bits := BitsOf(p, pulses[1..]);
        Valid(bits, FromBits(bits))
      else if |pulses| >= 2 then Invalid else NoDecode;
    Group(index, pulses, decode, |pulses| == PULSES)
  }

  /** The groups found from pulse i on. */
  ghost function GroupsFrom(segs: seq<Segment>, p: Settings, i: nat, index: nat): seq<Group>
    requires i <= |segs|
    decreases |segs| - i
  {
    if i == |segs| then []
    else if !IsSync(p, segs[i]) then GroupsFrom(segs, p, i + 1, index)
    else
      var n := Taken(segs, p, i, 1);
      [GroupOf(p, index, segs[i..i + n])] + GroupsFrom(segs, p, i + n, index + 1)
  }

  /** The inner loop: the pulses of the group opened at i. */
  method TakePulses(segs: seq<Segment>, p: Settings, i: nat) returns (pulses: seq<Segment>, j: nat)
    requires i < |segs|
    ensures j == i + Taken(segs, p, i, 1) && pulses == segs[i..j]
  {
    pulses, j := [segs[i]], i + 1;
    while j < |segs| && |pulses| < PULSES && Close(p, pulses[|pulses| - 1], segs[j])
      invariant i < j <= |segs| && pulses == segs[i..j] && j - i <= PULSES
      invariant Taken(segs, p, i, j - i) == Taken(segs, p, i, 1)
    {
      pulses := pulses + [segs[j]];
      j := j + 1;
    }
  }

  lemma Appended(groups: seq<Group>, g: Group, rest: seq<Group>)
    ensures groups + ([g] + rest) == (groups + [g]) + rest
  {
  }

  /** build_stage_groups: consecutive longest chains from sync pulses, numbered from 1, with no sync pulse outside. */
  method BuildGroups(segs: seq<Segment>, p: Settings) returns (groups: seq<Group>)
    ensures groups == GroupsFrom(segs, p, 0, 1)
    ensures Slices(segs, p, groups, 0, 1)
  {
    GroupsAreSlices(segs, p, 0, 1);
    groups := [];
    var i, index := 0, 1;
    while i < |segs|
      invariant i <= |segs| && groups + GroupsFrom(segs, p, i, index) == GroupsFrom(segs, p, 0, 1)
    {
      if !IsSync(p, segs[i]) {
        i := i + 1;
        continue;
      }
      var pulses, j := TakePulses(segs, p, i);
      Appended(groups, GroupOf(p, index, pulses), GroupsFrom(segs, p, j, index + 1));
      groups := groups + [GroupOf(p, index, pulses)];
      index := index + 1;
      i := j;
    }
  }

  /** Pulses at .. at + n follow one another within the gap threshold. */
  ghost predicate Chained(segs: seq<Segment>, p: Settings, at: nat, n: nat)
    requires at + n <= |segs|
  {
    forall k | at < k < at + n :: Adjacent(p, segs[k - 1], segs[k])
  }

  /** A group of n pulses at `at` ends there: it is full, the pulses are used up, or the gap is too wide. */
  ghost predicate MustEnd(segs: seq<Segment>, p: Settings, at: nat, n: nat)
    requires 1 <= n && at + n <= |segs|
  {
    n == 6 || at + n == |segs| || !Adjacent(p, segs[at + n - 1], segs[at + n])
  }

  lemma {:induction false} TakenIsMaximal(segs: seq<Segment>, p: Settings, i: nat, k: nat)
    requires 1 <= k <= PULSES && i + k <= |segs| && Chained(segs, p, i, k)
    ensures Chained(segs, p, i, Taken(segs, p, i, k)) && MustEnd(segs, p, i, Taken(segs, p, i, k))
    decreases PULSES - k
  {
    if k < PULSES && i + k < |segs| && Close(p, segs[i + k - 1], segs[i + k]) {
      TakenIsMaximal(segs, p, i, k + 1);
    }
  }

  /** No pulse from i up to n can open a group. */
  ghost predicate Noise(segs: seq<Segment>, p: Settings, i: nat, n: nat) {
    i <= n <= |segs| && forall k | i <= k < n :: !SyncLong(p, segs[k])
  }

  /** Five pulses read as bits, the most significant first, and the number they make. */
  ghost predicate Spells(p: Settings, pulses: seq<Segment>, bits: seq<bool>, code: nat)
    requires p.bit.Some?
  {
    && |pulses| == |bits| == 5 && (forall k | 0 <= k < 5 :: bits[k] <==> One(p, pulses[k]))
    && code == 16 * Bit(bits[0]) + 8 * Bit(bits[1]) + 4 * Bit(bits[2]) + 2 * Bit(bits[3]) + Bit(bits[4])
  }

  ghost function Bit(b: bool): nat {
    if b then 1 else 0
  }

  /** What a group says of its pulses: six are complete and decoded, if there is a bit threshold; one alone is no code. */
  ghost predicate Describes(p: Settings, g: Group, index: nat, pulses: seq<Segment>) {
    match g
    case Group(i, ps, decode, complete) =>
      && i == index && ps == pulses && (complete <==> |pulses| == 6)
      && match decode
         case Valid(bits, code) => |pulses| == 6 && p.bit.Some? && Spells(p, pulses[1..], bits, code)
         case Invalid => |pulses| >= 2 && (|pulses| == 6 ==> p.bit.None?)
         case NoDecode => |pulses| == 1
  }

  lemma FiveBits(bits: seq<bool>)
    requires |bits| == 5
    ensures FromBits(bits) == 16 * Bit(bits[0]) + 8 * Bit(bits[1]) + 4 * Bit(bits[2]) + 2 * Bit(bits[3]) + Bit(bits[4])
  {
    var b4 := bits[..4];
    var b3 := b4[..3];
    var b2 := b3[..2];
    var b1 := b2[..1];
    assert FromBits(b1) == Bit(bits[0]) by { assert b1[..0] == []; }
    assert FromBits(b2) == 2 * Bit(bits[0]) + Bit(bits[1]);
    assert FromBits(b3) == 4 * Bit(bits[0]) + 2 * Bit(bits[1]) + Bit(bits[2]);
    assert FromBits(b4) == 8 * Bit(bits[0]) + 4 * Bit(bits[1]) + 2 * Bit(bits[2]) + Bit(bits[3]);
  }

  lemma GroupDescribes(p: Settings, index: nat, pulses: seq<Segment>)
    requires 1 <= |pulses| <= PULSES
    ensures Describes(p, GroupOf(p, index, pulses), index, pulses)
  {
    if |pulses| == PULSES && p.bit.Some? {
      FiveBits(BitsOf(p, pulses[1..]));
    }
  }

  /** Group g is read from the pulses at `at`: opened by a sync pulse, chained, and as long as can be. */
  ghost predicate GroupAt(segs: seq<Segment>, p: Settings, g: Group, at: nat, index: nat) {
    match g
    case Group(_, pulses, _, _) =>
      && 1 <= |pulses| <= 6 && at + |pulses| <= |segs| && SyncLong(p, segs[at])
      && Chained(segs, p, at, |pulses|) && MustEnd(segs, p, at, |pulses|)
      && Describes(p, g, index, segs[at..at + |pulses|])
  }

  /** Groups one after the other from pulse i on; the pulses outside them open none. */
  ghost predicate Slices(segs: seq<Segment>, p: Settings, gs: seq<Group>, i: nat, index: nat)
    decreases |gs|
  {
    if gs == [] then Noise(segs, p, i, |segs|)
    else exists at: nat :: FirstAt(segs, p, gs, i, at, index)
  }

  ghost predicate FirstAt(segs: seq<Segment>, p: Settings, gs: seq<Group>, i: nat, at: nat, index: nat)
    requires gs != []
    decreases |gs|, 0
  {
    Noise(segs, p, i, at) && GroupAt(segs, p, gs[0], at, index) && Slices(segs, p, gs[1..], at + |gs[0].pulses|, index + 1)
  }

  lemma SlicesLater(segs: seq<Segment>, p: Settings, gs: seq<Group>, i: nat, index: nat)
    requires i < |segs| && !IsSync(p, segs[i]) && Slices(segs, p, gs, i + 1, index)
    ensures Slices(segs, p, gs, i, index)
  {
    if gs != [] {
      var at: nat :| FirstAt(segs, p, gs, i + 1, at, index);
      assert FirstAt(segs, p, gs, i, at, index);
    }
  }

  lemma SlicesCons(segs: seq<Segment>, p: Settings, i: nat, index: nat, g: Group, rest: seq<Group>)
    requires GroupAt(segs, p, g, i, index) && Slices(segs, p, rest, i + |g.pulses|, index + 1)
    ensures Slices(segs, p, [g] + rest, i, index)
  {
    var gs := [g] + rest;
    assert gs[0] == g && gs[1..] == rest;
    assert FirstAt(segs, p, gs, i, i, index);
  }

  /**
   The groups are consecutive disjoint slices of the pulses, numbered in order: each is the longest chain, up to six
   pulses, from a sync pulse, and no sync pulse is left outside.
   */
  lemma {:induction false} GroupsAreSlices(segs: seq<Segment>, p: Settings, i: nat, index: nat)
    requires i <= |segs|
    ensures Slices(segs, p, GroupsFrom(segs, p, i, index), i, index)
    decreases |segs| - i
  {
    if i == |segs| {
    } else if !IsSync(p, segs[i]) {
      GroupsAreSlices(segs, p, i + 1, index);
      SlicesLater(segs, p, GroupsFrom(segs, p, i + 1, index), i, index);
    } else {
      var n := Taken(segs, p, i, 1);
      TakenIsMaximal(segs, p, i, 1);
      GroupsAreSlices(segs, p, i + n, index + 1);
      GroupDescribes(p, index, segs[i..i + n]);
      SlicesCons(segs, p, i, index, GroupOf(p, index, segs[i..i + n]), GroupsFrom(segs, p, i + n, index + 1));
    }
  }

  // ----- The round trip

  /**
   Six pulses at n that send the code: a sync pulse, then a long pulse for every one and a short one for every zero of
   its five bits, the most significant first, with inner gaps within the threshold.
   */
  ghost predicate Burst(segs: seq<Segment>, p: Settings, n: nat, code: nat) {
    n + 6 <= |segs| && SyncLong(p, segs[n]) && Chained(segs, p, n, 6) && LongForOnes(p, segs[n + 1..n + 6], code)
  }

  ghost predicate LongForOnes(p: Settings, pulses: seq<Segment>, code: nat) {
    && p.bit.Some? && |pulses| == 5 && code < 32
    && (One(p, pulses[0]) <==> code / 16 % 2 == 1)
    && (One(p, pulses[1]) <==> code / 8 % 2 == 1)
    && (One(p, pulses[2]) <==> code / 4 % 2 == 1)
    && (One(p, pulses[3]) <==> code / 2 % 2 == 1)
    && (One(p, pulses[4]) <==> code % 2 == 1)
  }

  lemma FiveDigits(code: nat, a: bool, b: bool, c: bool, d: bool, e: bool)
    requires code < 32 && (a <==> code / 16 % 2 == 1) && (b <==> code / 8 % 2 == 1) && (c <==> code / 4 % 2 == 1)
    requires (d <==> code / 2 % 2 == 1) && (e <==> code % 2 == 1)
    ensures 16 * Bit(a) + 8 * Bit(b) + 4 * Bit(c) + 2 * Bit(d) + Bit(e) == code
  {
  }

  /** Read as the decoder reads them, such pulses are the bits of the code. */
  lemma LongIsOne(p: Settings, pulses: seq<Segment>, code: nat)
    requires LongForOnes(p, pulses, code)
    ensures BitsOf(p, pulses) == Bits(code, 5)
  {
    var bits := BitsOf(p, pulses);
    FiveBits(bits);
    FiveDigits(code, bits[0], bits[1], bits[2], bits[3], bits[4]);
    Thirty2();
    BitsRoundTrip(code, 5);
    BitsAreUnique(bits, Bits(code, 5));
  }

  lemma Thirty2()
    ensures Pow2(5) == 32
  {
    assert Pow2(3) == 8;
  }

  lemma {:induction false} BitsAreUnique(a: seq<bool>, b: seq<bool>)
    requires |a| == |b| && FromBits(a) == FromBits(b)
    ensures a == b
  {
    if a != [] {
      var n := |a| - 1;
      BitsAreUnique(a[..n], b[..n]);
      assert a == a[..n] + [a[n]] && b == b[..n] + [b[n]];
    }
  }

  /** From pulse i on: bursts of the given codes, with noise that opens no group before, between and after them. */
  ghost predicate Sends(segs: seq<Segment>, p: Settings, i: nat, codes: seq<nat>)
    decreases |codes|
  {
    if codes == [] then Noise(segs, p, i, |segs|)
    else exists n: nat :: SendsFirst(segs, p, i, codes, n)
  }

  /** The first burst is at n. */
  ghost predicate SendsFirst(segs: seq<Segment>, p: Settings, i: nat, codes: seq<nat>, n: nat)
    requires codes != []
    decreases |codes|, 0
  {
    Noise(segs, p, i, n) && Burst(segs, p, n, codes[0]) && Sends(segs, p, n + 6, codes[1..])
  }

  lemma {:induction false} NoiseSkipped(segs: seq<Segment>, p: Settings, i: nat, n: nat, index: nat)
    requires Noise(segs, p, i, n)
    ensures GroupsFrom(segs, p, i, index) == GroupsFrom(segs, p, n, index)
    decreases n - i
  {
    if i < n {
      NoiseSkipped(segs, p, i + 1, n, index);
    }
  }

  lemma {:induction false} BurstTaken(segs: seq<Segment>, p: Settings, n: nat, code: nat, k: nat)
    requires Burst(segs, p, n, code) && 1 <= k <= PULSES
    ensures Taken(segs, p, n, k) == PULSES
    decreases PULSES - k
  {
    if k < PULSES {
      var j := n + k;
      assert Close(p, segs[j - 1], segs[j]);
      BurstTaken(segs, p, n, code, k + 1);
    }
  }

  function Codes(groups: seq<Group>): seq<nat> {
    if groups == [] then []
    else (if groups[0].decode.Valid? then [groups[0].decode.code] else []) + Codes(groups[1..])
  }

  ghost predicate AllComplete(groups: seq<Group>) {
    forall k | 0 <= k < |groups| :: groups[k].complete && groups[k].decode.Valid?
  }

  lemma CodesCons(g: Group, rest: seq<Group>, codes: seq<nat>)
    requires codes != [] && g.complete && g.decode.Valid? && g.decode.code == codes[0]
    requires |rest| == |codes| - 1 && Codes(rest) == codes[1..] && AllComplete(rest)
    ensures Codes([g] + rest) == codes && AllComplete([g] + rest)
  {
    assert ([g] + rest)[1..] == rest;
    assert codes == [codes[0]] + codes[1..];
  }

  lemma BurstDecodes(segs: seq<Segment>, p: Settings, n: nat, code: nat, index: nat)
    requires Burst(segs, p, n, code)
    ensures var g := GroupOf(p, index, segs[n..n + PULSES]); g.decode == Valid(Bits(code, 5), code) && g.complete
  {
    assert segs[n..n + PULSES][1..] == segs[n + 1..n + PULSES];
    LongIsOne(p, segs[n + 1..n + PULSES], code);
    BitsRoundTrip(code, 5);
  }

  /** Behind noise, a burst gives its group, and reading goes on behind it. */
  lemma BurstRead(segs: seq<Segment>, p: Settings, i: nat, n: nat, code: nat, index: nat)
    requires Noise(segs, p, i, n) && Burst(segs, p, n, code)
    ensures GroupsFrom(segs, p, i, index)
         == [GroupOf(p, index, segs[n..n + PULSES])] + GroupsFrom(segs, p, n + PULSES, index + 1)
  {
    NoiseSkipped(segs, p, i, n, index);
    BurstTaken(segs, p, n, code, 1);
  }

  /** The groups carry exactly the codes. */
  ghost predicate Carry(gs: seq<Group>, codes: seq<nat>) {
    |gs| == |codes| && Codes(gs) == codes && AllComplete(gs)
  }

  lemma OneBurstMore(segs: seq<Segment>, p: Settings, i: nat, n: nat, codes: seq<nat>, index: nat)
    requires codes != [] && Noise(segs, p, i, n) && Burst(segs, p, n, codes[0])
    requires Carry(GroupsFrom(segs, p, n + PULSES, index + 1), codes[1..])
    ensures Carry(GroupsFrom(segs, p, i, index), codes)
  {
    BurstRead(segs, p, i, n, codes[0], index);
    BurstDecodes(segs, p, n, codes[0], index);
    CodesCons(GroupOf(p, index, segs[n..n + PULSES]), GroupsFrom(segs, p, n + PULSES, index + 1), codes);
  }

  /** Whatever the noise, decoding what was sent gives exactly the codes, one complete group for each. */
  lemma {:induction false} CodesRoundTrip(segs: seq<Segment>, p: Settings, i: nat, codes: seq<nat>, index: nat)
    requires i <= |segs| && Sends(segs, p, i, codes)
    ensures Carry(GroupsFrom(segs, p, i, index), codes)
    decreases |codes|
  {
    if codes == [] {
      NoiseSkipped(segs, p, i, |segs|, index);
    } else {
      var n: nat :| SendsFirst(segs, p, i, codes, n);
      CodesRoundTrip(segs, p, n + PULSES, codes[1..], index + 1);
      OneBurstMore(segs, p, i, n, codes, index);
    }
  }
}
