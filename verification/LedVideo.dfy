/**
 The LED decoder from frames to codes: merge_short_false_runs, mask_to_segments and build_stage_groups of
 scripts/analyze-rpi4-actled-video.py one after the other, and what they recover from a mask with glitches.
 */
module LedVideo {
  import opened LedMask
  import opened LedCode

  // ----- Reference: what a mask shows

  /** The pulses follow one another with more than gap dark frames, and one at least, between two of them. */
  ghost predicate Spaced(pulses: seq<Segment>, gap: int) {
    && (forall k | 0 <= k < |pulses| :: pulses[k].start <= pulses[k].end)
    && forall j, k | 0 <= j < k < |pulses| :: Clear(pulses[j], pulses[k], gap)
  }

  ghost predicate Clear(a: Segment, b: Segment, gap: int) {
    b.start - a.end - 1 > gap && b.start - a.end - 1 > 0
  }

  /** The pulse begins and ends with a lit frame, and goes dark in between for at most gap frames at a time. */
  ghost predicate Glitched(mask: seq<bool>, gap: int, s: Segment) {
    && s.start <= s.end < |mask| && mask[s.start] && mask[s.end]
    && forall lo: nat, hi: nat | IsRun(mask, false, lo, hi) && s.start < lo && hi <= s.end :: hi - lo <= gap
  }

  /** The mask shows the pulses, with glitches, and nothing else. */
  ghost predicate Shows(mask: seq<bool>, gap: int, pulses: seq<Segment>) {
    && Spaced(pulses, gap)
    && (forall k {:trigger Glitched(mask, gap, pulses[k])} | 0 <= k < |pulses| :: Glitched(mask, gap, pulses[k]))
    && forall i: nat {:trigger Covered(pulses, i)} | i < |mask| && mask[i] :: Covered(pulses, i)
  }

  /** The pulses of at least min frames. */
  function LongOnes(pulses: seq<Segment>, min: int): seq<Segment> {
    if pulses == [] then [] else
    LongOnes(pulses[..|pulses| - 1], min) + if pulses[|pulses| - 1].Frames() >= min then [pulses[|pulses| - 1]] else []
  }

  // ----- Merging removes the glitches

  lemma Apart(pulses: seq<Segment>, gap: int, j: nat, k: nat)
    requires Spaced(pulses, gap) && j < |pulses| && k < |pulses|
    ensures j < k ==> Clear(pulses[j], pulses[k], gap)
    ensures k < j ==> Clear(pulses[k], pulses[j], gap)
  {
  }

  /** A short gap does not lie between two pulses. */
  lemma GapInsidePulse(mask: seq<bool>, gap: int, pulses: seq<Segment>, lo: nat, hi: nat, j: nat, k: nat)
    requires Shows(mask, gap, pulses) && ShortGap(mask, gap, lo, hi) && j < |pulses| && k < |pulses|
    requires pulses[j].start <= lo - 1 <= pulses[j].end && pulses[k].start <= hi <= pulses[k].end
    ensures j == k
  {
    var a, b := pulses[j], pulses[k];
    assert Glitched(mask, gap, a) && Glitched(mask, gap, b);
    Apart(pulses, gap, j, k);
  }

  lemma PulseAt(mask: seq<bool>, gap: int, pulses: seq<Segment>, i: nat) returns (k: nat)
    requires Shows(mask, gap, pulses) && i < |mask| && mask[i]
    ensures k < |pulses| && pulses[k].start <= i <= pulses[k].end
  {
    assert Covered(pulses, i);
    k :| k < |pulses| && pulses[k].start <= i <= pulses[k].end;
  }

  lemma GapIsCovered(mask: seq<bool>, gap: int, pulses: seq<Segment>, lo: nat, hi: nat) returns (j: nat)
    requires Shows(mask, gap, pulses) && ShortGap(mask, gap, lo, hi)
    ensures j < |pulses| && pulses[j].start < lo < hi <= pulses[j].end
  {
    j := PulseAt(mask, gap, pulses, lo - 1);
    var k := PulseAt(mask, gap, pulses, hi);
    GapInsidePulse(mask, gap, pulses, lo, hi, j, k);
  }

  lemma LitIsCovered(mask: seq<bool>, gap: int, pulses: seq<Segment>, i: nat)
    requires Shows(mask, gap, pulses) && i < |mask| && Lit(mask, gap, i)
    ensures Covered(pulses, i)
  {
    if !mask[i] {
      var lo: nat, hi: nat :| lo <= i < hi && ShortGap(mask, gap, lo, hi);
      var j := GapIsCovered(mask, gap, pulses, lo, hi);
      assert pulses[j].start <= i <= pulses[j].end;
    }
  }

  lemma GlitchIsShort(mask: seq<bool>, gap: int, s: Segment, lo: nat, hi: nat, i: nat)
    requires Glitched(mask, gap, s) && IsRun(mask, false, lo, hi) && lo <= i < hi && s.start <= i <= s.end
    ensures ShortGap(mask, gap, lo, hi)
  {
  }

  lemma CoveredIsLit(mask: seq<bool>, gap: int, pulses: seq<Segment>, i: nat)
    requires Shows(mask, gap, pulses) && i < |mask| && Covered(pulses, i)
    ensures Lit(mask, gap, i)
  {
    var k: nat :| k < |pulses| && pulses[k].start <= i <= pulses[k].end;
    assert Glitched(mask, gap, pulses[k]);
    if !mask[i] {
      var lo, hi := RunAround(mask, false, i);
      GlitchIsShort(mask, gap, pulses[k], lo, hi, i);
    }
  }

  /** A frame of the merged mask is lit exactly if a pulse covers it. */
  ghost predicate Clean(merged: seq<bool>, pulses: seq<Segment>) {
    && (forall i: nat | i < |merged| :: merged[i] <==> Covered(pulses, i))
    && forall k | 0 <= k < |pulses| :: pulses[k].end < |merged|
  }

  lemma MergeIsClean(mask: seq<bool>, gap: int, pulses: seq<Segment>, merged: seq<bool>)
    requires Shows(mask, gap, pulses) && IsMerge(mask, gap, merged)
    ensures Clean(merged, pulses)
  {
    forall i: nat | i < |merged| ensures merged[i] <==> Covered(pulses, i) {
      if Lit(mask, gap, i) {
        LitIsCovered(mask, gap, pulses, i);
      }
      if Covered(pulses, i) {
        CoveredIsLit(mask, gap, pulses, i);
      }
    }
    forall k | 0 <= k < |pulses| ensures pulses[k].end < |merged| {
      assert Glitched(mask, gap, pulses[k]);
    }
  }

  // ----- The segments are the pulses

  /** A frame next to a pulse is dark. */
  lemma BesidePulse(merged: seq<bool>, pulses: seq<Segment>, gap: int, k: nat, i: nat)
    requires Clean(merged, pulses) && Spaced(pulses, gap) && k < |pulses| && i < |merged|
    requires i == pulses[k].end + 1 || i + 1 == pulses[k].start
    ensures !merged[i]
  {
    forall j: nat | j < |pulses| ensures !(pulses[j].start <= i <= pulses[j].end) {
      Apart(pulses, gap, j, k);
    }
  }

  lemma PulseIsRun(merged: seq<bool>, pulses: seq<Segment>, gap: int, k: nat)
    requires Clean(merged, pulses) && Spaced(pulses, gap) && k < |pulses|
    ensures IsRun(merged, true, pulses[k].start, pulses[k].end + 1)
  {
    var s := pulses[k];
    forall i | s.start <= i < s.end + 1 ensures merged[i] {
      assert Covered(pulses, i);
    }
    if s.start > 0 {
      BesidePulse(merged, pulses, gap, k, s.start - 1);
    }
    if s.end + 1 < |merged| {
      BesidePulse(merged, pulses, gap, k, s.end + 1);
    }
  }

  lemma RunIsPulse(merged: seq<bool>, pulses: seq<Segment>, gap: int, lo: nat, hi: nat)
    requires Clean(merged, pulses) && Spaced(pulses, gap) && IsRun(merged, true, lo, hi)
    ensures Segment(lo, hi - 1) in pulses
  {
    assert merged[lo];
    var k: nat :| k < |pulses| && pulses[k].start <= lo <= pulses[k].end;
    PulseIsRun(merged, pulses, gap, k);
    RunsAgree(merged, true, lo, hi, pulses[k].start, pulses[k].end + 1, lo);
  }

  lemma {:induction false} LongExactly(pulses: seq<Segment>, min: int, s: Segment)
    ensures s in LongOnes(pulses, min) <==> s in pulses && s.Frames() >= min
  {
    if pulses != [] {
      LongExactly(pulses[..|pulses| - 1], min, s);
      assert pulses == pulses[..|pulses| - 1] + [pulses[|pulses| - 1]];
    }
  }

  lemma OrderedSnoc(segs: seq<Segment>, s: Segment)
    requires Ordered(segs) && forall t | t in segs :: t.end < s.start
    ensures Ordered(segs + [s])
  {
  }

  lemma {:induction false} LongOrdered(pulses: seq<Segment>, min: int, gap: int)
    requires Spaced(pulses, gap)
    ensures Ordered(LongOnes(pulses, min))
  {
    if pulses != [] {
      var n := |pulses| - 1;
      var front := LongOnes(pulses[..n], min);
      SpacedFront(pulses, gap, n);
      LongOrdered(pulses[..n], min, gap);
      forall t | t in front ensures t.end < pulses[n].start {
        LongExactly(pulses[..n], min, t);
        var j :| 0 <= j < n && pulses[j] == t;
        assert Clear(pulses[j], pulses[n], gap);
      }
      OrderedSnoc(front, pulses[n]);
    }
  }

  lemma SpacedFront(pulses: seq<Segment>, gap: int, n: nat)
    requires Spaced(pulses, gap) && n <= |pulses|
    ensures Spaced(pulses[..n], gap)
  {
    forall j, k | 0 <= j < k < n ensures Clear(pulses[..n][j], pulses[..n][k], gap) {
      assert Clear(pulses[j], pulses[k], gap);
    }
  }

  /** Segments in order are determined by which they are. */
  lemma {:induction false} OrderDetermines(a: seq<Segment>, b: seq<Segment>)
    requires Ordered(a) && Ordered(b) && (forall s :: s in a <==> s in b)
    requires forall s | s in a :: s.start <= s.end
    ensures a == b
  {
    EmptyAgrees(a, b);
    if a != [] {
      var m, n := |a| - 1, |b| - 1;
      LastAgrees(a, b);
      OrderedFront(a, m);
      OrderedFront(b, n);
      forall s ensures s in a[..m] <==> s in b[..n] {
        FrontExactly(a, s);
        FrontExactly(b, s);
      }
      OrderDetermines(a[..m], b[..n]);
      assert a == a[..m] + [a[m]] && b == b[..n] + [b[n]];
    }
  }

  lemma EmptyAgrees(a: seq<Segment>, b: seq<Segment>)
    requires forall s :: s in a <==> s in b
    ensures a == [] <==> b == []
  {
    if a != [] {
      assert a[0] in b;
    }
    if b != [] {
      assert b[0] in a;
    }
  }

  lemma OrderedFront(a: seq<Segment>, n: nat)
    requires Ordered(a) && n <= |a|
    ensures Ordered(a[..n])
  {
  }

  lemma LastAgrees(a: seq<Segment>, b: seq<Segment>)
    requires Ordered(a) && Ordered(b) && a != [] && b != [] && (forall s :: s in a <==> s in b)
    requires forall s | s in a :: s.start <= s.end
    ensures a[|a| - 1] == b[|b| - 1]
  {
    var x, y := a[|a| - 1], b[|b| - 1];
    assert x in b && y in a;
    var i :| 0 <= i < |b| && b[i] == x;
    var j :| 0 <= j < |a| && a[j] == y;
  }

  lemma FrontExactly(a: seq<Segment>, s: Segment)
    requires Ordered(a) && a != [] && forall t | t in a :: t.start <= t.end
    ensures s in a[..|a| - 1] <==> s in a && s != a[|a| - 1]
  {
    var n := |a| - 1;
    assert a[n] in a;
    forall k | 0 <= k < n ensures a[k] != a[n] {
      assert a[k].end < a[n].start;
    }
  }

  lemma SegmentIsPulse(merged: seq<bool>, pulses: seq<Segment>, gap: int, min: int, segs: seq<Segment>, s: Segment)
    requires Clean(merged, pulses) && Spaced(pulses, gap) && AreRuns(merged, min, segs, |merged|) && s in segs
    ensures s in LongOnes(pulses, min) && s.start <= s.end
  {
    assert LongRun(merged, min, s.start, s.end + 1);
    RunIsPulse(merged, pulses, gap, s.start, s.end + 1);
    LongExactly(pulses, min, s);
  }

  lemma PulseIsSegment(merged: seq<bool>, pulses: seq<Segment>, gap: int, min: int, segs: seq<Segment>, s: Segment)
    requires Clean(merged, pulses) && Spaced(pulses, gap) && AreRuns(merged, min, segs, |merged|)
             && s in LongOnes(pulses, min)
    ensures s in segs
  {
    LongExactly(pulses, min, s);
    var k: nat :| k < |pulses| && pulses[k] == s;
    PulseIsRun(merged, pulses, gap, k);
    assert LongRun(merged, min, s.start, s.end + 1);
  }

  /** The segments of the merged mask are the pulses of at least min frames. */
  lemma SegmentsArePulses(merged: seq<bool>, pulses: seq<Segment>, gap: int, min: int, segs: seq<Segment>)
    requires Clean(merged, pulses) && Spaced(pulses, gap) && AreRuns(merged, min, segs, |merged|)
    ensures segs == LongOnes(pulses, min)
  {
    var long := LongOnes(pulses, min);
    forall s | s in segs ensures s in long && s.start <= s.end {
      SegmentIsPulse(merged, pulses, gap, min, segs, s);
    }
    forall s | s in long ensures s in segs {
      PulseIsSegment(merged, pulses, gap, min, segs, s);
    }
    LongOrdered(pulses, min, gap);
    OrderDetermines(segs, long);
  }

  // ----- Every mask shows pulses

  lemma GapIsMerged(mask: seq<bool>, gap: int, merged: seq<bool>, a: nat, b: nat)
    requires IsMerge(mask, gap, merged) && ShortGap(mask, gap, a, b)
    ensures forall k | a - 1 <= k <= b :: merged[k]
  {
    forall k | a - 1 <= k <= b ensures merged[k] {
      assert Lit(mask, gap, k);
    }
  }

  lemma RunEndsLit(mask: seq<bool>, gap: int, merged: seq<bool>, lo: nat, hi: nat, i: nat)
    requires IsMerge(mask, gap, merged) && IsRun(merged, true, lo, hi) && (i == lo || i == hi - 1)
    ensures mask[i]
  {
    assert Lit(mask, gap, i);
    if !mask[i] {
      var a: nat, b: nat :| a <= i < b && ShortGap(mask, gap, a, b);
      GapIsMerged(mask, gap, merged, a, b);
    }
  }

  lemma RunIsGlitched(mask: seq<bool>, gap: int, merged: seq<bool>, s: Segment)
    requires IsMerge(mask, gap, merged) && IsRun(merged, true, s.start, s.end + 1)
    ensures Glitched(mask, gap, s)
  {
    RunEndsLit(mask, gap, merged, s.start, s.end + 1, s.start);
    RunEndsLit(mask, gap, merged, s.start, s.end + 1, s.end);
    forall lo: nat, hi: nat | IsRun(mask, false, lo, hi) && s.start < lo && hi <= s.end ensures hi - lo <= gap {
      assert merged[lo] && Lit(mask, gap, lo);
      LitInRun(mask, gap, lo, hi, lo);
    }
  }

  lemma RunsAreClear(mask: seq<bool>, gap: int, merged: seq<bool>, min: int, segs: seq<Segment>, j: nat, k: nat)
    requires IsMerge(mask, gap, merged) && AreRuns(merged, min, segs, |merged|) && j < k < |segs|
    ensures Clear(segs[j], segs[k], gap)
  {
    PulsesApart(mask, gap, merged, min, segs, j, k);
    assert LongRun(merged, min, segs[j].start, segs[j].end + 1) && LongRun(merged, min, segs[k].start, segs[k].end + 1);
    assert segs[j].end < segs[k].start && merged[segs[k].start];
  }

  /** Every mask shows the lit runs of its merge, so what it shows is never in doubt. */
  lemma MaskShows(mask: seq<bool>, gap: int, merged: seq<bool>, segs: seq<Segment>)
    requires IsMerge(mask, gap, merged) && AreRuns(merged, 1, segs, |merged|)
    ensures Shows(mask, gap, segs)
    ensures forall pulses | Shows(mask, gap, pulses) :: pulses == segs
  {
    forall k | 0 <= k < |segs| ensures Glitched(mask, gap, segs[k]) && segs[k].start <= segs[k].end {
      assert LongRun(merged, 1, segs[k].start, segs[k].end + 1);
      RunIsGlitched(mask, gap, merged, segs[k]);
    }
    forall j, k | 0 <= j < k < |segs| ensures Clear(segs[j], segs[k], gap) {
      RunsAreClear(mask, gap, merged, 1, segs, j, k);
    }
    forall i: nat | i < |mask| && mask[i] ensures Covered(segs, i) {
      assert Lit(mask, gap, i) && merged[i];
      SegmentsRebuild(merged, 1, segs, i);
    }
    forall pulses | Shows(mask, gap, pulses) ensures pulses == segs {
      MergeIsClean(mask, gap, pulses, merged);
      SegmentsArePulses(merged, pulses, gap, 1, segs);
      AllLong(pulses);
    }
  }

  lemma {:induction false} AllLong(pulses: seq<Segment>)
    requires forall k | 0 <= k < |pulses| :: pulses[k].Frames() >= 1
    ensures LongOnes(pulses, 1) == pulses
  {
    if pulses != [] {
      var n := |pulses| - 1;
      AllLong(pulses[..n]);
      assert pulses == pulses[..n] + [pulses[n]];
    }
  }

  // ----- The whole decoder

  /**
   From the mask to the groups. Whatever glitches of at most gap frames the pulses have, and whatever lights up for
   fewer than min frames, a mask that shows bursts of codes is decoded to exactly these codes.
   */
  method Decode(mask: seq<bool>, gap: int, min: int, p: Settings) returns (groups: seq<Group>)
    ensures forall pulses | Shows(mask, gap, pulses) :: groups == GroupsFrom(LongOnes(pulses, min), p, 0, 1)
    ensures forall pulses, codes | Shows(mask, gap, pulses) && Sends(LongOnes(pulses, min), p, 0, codes) ::
      Carry(groups, codes)
  {
    var merged := Merge(mask, gap);
    var segs := Segments(merged[..], min);
    groups := BuildGroups(segs, p);
    forall pulses | Shows(mask, gap, pulses) ensures segs == LongOnes(pulses, min) {
      MergeIsClean(mask, gap, pulses, merged[..]);
      SegmentsArePulses(merged[..], pulses, gap, min, segs);
    }
    forall pulses, codes | Shows(mask, gap, pulses) && Sends(LongOnes(pulses, min), p, 0, codes)
      ensures Carry(groups, codes)
    {
      CodesRoundTrip(segs, p, 0, codes, 1);
    }
  }
}
