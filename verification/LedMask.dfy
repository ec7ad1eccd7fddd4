/**
 From LED on/off frames to pulses: merge_short_false_runs and mask_to_segments of
 scripts/analyze-rpi4-actled-video.py.
 */
module LedMask {

  /** A pulse, by its first and last frame. */
  datatype Segment = Segment(start: nat, end: nat) {
    function Frames(): int { end - start + 1 }
  }

  // ----- Reference: maximal runs

  /** [lo, hi) is a maximal run of frames with the value v. */
  ghost predicate IsRun(mask: seq<bool>, v: bool, lo: nat, hi: nat) {
    && lo < hi <= |mask| && (forall i | lo <= i < hi :: mask[i] == v)
    && (lo > 0 ==> mask[lo - 1] != v) && (hi < |mask| ==> mask[hi] != v)
  }

  /** [lo, hi) is a dark run between lit frames, at most gap frames long. */
  ghost predicate ShortGap(mask: seq<bool>, gap: int, lo: nat, hi: nat) {
    IsRun(mask, false, lo, hi) && lo > 0 && hi < |mask| && hi - lo <= gap
  }

  /** A frame that is lit after merging: lit before, or inside a short gap. */
  ghost predicate Lit(mask: seq<bool>, gap: int, i: nat)
    requires i < |mask|
  {
    mask[i] || exists lo: nat, hi: nat :: lo <= i < hi && ShortGap(mask, gap, lo, hi)
  }

  ghost predicate IsMerge(mask: seq<bool>, gap: int, merged: seq<bool>) {
    |merged| == |mask| && forall i | 0 <= i < |mask| :: merged[i] <==> Lit(mask, gap, i)
  }

  /** Two runs of the same value that share a frame are the same run. */
  lemma RunsAgree(mask: seq<bool>, v: bool, lo: nat, hi: nat, lo': nat, hi': nat, i: nat)
    requires IsRun(mask, v, lo, hi) && IsRun(mask, v, lo', hi') && lo <= i < hi && lo' <= i < hi'
    ensures lo == lo' && hi == hi'
  {
  }

  // ----- Merging

  /** Frames of a dark run are lit by merging exactly if the run is a short gap. */
  lemma LitInRun(mask: seq<bool>, gap: int, lo: nat, hi: nat, i: nat)
    requires IsRun(mask, false, lo, hi) && lo <= i < hi
    ensures Lit(mask, gap, i) <==> ShortGap(mask, gap, lo, hi)
  {
    if Lit(mask, gap, i) {
      var lo': nat, hi': nat :| lo' <= i < hi' && ShortGap(mask, gap, lo', hi');
      RunsAgree(mask, false, lo, hi, lo', hi', i);
    }
  }

  /** merge_short_false_runs, on a copy of the mask. */
  method Merge(mask: seq<bool>, gap: int) returns (out: array<bool>)
    ensures IsMerge(mask, gap, out[..])
  {
    var n := |mask|;
    out := new bool[n](k requires 0 <= k < n => mask[k]);
    var i := 0;
    while i < n
      invariant i <= n && out.Length == n
      invariant i == 0 || i == n || mask[i - 1] || mask[i]
      invariant forall k | 0 <= k < i :: out[k] <==> Lit(mask, gap, k)
      invariant forall k | i <= k < n :: out[k] == mask[k]
    {
      if out[i] {
        i := i + 1;
        continue;
      }
      var start := i;
      while i < n && !out[i]
        invariant start <= i <= n && forall k | start <= k < i :: !mask[k]
      {
        i := i + 1;
      }
      var end := i - 1;
      assert IsRun(mask, false, start, i);
      forall k | start <= k < i ensures Lit(mask, gap, k) <==> ShortGap(mask, gap, start, i) {
        LitInRun(mask, gap, start, i, k);
      }
      if start == 0 || end == n - 1 {
        continue;
      }
      if end - start + 1 <= gap {
        forall k | start <= k < end + 1 { out[k] := true; }
      }
    }
  }

  /** After merging no short gap is left. */
  lemma NoShortGap(mask: seq<bool>, gap: int, merged: seq<bool>, lo: nat, hi: nat)
    requires IsMerge(mask, gap, merged)
    ensures !ShortGap(merged, gap, lo, hi)
  {
    if IsRun(merged, false, lo, hi) && lo > 0 && hi < |merged| {
      assert forall i | lo <= i < hi :: !merged[i] && !Lit(mask, gap, i) && !mask[i];
      assert Lit(mask, gap, lo - 1) && Lit(mask, gap, hi);
      assert mask[lo - 1] by {
        if !mask[lo - 1] {
          var a: nat, b: nat :| a <= lo - 1 < b && ShortGap(mask, gap, a, b);
          assert b > lo ==> Lit(mask, gap, lo);
        }
      }
      assert mask[hi] by {
        if !mask[hi] {
          var a: nat, b: nat :| a <= hi < b && ShortGap(mask, gap, a, b);
          assert a < hi ==> Lit(mask, gap, hi - 1);
        }
      }
      assert IsRun(mask, false, lo, hi);
      LitInRun(mask, gap, lo, hi, lo);
    }
  }

  /** Merging again changes nothing; merging only ever lights frames of interior gaps of at most gap frames. */
  lemma MergeIsIdempotent(mask: seq<bool>, gap: int, merged: seq<bool>)
    requires IsMerge(mask, gap, merged)
    ensures IsMerge(merged, gap, merged)
  {
    forall i: nat | i < |merged| ensures merged[i] <==> Lit(merged, gap, i) {
      if Lit(merged, gap, i) && !merged[i] {
        var lo: nat, hi: nat :| lo <= i < hi && ShortGap(merged, gap, lo, hi);
        NoShortGap(mask, gap, merged, lo, hi);
      }
    }
  }

  // ----- Segments

  ghost predicate LongRun(mask: seq<bool>, min: int, lo: nat, hi: nat) {
    IsRun(mask, true, lo, hi) && hi - lo >= min
  }

  ghost predicate Ordered(segs: seq<Segment>) {
    forall j, k | 0 <= j < k < |segs| :: segs[j].end < segs[k].start
  }

  /** Every segment is a lit run of at least min frames that ends by frame n. */
  ghost predicate Sound(mask: seq<bool>, min: int, segs: seq<Segment>, n: nat) {
    forall k | 0 <= k < |segs| :: LongRun(mask, min, segs[k].start, segs[k].end + 1) && segs[k].end < n
  }

  /** Every such run is among the segments. */
  ghost predicate Complete(mask: seq<bool>, min: int, segs: seq<Segment>, n: nat) {
    forall lo: nat, hi: nat | LongRun(mask, min, lo, hi) && hi <= n :: Segment(lo, hi - 1) in segs
  }

  /** The segments are exactly the lit runs of at least min frames that end by frame n, in order. */
  ghost predicate AreRuns(mask: seq<bool>, min: int, segs: seq<Segment>, n: nat) {
    Sound(mask, min, segs, n) && Complete(mask, min, segs, n) && Ordered(segs)
  }

  /** The runs found so far, and the start of the lit run under way, -1 if there is none. */
  datatype Scan = Scan(segs: seq<Segment>, start: int)

  /** The scan after i frames. */
  ghost predicate Scanned(mask: seq<bool>, min: int, s: Scan, i: nat)
    requires i <= |mask|
  {
    match s
    case Scan(segs, start) =>
      && -1 <= start < i
      && (start >= 0 ==> (forall k | start <= k < i :: mask[k]) && (start > 0 ==> !mask[start - 1]))
      && (start == -1 ==> i == 0 || !mask[i - 1])
      && AreRuns(mask, min, segs, if start >= 0 then start else i)
  }

  lemma RunStarts(mask: seq<bool>, min: int, segs: seq<Segment>, i: nat)
    requires i < |mask| && Scanned(mask, min, Scan(segs, -1), i) && mask[i]
    ensures Scanned(mask, min, Scan(segs, i), i + 1)
  {
  }

  lemma RunGoesOn(mask: seq<bool>, min: int, segs: seq<Segment>, start: int, i: nat)
    requires i < |mask| && Scanned(mask, min, Scan(segs, start), i) && start != -1 && mask[i]
    ensures Scanned(mask, min, Scan(segs, start), i + 1)
  {
  }

  lemma DarkGoesOn(mask: seq<bool>, min: int, segs: seq<Segment>, i: nat)
    requires i < |mask| && Scanned(mask, min, Scan(segs, -1), i) && !mask[i]
    ensures Scanned(mask, min, Scan(segs, -1), i + 1)
  {
    forall lo: nat, hi: nat | LongRun(mask, min, lo, hi) && hi <= i + 1 ensures hi <= i {
      assert mask[hi - 1];
    }
  }

  lemma RunStops(mask: seq<bool>, min: int, segs: seq<Segment>, start: int, i: nat)
    requires i <= |mask| && Scanned(mask, min, Scan(segs, start), i) && start != -1 && (i < |mask| ==> !mask[i])
    ensures IsRun(mask, true, start, i) && AreRuns(mask, min, WithRun(segs, min, start, i), i)
    ensures i < |mask| ==> Scanned(mask, min, Scan(WithRun(segs, min, start, i), -1), i + 1)
  {
    OneRunMore(mask, min, segs, start, i);
  }

  /** What one more frame does to the scan. */
  ghost function NextScan(mask: seq<bool>, min: int, s: Scan, i: nat): Scan
    requires i < |mask| && -1 <= s.start < i
  {
    if mask[i] && s.start == -1 then s.(start := i)
    else if !mask[i] && s.start != -1 then Scan(WithRun(s.segs, min, s.start, i), -1)
    else s
  }

  lemma OneFrameMore(mask: seq<bool>, min: int, s: Scan, i: nat)
    requires i < |mask| && Scanned(mask, min, s, i)
    ensures -1 <= s.start < i && Scanned(mask, min, NextScan(mask, min, s, i), i + 1)
  {
    if mask[i] && s.start == -1 {
      RunStarts(mask, min, s.segs, i);
    } else if mask[i] {
      RunGoesOn(mask, min, s.segs, s.start, i);
    } else if s.start != -1 {
      RunStops(mask, min, s.segs, s.start, i);
    } else {
      DarkGoesOn(mask, min, s.segs, i);
    }
  }

  /** mask_to_segments. */
  method Segments(mask: seq<bool>, min: int) returns (segs: seq<Segment>)
    ensures AreRuns(mask, min, segs, |mask|)
  {
    segs := [];
    var start := -1;
    ghost var s := Scan(segs, start);
    for i := 0 to |mask|
      invariant s == Scan(segs, start) && Scanned(mask, min, s, i)
    {
      OneFrameMore(mask, min, s, i);
      s := NextScan(mask, min, s, i);
      if mask[i] && start == -1 {
        start := i;
      } else if !mask[i] && start != -1 {
        if i - start >= min {
          segs := segs + [Segment(start, i - 1)];
        }
        start := -1;
      }
    }
    if start != -1 {
      RunStops(mask, min, segs, start, |mask|);
      if |mask| - start >= min {
        segs := segs + [Segment(start, |mask| - 1)];
      }
    }
  }

  /** A lit run that ends by hi + 1 ends by lo, or is [lo, hi). */
  lemma RunBefore(mask: seq<bool>, lo: nat, hi: nat, a: nat, b: nat)
    requires IsRun(mask, true, lo, hi) && IsRun(mask, true, a, b) && b <= hi + 1
    ensures b <= lo || (a == lo && b == hi)
  {
    if b > lo {
      assert mask[b - 1];
      assert b <= hi;
      RunsAgree(mask, true, lo, hi, a, b, b - 1);
    }
  }

  ghost function WithRun(segs: seq<Segment>, min: int, lo: nat, hi: nat): seq<Segment>
    requires lo < hi
  {
    if hi - lo >= min then segs + [Segment(lo, hi - 1)] else segs
  }

  lemma NextIsComplete(mask: seq<bool>, min: int, segs: seq<Segment>, lo: nat, hi: nat)
    requires Complete(mask, min, segs, lo) && IsRun(mask, true, lo, hi)
    ensures Complete(mask, min, WithRun(segs, min, lo, hi), hi + 1)
  {
    var more := WithRun(segs, min, lo, hi);
    forall a: nat, b: nat | LongRun(mask, min, a, b) && b <= hi + 1 ensures Segment(a, b - 1) in more {
      RunBefore(mask, lo, hi, a, b);
      assert b <= lo ==> Segment(a, b - 1) in segs;
      assert b > lo ==> more[|more| - 1] == Segment(a, b - 1);
    }
  }

  lemma NextIsSound(mask: seq<bool>, min: int, segs: seq<Segment>, lo: nat, hi: nat)
    requires Sound(mask, min, segs, lo) && Ordered(segs) && IsRun(mask, true, lo, hi)
    ensures Sound(mask, min, WithRun(segs, min, lo, hi), hi) && Ordered(WithRun(segs, min, lo, hi))
  {
    var more := WithRun(segs, min, lo, hi);
    assert forall k | 0 <= k < |segs| :: more[k] == segs[k] && segs[k].end < lo;
  }

  /** The next lit run is [lo, hi). */
  lemma OneRunMore(mask: seq<bool>, min: int, segs: seq<Segment>, lo: nat, hi: nat)
    requires AreRuns(mask, min, segs, lo) && IsRun(mask, true, lo, hi)
    ensures AreRuns(mask, min, WithRun(segs, min, lo, hi), hi) && AreRuns(mask, min, WithRun(segs, min, lo, hi), hi + 1)
  {
    NextIsComplete(mask, min, segs, lo, hi);
    NextIsSound(mask, min, segs, lo, hi);
  }

  lemma RunEnd(mask: seq<bool>, v: bool, lo: nat) returns (hi: nat)
    requires lo < |mask| && mask[lo] == v && (lo > 0 ==> mask[lo - 1] != v)
    ensures IsRun(mask, v, lo, hi)
  {
    hi := lo + 1;
    while hi < |mask| && mask[hi] == v
      invariant lo < hi <= |mask| && forall i | lo <= i < hi :: mask[i] == v
    {
      hi := hi + 1;
    }
  }

  /** Pulses of a merged mask are more than gap frames apart. */
  lemma PulsesApart(mask: seq<bool>, gap: int, merged: seq<bool>, min: int, segs: seq<Segment>, j: nat, k: nat)
    requires IsMerge(mask, gap, merged) && AreRuns(merged, min, segs, |merged|) && j < k < |segs|
    ensures segs[k].start - segs[j].end - 1 > gap
  {
    var b := segs[j].end + 1;
    assert LongRun(merged, min, segs[j].start, b) && LongRun(merged, min, segs[k].start, segs[k].end + 1);
    assert segs[j].end < segs[k].start && merged[segs[k].start] && merged[b - 1];
    var hi := RunEnd(merged, false, b);
    NoShortGap(mask, gap, merged, b, hi);
    assert hi <= segs[k].start;
  }

  ghost predicate Covered(segs: seq<Segment>, i: nat) {
    exists k | 0 <= k < |segs| :: segs[k].start <= i <= segs[k].end
  }

  lemma RunAround(mask: seq<bool>, v: bool, i: nat) returns (lo: nat, hi: nat)
    requires i < |mask| && mask[i] == v
    ensures lo <= i < hi && IsRun(mask, v, lo, hi)
  {
    lo := i;
    while lo > 0 && mask[lo - 1] == v
      invariant lo <= i && forall k | lo <= k <= i :: mask[k] == v
    {
      lo := lo - 1;
    }
    hi := RunEnd(mask, v, lo);
  }

  /** With min_frames <= 1 the segments rebuild the mask. */
  lemma SegmentsRebuild(mask: seq<bool>, min: int, segs: seq<Segment>, i: nat)
    requires AreRuns(mask, min, segs, |mask|) && min <= 1 && i < |mask|
    ensures mask[i] <==> Covered(segs, i)
  {
    if mask[i] {
      var lo, hi := RunAround(mask, true, i);
      assert LongRun(mask, min, lo, hi);
      var k :| 0 <= k < |segs| && segs[k] == Segment(lo, hi - 1);
      assert segs[k].start <= i <= segs[k].end;
    }
    if Covered(segs, i) {
      var k :| 0 <= k < |segs| && segs[k].start <= i <= segs[k].end;
      assert LongRun(mask, min, segs[k].start, segs[k].end + 1);
    }
  }
}
