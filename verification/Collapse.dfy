/**
 The log flood collapser of scripts/collapse-uart-log-floods.py: the greedy scan, trim-back and
 rewrite loop of collapse, and what a reader of the collapsed log may rely on.
 */
module Collapse {

  type Line = string

  const MAX_DISTINCT := 4

  /** What is written: a line of the log, or a marker for n more lines drawn from k distinct ones. */
  datatype Item = Kept(line: Line) | Marker(n: nat, k: nat)

  // ----- Reference: distinct lines and stretches

  ghost predicate Occurs(s: seq<Line>, i: nat, j: nat, x: Line)
    requires i <= j <= |s|
  {
    exists k | i <= k < j :: s[k] == x
  }

  /** The distinct lines of s[i..j] in order of first appearance. */
  ghost function Seen(s: seq<Line>, i: nat, j: nat): (d: seq<Line>)
    requires i <= j <= |s|
    ensures |d| <= j - i
    decreases j
  {
    if i == j then [] else
    var d := Seen(s, i, j - 1);
    if Occurs(s, i, j - 1, s[j - 1]) then d else d + [s[j - 1]]
  }

  lemma OccursNext(s: seq<Line>, i: nat, j: nat, x: Line)
    requires i < j <= |s|
    ensures Occurs(s, i, j, x) <==> Occurs(s, i, j - 1, x) || x == s[j - 1]
  {
  }

  lemma DistinctNext(d: seq<Line>, x: Line)
    requires Distinct(d) && x !in d
    ensures Distinct(d + [x]) && forall y :: y in d + [x] <==> y in d || y == x
  {
  }

  lemma {:induction false} SeenExactly(s: seq<Line>, i: nat, j: nat)
    requires i <= j <= |s|
    ensures Distinct(Seen(s, i, j)) && (i < j ==> Seen(s, i, j) != [] && Seen(s, i, j)[0] == s[i])
    ensures forall x :: x in Seen(s, i, j) <==> Occurs(s, i, j, x)
    decreases j
  {
    if i < j {
      SeenExactly(s, i, j - 1);
      var d, y := Seen(s, i, j - 1), s[j - 1];
      forall x ensures Occurs(s, i, j, x) <==> Occurs(s, i, j - 1, x) || x == y {
        OccursNext(s, i, j, x);
      }
      if !Occurs(s, i, j - 1, y) {
        DistinctNext(d, y);
      }
    }
  }

  ghost predicate Distinct(s: seq<Line>) {
    forall i, j | 0 <= i < j < |s| :: s[i] != s[j]
  }

  /** The stretch [i, j) is drawn from at most four distinct lines and ends on a line that repeats in it. */
  ghost predicate Drawn(lines: seq<Line>, i: nat, j: nat) {
    && i <= j <= |lines| && |Seen(lines, i, j)| <= 4
    && (j > i ==> Occurs(lines, i, j - 1, lines[j - 1]))
  }

  /** No such stretch from i goes beyond j. */
  ghost predicate NoneBeyond(lines: seq<Line>, i: nat, j: nat) {
    forall k | j < k <= |lines| :: !Drawn(lines, i, k)
  }

  /** [i, j) is the longest such stretch from i. */
  ghost predicate Stretch(lines: seq<Line>, i: nat, j: nat) {
    Drawn(lines, i, j) && NoneBeyond(lines, i, j)
  }

  lemma {:induction false} SeenGrows(s: seq<Line>, i: nat, j: nat, k: nat)
    requires i <= j <= k <= |s|
    ensures Seen(s, i, j) <= Seen(s, i, k)
    decreases k
  {
    if j < k {
      SeenGrows(s, i, j, k - 1);
    }
  }

  // ----- The scan

  /** Where the scan stops, a fifth distinct line begins: no stretch from i goes further. */
  lemma ScanStops(lines: seq<Line>, i: nat, j: nat)
    requires i <= j < |lines| && |Seen(lines, i, j)| >= MAX_DISTINCT && lines[j] !in Seen(lines, i, j)
    ensures NoneBeyond(lines, i, j)
  {
    SeenExactly(lines, i, j);
    forall k | j < k <= |lines| ensures !Drawn(lines, i, k) {
      SeenGrows(lines, i, j + 1, k);
    }
  }

  /** The scan: on to the fifth distinct line. */
  method ScanOn(lines: seq<Line>, i: nat) returns (j: nat, seen: seq<Line>)
    requires i < |lines|
    ensures i <= j <= |lines| && seen == Seen(lines, i, j) && |seen| <= MAX_DISTINCT
    ensures NoneBeyond(lines, i, j)
  {
    seen, j := [], i;
    while j < |lines| && (lines[j] in seen || |seen| < MAX_DISTINCT)
      invariant i <= j <= |lines| && seen == Seen(lines, i, j) && |seen| <= MAX_DISTINCT
    {
      SeenExactly(lines, i, j);
      if lines[j] !in seen {
        seen := seen + [lines[j]];
      }
      j := j + 1;
    }
    if j < |lines| {
      ScanStops(lines, i, j);
    }
  }

  lemma OccursInSlice(s: seq<Line>, i: nat, j: nat, x: Line)
    requires i <= j <= |s|
    ensures x in s[i..j] <==> Occurs(s, i, j, x)
  {
    if Occurs(s, i, j, x) {
      var k :| i <= k < j && s[k] == x;
      assert s[i..j][k - i] == x;
    }
  }

  /** The last line is new exactly when the test of the trim says so. */
  lemma TrimStep(lines: seq<Line>, i: nat, j: nat)
    requires i < j <= |lines|
    ensures var seen, x := Seen(lines, i, j), lines[j - 1];
            && seen != []
            && (seen[|seen| - 1] == x && x !in lines[i..j - 1] <==> !Occurs(lines, i, j - 1, x))
            && (!Occurs(lines, i, j - 1, x) ==> seen[..|seen| - 1] == Seen(lines, i, j - 1))
  {
    OccursInSlice(lines, i, j - 1, lines[j - 1]);
    SeenExactly(lines, i, j);
  }

  /** Nothing beyond j can be collapsed; seen are the distinct lines up to there. */
  ghost predicate Trimming(lines: seq<Line>, i: nat, j: nat, seen: seq<Line>) {
    i <= j <= |lines| && seen == Seen(lines, i, j) && |seen| <= MAX_DISTINCT && NoneBeyond(lines, i, j)
  }

  lemma TrimNext(lines: seq<Line>, i: nat, j: nat, seen: seq<Line>)
    requires Trimming(lines, i, j, seen) && j > i && seen != []
    requires lines[j - 1] == seen[|seen| - 1] && lines[j - 1] !in lines[i..j - 1]
    ensures Trimming(lines, i, j - 1, seen[..|seen| - 1])
  {
    TrimStep(lines, i, j);
    assert !Drawn(lines, i, j);
  }

  lemma TrimEnds(lines: seq<Line>, i: nat, j: nat, seen: seq<Line>)
    requires Trimming(lines, i, j, seen)
    requires !(j > i && seen != [] && lines[j - 1] == seen[|seen| - 1] && lines[j - 1] !in lines[i..j - 1])
    ensures Stretch(lines, i, j)
  {
    if j > i {
      TrimStep(lines, i, j);
    }
  }

  /** The trim: back to a line that repeats. */
  method TrimBack(lines: seq<Line>, i: nat, j0: nat, seen0: seq<Line>) returns (j: nat, seen: seq<Line>)
    requires Trimming(lines, i, j0, seen0)
    ensures Stretch(lines, i, j) && seen == Seen(lines, i, j)
  {
    j, seen := j0, seen0;
    while j > i && seen != [] && lines[j - 1] == seen[|seen| - 1] && lines[j - 1] !in lines[i..j - 1]
      invariant Trimming(lines, i, j, seen)
    {
      TrimNext(lines, i, j, seen);
      seen := seen[..|seen| - 1];
      j := j - 1;
    }
    TrimEnds(lines, i, j, seen);
  }

  // ----- The rewrite

  /** How the log was divided: single lines copied, floods collapsed. */
  datatype Block = Keep(at: nat) | Flood(lo: nat, hi: nat) {
    function Start(): nat {
      if Keep? then at else lo
    }

    function End(): nat {
      if Keep? then at + 1 else hi
    }
  }

  ghost predicate ShortStretch(lines: seq<Line>, minRun: int, i: nat) {
    exists j: nat :: Stretch(lines, i, j) && j - i <= minRun
  }

  /** A flood is a longest stretch of more than minRun lines; a line is kept where there is none. */
  ghost predicate Justified(lines: seq<Line>, minRun: int, b: Block) {
    match b
    case Keep(at) => at < |lines| && ShortStretch(lines, minRun, at)
    case Flood(lo, hi) => Stretch(lines, lo, hi) && lo < hi && hi - lo > minRun
  }

  /** Where the first k blocks end. */
  ghost function Upto(blocks: seq<Block>, k: nat): nat
    requires k <= |blocks|
  {
    if k == 0 then 0 else blocks[k - 1].End()
  }

  ghost predicate Placed(lines: seq<Line>, minRun: int, blocks: seq<Block>, k: nat)
    requires k < |blocks|
  {
    blocks[k].Start() == Upto(blocks, k) && Justified(lines, minRun, blocks[k])
  }

  /** The blocks follow one another from the start of the log, each of them justified. */
  ghost predicate Divides(lines: seq<Line>, minRun: int, blocks: seq<Block>) {
    forall k | 0 <= k < |blocks| :: Placed(lines, minRun, blocks, k)
  }

  function KeptAll(s: seq<Line>): (r: seq<Item>)
    ensures |r| == |s| && forall i | 0 <= i < |s| :: r[i] == Kept(s[i])
  {
    seq(|s|, i requires 0 <= i < |s| => Kept(s[i]))
  }

  /** A block that lies in the log. */
  predicate Fits(lines: seq<Line>, b: Block) {
    b.Start() <= b.End() <= |lines|
  }

  ghost function Distincts(lines: seq<Line>, b: Block): seq<Line> {
    if Fits(lines, b) then Seen(lines, b.Start(), b.End()) else []
  }

  /** Lines of a block that are not written. */
  ghost function Extra(lines: seq<Line>, b: Block): nat {
    if b.Flood? && Fits(lines, b) then b.hi - b.lo - |Distincts(lines, b)| else 0
  }

  /** What is written for a block. */
  ghost function Written(lines: seq<Line>, b: Block): seq<Item> {
    if b.Keep? then (if b.at < |lines| then [Kept(lines[b.at])] else [])
    else KeptAll(Distincts(lines, b)) + [Marker(Extra(lines, b), |Distincts(lines, b)|)]
  }

  ghost function Pieces(lines: seq<Line>, blocks: seq<Block>): seq<seq<Item>> {
    seq(|blocks|, k requires 0 <= k < |blocks| => Written(lines, blocks[k]))
  }

  /** The first k pieces, one after the other. */
  ghost function Flat(pieces: seq<seq<Item>>, k: nat): seq<Item>
    requires k <= |pieces|
  {
    if k == 0 then [] else Flat(pieces, k - 1) + pieces[k - 1]
  }

  ghost function Output(lines: seq<Line>, blocks: seq<Block>): seq<Item> {
    Flat(Pieces(lines, blocks), |blocks|)
  }

  ghost function Runs(blocks: seq<Block>, k: nat): nat
    requires k <= |blocks|
  {
    if k == 0 then 0 else Runs(blocks, k - 1) + if blocks[k - 1].Flood? then 1 else 0
  }

  ghost function Dropped(lines: seq<Line>, blocks: seq<Block>, k: nat): nat
    requires k <= |blocks|
  {
    if k == 0 then 0 else Dropped(lines, blocks, k - 1) + Extra(lines, blocks[k - 1])
  }

  /** What has been written and counted for the blocks so far. */
  ghost predicate Tallied(lines: seq<Line>, blocks: seq<Block>, out: seq<Item>, runs: nat, dropped: nat) {
    out == Output(lines, blocks) && runs == Runs(blocks, |blocks|) && dropped == Dropped(lines, blocks, |blocks|)
  }

  /** The output and both counts are those of blocks that divide the whole log. */
  ghost predicate Collapses(lines: seq<Line>, minRun: int, blocks: seq<Block>, out: seq<Item>, runs: nat, dropped: nat) {
    Divides(lines, minRun, blocks) && Upto(blocks, |blocks|) == |lines| && Tallied(lines, blocks, out, runs, dropped)
  }

  /** A flood drops at least one line. */
  lemma FloodDrops(lines: seq<Line>, lo: nat, hi: nat)
    requires lo < hi && Drawn(lines, lo, hi)
    ensures 1 <= |Seen(lines, lo, hi)| < hi - lo
  {
    SeenExactly(lines, lo, hi);
  }

  lemma {:induction false} FlatPrefix(a: seq<seq<Item>>, b: seq<seq<Item>>, k: nat)
    requires k <= |a| && a <= b
    ensures Flat(a, k) == Flat(b, k)
  {
    if k > 0 {
      FlatPrefix(a, b, k - 1);
    }
  }

  lemma {:induction false} CountsPrefix(lines: seq<Line>, blocks: seq<Block>, b: Block, k: nat)
    requires k <= |blocks|
    ensures Runs(blocks + [b], k) == Runs(blocks, k) && Dropped(lines, blocks + [b], k) == Dropped(lines, blocks, k)
  {
    if k > 0 {
      CountsPrefix(lines, blocks, b, k - 1);
    }
  }

  lemma OutputSnoc(lines: seq<Line>, blocks: seq<Block>, b: Block)
    ensures Output(lines, blocks + [b]) == Output(lines, blocks) + Written(lines, b)
  {
    var p, q := Pieces(lines, blocks), Pieces(lines, blocks + [b]);
    assert p <= q;
    FlatPrefix(p, q, |blocks|);
  }

  lemma DividesSnoc(lines: seq<Line>, minRun: int, blocks: seq<Block>, b: Block)
    requires Divides(lines, minRun, blocks) && b.Start() == Upto(blocks, |blocks|) && Justified(lines, minRun, b)
    ensures Divides(lines, minRun, blocks + [b])
  {
    var more := blocks + [b];
    forall k | 0 <= k < |more| ensures Placed(lines, minRun, more, k) {
      if k < |blocks| {
        assert Placed(lines, minRun, blocks, k);
      }
    }
  }

  lemma TalliedSnoc(lines: seq<Line>, blocks: seq<Block>, b: Block, out: seq<Item>, runs: nat, dropped: nat)
    requires Tallied(lines, blocks, out, runs, dropped)
    ensures Tallied(lines, blocks + [b], out + Written(lines, b), runs + (if b.Flood? then 1 else 0), dropped + Extra(lines, b))
  {
    OutputSnoc(lines, blocks, b);
    CountsPrefix(lines, blocks, b, |blocks|);
  }

  /**
   The rounds from position i reach the end of the log although min_run is negative: every stretch on the way has a
   line to move on by.
   */
  ghost predicate Ends(lines: seq<Line>, i: nat)
    decreases |lines| - i
  {
    i >= |lines| || exists j: nat :: i < j && Stretch(lines, i, j) && Ends(lines, j)
  }

  /** One round of collapse: the stretch from i, and where the next round starts. */
  method Round(lines: seq<Line>, minRun: int, i: nat) returns (j: nat, seen: seq<Line>, next: nat)
    requires i < |lines|
    ensures Stretch(lines, i, j) && seen == Seen(lines, i, j)
    ensures next == if j - i > minRun then j else i + 1
  {
    j, seen := ScanOn(lines, i);
    j, seen := TrimBack(lines, i, j, seen);
    next := if j - i > minRun then j else i + 1;
  }

  lemma OneStretch(lines: seq<Line>, i: nat, j: nat, k: nat)
    requires Stretch(lines, i, j) && Stretch(lines, i, k)
    ensures j == k
  {
  }

  /** A round moves on, to a position from where the rest is reached. */
  lemma RoundMovesOn(lines: seq<Line>, minRun: int, i: nat, j: nat)
    requires i < |lines| && Stretch(lines, i, j) && (minRun >= 0 || Ends(lines, i))
    ensures j - i > minRun ==> i < j && (minRun >= 0 || Ends(lines, j))
    ensures j - i <= minRun ==> minRun >= 0
  {
    if minRun < 0 {
      var k: nat :| i < k && Stretch(lines, i, k) && Ends(lines, k);
      OneStretch(lines, i, j, k);
    }
  }

  /**
   With a negative min_run, from a position from where the rest is not reached no round ever gets to the end: it leads
   to another such position, and to the same one if the stretch there is empty.
   */
  lemma NeverEnds(lines: seq<Line>, minRun: int, i: nat, j: nat, next: nat)
    requires minRun < 0 && i < |lines| && !Ends(lines, i) && Stretch(lines, i, j)
    requires next == if j - i > minRun then j else i + 1
    ensures next < |lines| && !Ends(lines, next) && (j == i ==> next == i)
  {
  }

  /** Two different lines and nothing else: the first stretch is empty. */
  lemma StuckAtOnce(a: Line, b: Line)
    requires a != b
    ensures Stretch([a, b], 0, 0) && !Ends([a, b], 0)
  {
    var lines := [a, b];
    assert !Drawn(lines, 0, 1) && !Drawn(lines, 0, 2);
    assert Stretch(lines, 0, 0);
  }

  ghost function BlockOf(minRun: int, i: nat, j: nat): Block {
    if j - i > minRun then Flood(i, j) else Keep(i)
  }

  lemma RoundIsJustified(lines: seq<Line>, minRun: int, i: nat, j: nat)
    requires i < |lines| && Stretch(lines, i, j) && (j - i > minRun ==> i < j)
    ensures Justified(lines, minRun, BlockOf(minRun, i, j))
  {
    assert j - i <= minRun ==> ShortStretch(lines, minRun, i);
  }

  lemma FloodWritten(lines: seq<Line>, i: nat, j: nat, seen: seq<Line>)
    requires i <= j <= |lines| && seen == Seen(lines, i, j)
    ensures |seen| <= j - i == Extra(lines, Flood(i, j)) + |seen|
    ensures Written(lines, Flood(i, j)) == KeptAll(seen) + [Marker(j - i - |seen|, |seen|)]
  {
  }

  /** What a flood's round writes and counts is what its block calls for. */
  lemma FloodTallied(lines: seq<Line>, i: nat, j: nat, seen: seq<Line>, blocks: seq<Block>, out: seq<Item>, runs: nat,
                     dropped: nat)
    requires Tallied(lines, blocks, out, runs, dropped) && i <= j <= |lines| && seen == Seen(lines, i, j)
    ensures |seen| <= j - i
    ensures Tallied(lines, blocks + [Flood(i, j)], out + (KeptAll(seen) + [Marker(j - i - |seen|, |seen|)]), runs + 1,
                    dropped + (j - i - |seen|))
  {
    FloodWritten(lines, i, j, seen);
    TalliedSnoc(lines, blocks, Flood(i, j), out, runs, dropped);
  }

  lemma CopyTallied(lines: seq<Line>, i: nat, blocks: seq<Block>, out: seq<Item>, runs: nat, dropped: nat)
    requires Tallied(lines, blocks, out, runs, dropped) && i < |lines|
    ensures Tallied(lines, blocks + [Keep(i)], out + [Kept(lines[i])], runs, dropped)
  {
    TalliedSnoc(lines, blocks, Keep(i), out, runs, dropped);
  }

  /** What has been written and counted, and the blocks behind it. */
  datatype Progress = Progress(out: seq<Item>, runs: nat, dropped: nat, blocks: seq<Block>)

  /** The blocks divide the log up to i, and the rounds from there end. */
  ghost predicate Standing(lines: seq<Line>, minRun: int, blocks: seq<Block>, i: nat) {
    && Divides(lines, minRun, blocks) && i == Upto(blocks, |blocks|) <= |lines| && (minRun >= 0 || Ends(lines, i))
  }

  /** The rounds have come to position i. */
  ghost predicate Reached(lines: seq<Line>, minRun: int, p: Progress, i: nat) {
    match p
    case Progress(out, runs, dropped, blocks) =>
      Standing(lines, minRun, blocks, i) && Tallied(lines, blocks, out, runs, dropped)
  }

  lemma FloodStands(lines: seq<Line>, minRun: int, blocks: seq<Block>, i: nat, j: nat)
    requires Standing(lines, minRun, blocks, i) && i < j && Stretch(lines, i, j) && j - i > minRun
    requires minRun >= 0 || Ends(lines, j)
    ensures Standing(lines, minRun, blocks + [Flood(i, j)], j)
  {
    DividesSnoc(lines, minRun, blocks, Flood(i, j));
  }

  ghost function Flooded(p: Progress, i: nat, j: nat, seen: seq<Line>): Progress
    requires |seen| <= j - i
  {
    Progress(p.out + (KeptAll(seen) + [Marker(j - i - |seen|, |seen|)]), p.runs + 1, p.dropped + (j - i - |seen|),
             p.blocks + [Flood(i, j)])
  }

  ghost function Copied(p: Progress, i: nat, line: Line): Progress {
    Progress(p.out + [Kept(line)], p.runs, p.dropped, p.blocks + [Keep(i)])
  }

  lemma FloodReached(lines: seq<Line>, minRun: int, p: Progress, i: nat, j: nat, seen: seq<Line>)
    requires Reached(lines, minRun, p, i) && i <= j <= |lines| && seen == Seen(lines, i, j)
    requires Standing(lines, minRun, p.blocks + [Flood(i, j)], j)
    ensures |seen| <= j - i && Reached(lines, minRun, Flooded(p, i, j, seen), j)
  {
    FloodTallied(lines, i, j, seen, p.blocks, p.out, p.runs, p.dropped);
  }

  lemma CopyReached(lines: seq<Line>, minRun: int, p: Progress, i: nat, j: nat)
    requires Reached(lines, minRun, p, i) && i < |lines| && Stretch(lines, i, j) && j - i <= minRun
    ensures Reached(lines, minRun, Copied(p, i, lines[i]), i + 1)
  {
    RoundIsJustified(lines, minRun, i, j);
    DividesSnoc(lines, minRun, p.blocks, Keep(i));
    CopyTallied(lines, i, p.blocks, p.out, p.runs, p.dropped);
  }

  ghost function Moved(p: Progress, minRun: int, i: nat, j: nat, seen: seq<Line>, line: Line): Progress
    requires |seen| <= j - i
  {
    if j - i > minRun then Flooded(p, i, j, seen) else Copied(p, i, line)
  }

  lemma RoundReached(lines: seq<Line>, minRun: int, p: Progress, i: nat, j: nat, seen: seq<Line>, next: nat)
    requires Reached(lines, minRun, p, i) && i < |lines| && Stretch(lines, i, j) && seen == Seen(lines, i, j)
    requires next == if j - i > minRun then j else i + 1
    ensures |seen| <= j - i && i < next <= |lines|
    ensures Reached(lines, minRun, Moved(p, minRun, i, j, seen, lines[i]), next)
  {
    RoundMovesOn(lines, minRun, i, j);
    if j - i > minRun {
      FloodStands(lines, minRun, p.blocks, i, j);
      FloodReached(lines, minRun, p, i, j, seen);
    } else {
      CopyReached(lines, minRun, p, i, j);
    }
  }

  /** What a round writes and counts. */
  method WriteOut(minRun: int, i: nat, j: nat, seen: seq<Line>, line: Line, ghost p: Progress,
                  out0: seq<Item>, runs0: nat, dropped0: nat)
    returns (out: seq<Item>, runs: nat, dropped: nat)
    requires |seen| <= j - i && p.out == out0 && p.runs == runs0 && p.dropped == dropped0
    ensures var p' := Moved(p, minRun, i, j, seen, line); p'.out == out && p'.runs == runs && p'.dropped == dropped
  {
    if j - i > minRun {
      var extra := (j - i) - |seen|;
      out, runs, dropped := out0 + (KeptAll(seen) + [Marker(extra, |seen|)]), runs0 + 1, dropped0 + extra;
    } else {
      out, runs, dropped := out0 + [Kept(line)], runs0, dropped0;
    }
  }

  /** One round with what it writes and counts. */
  method WriteRound(lines: seq<Line>, minRun: int, i: nat, out0: seq<Item>, runs0: nat, dropped0: nat, ghost p: Progress)
    returns (next: nat, out: seq<Item>, runs: nat, dropped: nat, ghost p': Progress)
    requires i < |lines| && Reached(lines, minRun, p, i)
    requires p.out == out0 && p.runs == runs0 && p.dropped == dropped0
    ensures i < next <= |lines| && Reached(lines, minRun, p', next)
    ensures p'.out == out && p'.runs == runs && p'.dropped == dropped
  {
    var j, seen;
    j, seen, next := Round(lines, minRun, i);
    RoundReached(lines, minRun, p, i, j, seen, next);
    p' := Moved(p, minRun, i, j, seen, lines[i]);
    out, runs, dropped := WriteOut(minRun, i, j, seen, lines[i], p, out0, runs0, dropped0);
  }

  /** collapse. It ends exactly if min_run is not negative or the rounds reach the end of the log all the same. */
  method CollapseLog(lines: seq<Line>, minRun: int) returns (out: seq<Item>, runs: nat, dropped: nat)
    requires minRun >= 0 || Ends(lines, 0)
    ensures exists blocks :: Collapses(lines, minRun, blocks, out, runs, dropped)
  {
    out, runs, dropped := [], 0, 0;
    var i: nat := 0;
    ghost var p := Progress(out, runs, dropped, []);
    while i < |lines|
      invariant Reached(lines, minRun, p, i) && i <= |lines|
      invariant p.out == out && p.runs == runs && p.dropped == dropped
    {
      i, out, runs, dropped, p := WriteRound(lines, minRun, i, out, runs, dropped, p);
    }
    assert Collapses(lines, minRun, p.blocks, out, runs, dropped);
  }

  // ----- Where floods begin and end

  /** A collapsed stretch never ends inside a run of equal lines. */
  lemma StretchEndsRun(lines: seq<Line>, i: nat, j: nat)
    requires Stretch(lines, i, j) && i < j < |lines|
    ensures lines[j] != lines[j - 1]
  {
    assert !Drawn(lines, i, j + 1);
    assert Occurs(lines, i, j, lines[j - 1]);
  }

  /** A run of equal lines is one stretch, so the longest stretch from its start covers it. */
  lemma {:induction false} RunIsDrawn(lines: seq<Line>, i: nat, m: nat)
    requires i + m <= |lines| && m >= 1 && forall k | i <= k < i + m :: lines[k] == lines[i]
    ensures Seen(lines, i, i + m) == [lines[i]]
    ensures m >= 2 ==> Drawn(lines, i, i + m)
  {
    if m > 1 {
      RunIsDrawn(lines, i, m - 1);
      assert Occurs(lines, i, i + m - 1, lines[i]);
    }
  }

  lemma CopyOccurs(lines: seq<Line>, i: nat, j: nat, x: Line)
    requires 0 < i < j <= |lines| && lines[i - 1] == lines[i]
    ensures Occurs(lines, i - 1, j, x) <==> Occurs(lines, i, j, x)
  {
    if Occurs(lines, i - 1, j, x) {
      var k :| i - 1 <= k < j && lines[k] == x;
      assert lines[if k < i then i else k] == x;
    }
  }

  /** One more copy of the first line in front changes nothing about a stretch. */
  lemma {:induction false} CopyInFront(lines: seq<Line>, i: nat, j: nat)
    requires 0 < i < j <= |lines| && lines[i - 1] == lines[i]
    ensures Seen(lines, i - 1, j) == Seen(lines, i, j)
    ensures Occurs(lines, i - 1, j - 1, lines[j - 1]) || j == i + 1 <==> Occurs(lines, i, j - 1, lines[j - 1]) || j == i + 1
    decreases j
  {
    if j == i + 1 {
      RunIsDrawn(lines, i - 1, 2);
      RunIsDrawn(lines, i, 1);
    } else {
      CopyInFront(lines, i, j - 1);
      CopyOccurs(lines, i, j - 1, lines[j - 1]);
    }
  }

  /** So a flood never begins inside a run whose earlier lines were kept. */
  lemma FloodStartsRun(lines: seq<Line>, minRun: int, i: nat, j: nat)
    requires 0 < i && Stretch(lines, i, j) && j - i > minRun && ShortStretch(lines, minRun, i - 1)
    ensures lines[i - 1] != lines[i]
  {
    var j': nat :| Stretch(lines, i - 1, j') && j' - (i - 1) <= minRun;
    assert !Drawn(lines, i - 1, j);
    if lines[i - 1] == lines[i] {
      CopyInFront(lines, i, j);
    }
  }

  // ----- Nothing distinct is lost

  /** The lines in the output, without the markers. */
  ghost function Strip(out: seq<Item>): seq<Line> {
    if out == [] then [] else
    Strip(out[..|out| - 1]) + if out[|out| - 1].Kept? then [out[|out| - 1].line] else []
  }

  lemma {:induction false} StripAppend(a: seq<Item>, b: seq<Item>)
    ensures Strip(a + b) == Strip(a) + Strip(b)
  {
    if b == [] {
      assert a + b == a;
    } else {
      assert (a + b)[..|a + b| - 1] == a + b[..|b| - 1];
      StripAppend(a, b[..|b| - 1]);
    }
  }

  lemma {:induction false} StripKept(s: seq<Line>)
    ensures Strip(KeptAll(s)) == s
  {
    if s != [] {
      StripKept(s[..|s| - 1]);
      assert KeptAll(s)[..|s| - 1] == KeptAll(s[..|s| - 1]);
    }
  }

  /** For every block, the lines written are its distinct lines in order. */
  lemma StripWritten(lines: seq<Line>, b: Block)
    requires Fits(lines, b)
    ensures Strip(Written(lines, b)) == Seen(lines, b.Start(), b.End())
    ensures |Seen(lines, b.Start(), b.End())| + Extra(lines, b) == b.End() - b.Start()
  {
    if b.Keep? {
      RunIsDrawn(lines, b.at, 1);
      assert Strip([Kept(lines[b.at])]) == Strip([]) + [lines[b.at]];
    } else {
      var seen := Seen(lines, b.lo, b.hi);
      var marker := Marker(Extra(lines, b), |seen|);
      StripKept(seen);
      StripAppend(KeptAll(seen), [marker]);
      assert Strip([marker]) == Strip([]) + [];
    }
  }

  /** a is a subsequence of s[..n]. */
  ghost predicate IsSubsequence(a: seq<Line>, s: seq<Line>, n: nat)
    requires n <= |s|
  {
    || a == []
    || (n > 0 && a[|a| - 1] == s[n - 1] && IsSubsequence(a[..|a| - 1], s, n - 1))
    || (n > 0 && IsSubsequence(a, s, n - 1))
  }

  lemma SubsequenceStep(c: seq<Line>, s: seq<Line>, n: nat)
    requires n < |s| && IsSubsequence(c, s, n)
    ensures IsSubsequence(c, s, n + 1) && IsSubsequence(c + [s[n]], s, n + 1)
  {
    var d := c + [s[n]];
    assert d[..|d| - 1] == c;
  }

  lemma {:induction false} SeenIsSubsequence(a: seq<Line>, s: seq<Line>, i: nat, j: nat)
    requires i <= j <= |s| && IsSubsequence(a, s, i)
    ensures IsSubsequence(a + Seen(s, i, j), s, j)
    decreases j
  {
    if i == j {
      assert a + [] == a;
    } else {
      SeenIsSubsequence(a, s, i, j - 1);
      SubsequenceStep(a + Seen(s, i, j - 1), s, j - 1);
      assert a + (Seen(s, i, j - 1) + [s[j - 1]]) == a + Seen(s, i, j - 1) + [s[j - 1]];
    }
  }

  lemma OccursLocal(c: seq<Line>, x: Line, j: nat, y: Line)
    requires j <= |c|
    ensures Occurs(c + [x], 0, j, y) <==> Occurs(c, 0, j, y)
  {
    var d := c + [x];
    assert forall k | 0 <= k < j :: d[k] == c[k];
    if Occurs(d, 0, j, y) {
      var k :| 0 <= k < j && d[k] == y;
      assert c[k] == y;
    }
    if Occurs(c, 0, j, y) {
      var k :| 0 <= k < j && c[k] == y;
      assert d[k] == y;
    }
  }

  lemma {:induction false} SeenLocal(c: seq<Line>, x: Line, j: nat)
    requires j <= |c|
    ensures Seen(c + [x], 0, j) == Seen(c, 0, j)
  {
    if j > 0 {
      SeenLocal(c, x, j - 1);
      OccursLocal(c, x, j - 1, c[j - 1]);
    }
  }

  lemma SeenSnoc(c: seq<Line>, x: Line)
    ensures Seen(c + [x], 0, |c| + 1) == if x in c then Seen(c, 0, |c|) else Seen(c, 0, |c|) + [x]
  {
    SeenLocal(c, x, |c|);
    OccursLocal(c, x, |c|, x);
    OccursInSlice(c, 0, |c|, x);
    assert c[0..|c|] == c;
  }

  lemma SameAfterLine(c: seq<Line>, s: seq<Line>, n: nat)
    requires n < |s| && Seen(c, 0, |c|) == Seen(s, 0, n)
    ensures Seen(c + [s[n]], 0, |c| + 1) == Seen(s, 0, n + 1)
  {
    var x := s[n];
    SeenSnoc(c, x);
    SeenExactly(c, 0, |c|);
    SeenExactly(s, 0, n);
    OccursInSlice(c, 0, |c|, x);
    assert c[0..|c|] == c;
  }

  lemma SameAfterNew(a: seq<Line>, d: seq<Line>, s: seq<Line>, n: nat)
    requires n < |s| && Seen(a + d, 0, |a + d|) == Seen(s, 0, n)
    ensures var c := a + (d + [s[n]]); Seen(c, 0, |c|) == Seen(s, 0, n + 1)
  {
    assert a + (d + [s[n]]) == (a + d) + [s[n]];
    SameAfterLine(a + d, s, n);
  }

  lemma SeenAgain(s: seq<Line>, i: nat, j: nat)
    requires i < j <= |s| && Occurs(s, i, j - 1, s[j - 1])
    ensures Seen(s, i, j) == Seen(s, i, j - 1) && Seen(s, 0, j) == Seen(s, 0, j - 1)
  {
    assert Occurs(s, 0, j - 1, s[j - 1]);
  }

  /** Writing the distinct lines of a stretch instead of the stretch does not change what has been seen. */
  lemma {:induction false} SeenOfSeen(a: seq<Line>, s: seq<Line>, i: nat, j: nat)
    requires i <= j <= |s| && Seen(a, 0, |a|) == Seen(s, 0, i)
    ensures var c := a + Seen(s, i, j); Seen(c, 0, |c|) == Seen(s, 0, j)
    decreases j
  {
    if i == j {
      assert a + [] == a;
    } else {
      SeenOfSeen(a, s, i, j - 1);
      if Occurs(s, i, j - 1, s[j - 1]) {
        SeenAgain(s, i, j);
      } else {
        SameAfterNew(a, Seen(s, i, j - 1), s, j - 1);
      }
    }
  }

  // ----- No flood survives

  /** These lines stand together in the output, with no marker between them. */
  ghost predicate Spells(out: seq<Item>, at: nat, t: seq<Line>) {
    at + |t| <= |out| && forall q | 0 <= q < |t| :: out[at + q] == Kept(t[q])
  }

  /** m consecutive items of the output are the same line. */
  ghost predicate IsRun(out: seq<Item>, at: nat, m: nat, l: Line) {
    at + m <= |out| && forall q | at <= q < at + m :: out[q] == Kept(l)
  }

  /** A kept line, or the distinct lines of the flood and a marker. */
  ghost predicate Shaped(lines: seq<Line>, b: Block, piece: seq<Item>) {
    match b
    case Keep(at) => at < |lines| && piece == [Kept(lines[at])]
    case Flood(lo, hi) =>
      && lo < hi <= |lines| && |piece| == |Seen(lines, lo, hi)| + 1
      && piece[|piece| - 1].Marker? && Spells(piece, 0, Seen(lines, lo, hi))
  }

  ghost predicate ShapedAt(lines: seq<Line>, blocks: seq<Block>, pieces: seq<seq<Item>>, k: nat)
    requires k < |blocks| == |pieces|
  {
    Shaped(lines, blocks[k], pieces[k])
  }

  ghost predicate AllShaped(lines: seq<Line>, minRun: int, blocks: seq<Block>, pieces: seq<seq<Item>>) {
    Divides(lines, minRun, blocks) && |blocks| == |pieces| && forall k | 0 <= k < |blocks| ::
      ShapedAt(lines, blocks, pieces, k)
  }

  lemma PiecesAreShaped(lines: seq<Line>, minRun: int, blocks: seq<Block>)
    requires Divides(lines, minRun, blocks)
    ensures AllShaped(lines, minRun, blocks, Pieces(lines, blocks))
  {
    forall k | 0 <= k < |blocks| ensures ShapedAt(lines, blocks, Pieces(lines, blocks), k) {
      assert Placed(lines, minRun, blocks, k);
    }
  }

  lemma SpellsBefore(prev: seq<Item>, piece: seq<Item>, at: nat, t: seq<Line>, m: nat)
    requires Spells(prev + piece, at, t) && m <= |t| && at + m <= |prev|
    ensures Spells(prev, at, t[..m])
  {
    forall q | 0 <= q < m ensures prev[at + q] == Kept(t[..m][q]) {
      assert (prev + piece)[at + q] == Kept(t[q]);
    }
  }

  lemma SpellsBehind(prev: seq<Item>, piece: seq<Item>, at: nat, t: seq<Line>, m: nat)
    requires Spells(prev + piece, at, t) && m <= |t| && at + m >= |prev|
    ensures Spells(piece, at + m - |prev|, t[m..])
  {
    forall q | 0 <= q < |t| - m ensures piece[at + m - |prev| + q] == Kept(t[m..][q]) {
      assert (prev + piece)[at + (m + q)] == Kept(t[m + q]);
    }
  }

  /** What is spelled in the piece of a flood is a part of its distinct lines. */
  lemma SpellsSeen(piece: seq<Item>, seen: seq<Line>, at: nat, t: seq<Line>)
    requires |piece| == |seen| + 1 && piece[|seen|].Marker? && Spells(piece, 0, seen) && Spells(piece, at, t) && t != []
    ensures at + |t| <= |seen| && t == seen[at..at + |t|]
  {
    assert piece[at + (|t| - 1)] == Kept(t[|t| - 1]);
    forall q | 0 <= q < |t| ensures t[q] == seen[at + q] {
      assert piece[at + q] == Kept(t[q]) && piece[0 + (at + q)] == Kept(seen[at + q]);
    }
  }

  /** u stands in s from d on. */
  ghost predicate Window(s: seq<Line>, d: nat, u: seq<Line>) {
    d + |u| <= |s| && forall k | 0 <= k < |u| :: u[k] == s[d + k]
  }

  lemma WindowSnoc(s: seq<Line>, d: nat, t: seq<Line>, m: nat)
    requires |t| == m + 1 && Window(s, d, t[..m]) && d + m < |s| && t[m] == s[d + m]
    ensures Window(s, d, t)
  {
    forall k | 0 <= k < |t| ensures t[k] == s[d + k] {
      assert k < m ==> t[..m][k] == t[k];
    }
  }

  /** Output that ends on a line ends on a block that kept it. */
  lemma LastIsKept(lines: seq<Line>, minRun: int, blocks: seq<Block>, pieces: seq<seq<Item>>, k: nat)
    requires AllShaped(lines, minRun, blocks, pieces) && k <= |blocks|
    requires var out := Flat(pieces, k); out != [] && out[|out| - 1].Kept?
    ensures var out, n := Flat(pieces, k), Upto(blocks, k);
            && k > 0 && 0 < n <= |lines| && blocks[k - 1] == Keep(n - 1) && Upto(blocks, k - 1) == n - 1
            && pieces[k - 1] == [Kept(lines[n - 1])] && out == Flat(pieces, k - 1) + [Kept(lines[n - 1])]
  {
    assert Placed(lines, minRun, blocks, k - 1) && ShapedAt(lines, blocks, pieces, k - 1);
    var out, piece := Flat(pieces, k), pieces[k - 1];
    assert out[|out| - 1] == piece[|piece| - 1];
  }

  /** Lines at the end of the output that stand together there are kept lines that stand together in the log. */
  lemma {:induction false} TrailingLines(lines: seq<Line>, minRun: int, blocks: seq<Block>, pieces: seq<seq<Item>>,
                                         k: nat, t: seq<Line>)
    requires AllShaped(lines, minRun, blocks, pieces) && k <= |blocks| && t != []
    requires var out := Flat(pieces, k); |t| <= |out| && Spells(out, |out| - |t|, t)
    ensures |t| <= k && |t| <= Upto(blocks, k) <= |lines| && blocks[k - |t|] == Keep(Upto(blocks, k) - |t|)
    ensures Window(lines, Upto(blocks, k) - |t|, t)
    decreases |t|
  {
    var out, n, m := Flat(pieces, k), Upto(blocks, k), |t| - 1;
    assert out[|out| - |t| + m] == Kept(t[m]);
    LastIsKept(lines, minRun, blocks, pieces, k);
    if m > 0 {
      SpellsBefore(Flat(pieces, k - 1), pieces[k - 1], |out| - |t|, t, m);
      TrailingLines(lines, minRun, blocks, pieces, k - 1, t[..m]);
    }
    WindowSnoc(lines, n - |t|, t, m);
  }

  lemma OccursWindow(s: seq<Line>, d: nat, u: seq<Line>, x: nat, y: nat, l: Line)
    requires Window(s, d, u) && x <= y <= |u|
    ensures Occurs(u, x, y, l) <==> Occurs(s, d + x, d + y, l)
  {
    if Occurs(s, d + x, d + y, l) {
      var k :| d + x <= k < d + y && s[k] == l;
      assert u[k - d] == l;
    }
  }

  lemma {:induction false} SeenWindow(s: seq<Line>, d: nat, u: seq<Line>, x: nat, y: nat, lo: nat, hi: nat)
    requires Window(s, d, u) && x <= y <= |u| && lo == d + x && hi == d + y
    ensures Seen(u, x, y) == Seen(s, lo, hi)
    decreases y
  {
    if x < y {
      SeenWindow(s, d, u, x, y - 1, lo, hi - 1);
      OccursWindow(s, d, u, x, y - 1, u[y - 1]);
    }
  }

  /** Where the first q distinct lines of a stretch have been seen: behind the first appearance of the last of them. */
  lemma {:induction false} SeenUpto(s: seq<Line>, lo: nat, hi: nat, q: nat) returns (f: nat)
    requires lo <= hi <= |s| && q <= |Seen(s, lo, hi)|
    ensures lo <= f <= hi && Seen(s, lo, f) == Seen(s, lo, hi)[..q]
    ensures if q == 0 then f == lo else f > lo && s[f - 1] == Seen(s, lo, hi)[q - 1]
    decreases hi
  {
    if q == 0 {
      f := lo;
    } else if q <= |Seen(s, lo, hi - 1)| {
      f := SeenUpto(s, lo, hi - 1, q);
    } else {
      f := hi;
    }
  }

  /** The lines written for the stretch [i, f), its last part by distinct lines only, have its distinct lines. */
  lemma SeenThrough(s: seq<Line>, i: nat, lo: nat, f: nat, a: seq<Line>, u: seq<Line>, t: seq<Line>)
    requires i <= lo <= f <= |s| && Window(s, i, a) && |a| == lo - i && Window(s, i, u) && |u| == f - i
    requires t == a + Seen(s, lo, f)
    ensures Seen(t, 0, |t|) == Seen(s, i, f)
  {
    var x, y := lo - i, f - i;
    SeenWindow(s, i, a, 0, x, i, lo);
    SeenWindow(s, i, u, 0, x, i, lo);
    SeenWindow(s, i, u, x, y, lo, f);
    SeenWindow(s, i, u, 0, y, i, f);
    SeenOfSeen(a, u, x, y);
  }

  /** If the last of those lines stands among the others, the last line of the stretch stands in it before. */
  lemma RepeatsThrough(s: seq<Line>, i: nat, lo: nat, f: nat, a: seq<Line>, d: seq<Line>)
    requires i <= lo <= f <= |s| && Window(s, i, a) && |a| == lo - i && Distinct(d) && a + d != []
    requires if d == [] then f == lo else f > lo && s[f - 1] == d[|d| - 1]
    requires Occurs(a + d, 0, |a + d| - 1, (a + d)[|a + d| - 1])
    ensures i < f && Occurs(s, i, f - 1, s[f - 1])
  {
    var t := a + d;
    var k :| 0 <= k < |t| - 1 && t[k] == t[|t| - 1];
    if k < |a| {
      assert s[i + k] == t[k] == s[f - 1];
    }
  }

  lemma DrawnIsShort(lines: seq<Line>, minRun: int, i: nat, f: nat)
    requires ShortStretch(lines, minRun, i) && Drawn(lines, i, f)
    ensures f - i <= minRun
  {
    var j: nat :| Stretch(lines, i, j) && j - i <= minRun;
    assert f <= j;
  }

  /** If the lines written for the stretch [i, f) would make a flood, so does the stretch. */
  lemma DrawnThrough(lines: seq<Line>, i: nat, lo: nat, f: nat, a: seq<Line>, d: seq<Line>)
    requires i <= lo <= f <= |lines| && Window(lines, i, a) && |a| == lo - i && d == Seen(lines, lo, f) && a + d != []
    requires if d == [] then f == lo else f > lo && lines[f - 1] == d[|d| - 1]
    requires Drawn(a + d, 0, |a + d|)
    ensures Drawn(lines, i, f)
  {
    SeenThrough(lines, i, lo, f, a, lines[i..f], a + d);
    SeenExactly(lines, lo, f);
    RepeatsThrough(lines, i, lo, f, a, d);
  }

  /** Kept lines from i on and the first lines of a flood behind them are no flood. */
  lemma NoneCrosses(lines: seq<Line>, minRun: int, i: nat, lo: nat, hi: nat, a: seq<Line>, d: seq<Line>)
    requires i <= lo <= hi <= |lines| && ShortStretch(lines, minRun, i) && d <= Seen(lines, lo, hi)
    requires Window(lines, i, a) && |a| == lo - i && a + d != []
    ensures Drawn(a + d, 0, |a + d|) ==> |a + d| <= minRun
  {
    if Drawn(a + d, 0, |a + d|) {
      var f := SeenUpto(lines, lo, hi, |d|);
      DrawnThrough(lines, i, lo, f, a, d);
      DrawnIsShort(lines, minRun, i, f);
    }
  }

  /** Distinct lines end on no line that repeats. */
  lemma DistinctIsNotDrawn(t: seq<Line>)
    requires Distinct(t) && t != []
    ensures !Drawn(t, 0, |t|)
  {
  }

  /** Lines inside the piece of a flood. */
  lemma NoFloodInside(prev: seq<Item>, piece: seq<Item>, seen: seq<Line>, at: nat, t: seq<Line>)
    requires |piece| == |seen| + 1 && piece[|seen|].Marker? && Spells(piece, 0, seen) && Distinct(seen)
    requires Spells(prev + piece, at, t) && t != [] && at >= |prev|
    ensures !Drawn(t, 0, |t|)
  {
    SpellsBehind(prev, piece, at, t, 0);
    assert t[0..] == t;
    SpellsSeen(piece, seen, at - |prev|, t);
    DistinctIsNotDrawn(t);
  }

  /** Lines that cross into the piece of a flood: kept ones, and the first distinct ones. */
  lemma Crossing(prev: seq<Item>, piece: seq<Item>, seen: seq<Line>, at: nat, t: seq<Line>, m: nat)
    requires |piece| == |seen| + 1 && piece[|seen|].Marker? && Spells(piece, 0, seen)
    requires Spells(prev + piece, at, t) && m == |prev| - at && 0 < m < |t|
    ensures Spells(prev, at, t[..m]) && |t| - m <= |seen| && t == t[..m] + seen[..|t| - m]
  {
    SpellsBefore(prev, piece, at, t, m);
    SpellsBehind(prev, piece, at, t, m);
    SpellsSeen(piece, seen, 0, t[m..]);
    assert t == t[..m] + t[m..];
  }

  lemma NoFloodBefore(lines: seq<Line>, minRun: int, blocks: seq<Block>, pieces: seq<seq<Item>>, k: nat, a: seq<Line>,
                      d: seq<Line>)
    requires AllShaped(lines, minRun, blocks, pieces) && k < |blocks| && blocks[k].Flood? && a != []
    requires var prev := Flat(pieces, k); |a| <= |prev| && Spells(prev, |prev| - |a|, a)
    requires Fits(lines, blocks[k]) && d <= Seen(lines, blocks[k].lo, blocks[k].hi)
    ensures Drawn(a + d, 0, |a + d|) ==> |a + d| <= minRun
  {
    var b := blocks[k];
    TrailingLines(lines, minRun, blocks, pieces, k, a);
    assert Placed(lines, minRun, blocks, k) && Placed(lines, minRun, blocks, k - |a|);
    NoneCrosses(lines, minRun, b.lo - |a|, b.lo, b.hi, a, d);
  }

  /** Lines that end inside the piece of a flood. */
  lemma NoFloodAt(lines: seq<Line>, minRun: int, blocks: seq<Block>, pieces: seq<seq<Item>>, k: nat, at: nat, t: seq<Line>)
    requires AllShaped(lines, minRun, blocks, pieces) && k < |blocks| && blocks[k].Flood?
             && Spells(Flat(pieces, k + 1), at, t)
    requires t != [] && at + |t| > |Flat(pieces, k)|
    ensures Drawn(t, 0, |t|) ==> |t| <= minRun
  {
    var prev, piece, b := Flat(pieces, k), pieces[k], blocks[k];
    assert Placed(lines, minRun, blocks, k) && ShapedAt(lines, blocks, pieces, k);
    var seen := Seen(lines, b.lo, b.hi);
    if at >= |prev| {
      SeenExactly(lines, b.lo, b.hi);
      NoFloodInside(prev, piece, seen, at, t);
    } else {
      var m := |prev| - at;
      Crossing(prev, piece, seen, at, t, m);
      NoFloodBefore(lines, minRun, blocks, pieces, k, t[..m], seen[..|t| - m]);
    }
  }

  lemma {:induction false} NoFloodIn(lines: seq<Line>, minRun: int, blocks: seq<Block>, pieces: seq<seq<Item>>,
                                     k: nat, at: nat, t: seq<Line>)
    requires AllShaped(lines, minRun, blocks, pieces) && k <= |blocks| && Spells(Flat(pieces, k), at, t) && t != []
    ensures Drawn(t, 0, |t|) ==> |t| <= minRun
    decreases k
  {
    var prev := Flat(pieces, k - 1);
    if at + |t| <= |prev| {
      SpellsBefore(prev, pieces[k - 1], at, t, |t|);
      assert t[..|t|] == t;
      NoFloodIn(lines, minRun, blocks, pieces, k - 1, at, t);
    } else if blocks[k - 1].Flood? {
      NoFloodAt(lines, minRun, blocks, pieces, k - 1, at, t);
    } else {
      assert ShapedAt(lines, blocks, pieces, k - 1);
      TrailingLines(lines, minRun, blocks, pieces, k, t);
      assert Placed(lines, minRun, blocks, k - |t|);
      var n := Upto(blocks, k);
      assert t == t + [];
      NoneCrosses(lines, minRun, n - |t|, n, n, t, []);
    }
  }

  /** No flood is left: lines together in the output that would make one number at most minRun. */
  lemma NoFloodLeft(lines: seq<Line>, minRun: int, blocks: seq<Block>, at: nat, t: seq<Line>)
    requires Divides(lines, minRun, blocks) && Spells(Output(lines, blocks), at, t) && t != [] && Drawn(t, 0, |t|)
    ensures |t| <= minRun
  {
    PiecesAreShaped(lines, minRun, blocks);
    NoFloodIn(lines, minRun, blocks, Pieces(lines, blocks), |blocks|, at, t);
  }

  /** No run of more than max(1, minRun) identical consecutive lines is left in the output. */
  lemma NoLongRun(lines: seq<Line>, minRun: int, blocks: seq<Block>, at: nat, m: nat, l: Line)
    requires Divides(lines, minRun, blocks) && IsRun(Output(lines, blocks), at, m, l)
    ensures m <= 1 || m <= minRun
  {
    if m > 1 {
      var t := seq(m, _ => l);
      RunIsDrawn(t, 0, m);
      NoFloodLeft(lines, minRun, blocks, at, t);
    }
  }

  // ----- The evidence

  /** Lines kept, and how many were dropped. */
  datatype Evidence = Evidence(kept: seq<Line>, dropped: nat)

  /** What the output keeps of the first n lines of the log. */
  ghost predicate KeepsEvidence(lines: seq<Line>, n: nat, ev: Evidence) {
    match ev
    case Evidence(kept, dropped) =>
      && n <= |lines| && IsSubsequence(kept, lines, n)
      && Seen(kept, 0, |kept|) == Seen(lines, 0, n)
      && |kept| + dropped == n
  }

  lemma EvidenceStep(lines: seq<Line>, kept: seq<Line>, dropped: nat, b: Block)
    requires Fits(lines, b) && KeepsEvidence(lines, b.Start(), Evidence(kept, dropped))
    ensures KeepsEvidence(lines, b.End(), Evidence(kept + Distincts(lines, b), dropped + Extra(lines, b)))
  {
    StripWritten(lines, b);
    SeenIsSubsequence(kept, lines, b.Start(), b.End());
    SeenOfSeen(kept, lines, b.Start(), b.End());
  }

  ghost function KeptUpto(lines: seq<Line>, blocks: seq<Block>, k: nat): seq<Line>
    requires k <= |blocks|
  {
    if k == 0 then [] else KeptUpto(lines, blocks, k - 1) + Distincts(lines, blocks[k - 1])
  }

  lemma {:induction false} KeptIsStripped(lines: seq<Line>, blocks: seq<Block>, pieces: seq<seq<Item>>, k: nat)
    requires k <= |blocks| == |pieces| && forall i | 0 <= i < |pieces| :: StripsTo(lines, blocks, pieces, i)
    ensures Strip(Flat(pieces, k)) == KeptUpto(lines, blocks, k)
  {
    if k > 0 {
      KeptIsStripped(lines, blocks, pieces, k - 1);
      StripAppend(Flat(pieces, k - 1), pieces[k - 1]);
      assert StripsTo(lines, blocks, pieces, k - 1);
    }
  }

  ghost predicate StripsTo(lines: seq<Line>, blocks: seq<Block>, pieces: seq<seq<Item>>, i: nat)
    requires i < |blocks| == |pieces|
  {
    Strip(pieces[i]) == Distincts(lines, blocks[i])
  }

  lemma OutputStripped(lines: seq<Line>, minRun: int, blocks: seq<Block>)
    requires Divides(lines, minRun, blocks)
    ensures Strip(Output(lines, blocks)) == KeptUpto(lines, blocks, |blocks|)
  {
    var pieces := Pieces(lines, blocks);
    forall i | 0 <= i < |pieces| ensures StripsTo(lines, blocks, pieces, i) {
      assert Placed(lines, minRun, blocks, i);
      StripWritten(lines, blocks[i]);
    }
    KeptIsStripped(lines, blocks, pieces, |blocks|);
  }

  lemma {:induction false} EvidenceUpto(lines: seq<Line>, minRun: int, blocks: seq<Block>, k: nat)
    requires Divides(lines, minRun, blocks) && k <= |blocks|
    ensures KeepsEvidence(lines, Upto(blocks, k), Evidence(KeptUpto(lines, blocks, k), Dropped(lines, blocks, k)))
  {
    if k > 0 {
      EvidenceUpto(lines, minRun, blocks, k - 1);
      assert Placed(lines, minRun, blocks, k - 1);
      EvidenceStep(lines, KeptUpto(lines, blocks, k - 1), Dropped(lines, blocks, k - 1), blocks[k - 1]);
    }
  }

  /**
   Without its markers the collapsed log is a subsequence of the log with the same distinct lines in
   the same order of first appearance, and kept and dropped lines together are all the lines.
   */
  lemma EvidenceKept(lines: seq<Line>, minRun: int, blocks: seq<Block>)
    requires Divides(lines, minRun, blocks) && Upto(blocks, |blocks|) == |lines|
    ensures KeepsEvidence(lines, |lines|, Evidence(Strip(Output(lines, blocks)), Dropped(lines, blocks, |blocks|)))
  {
    EvidenceUpto(lines, minRun, blocks, |blocks|);
    OutputStripped(lines, minRun, blocks);
  }

  /** Each flood's marker stands for more than minRun lines of at most four distinct values, one line or more dropped. */
  lemma MarkerStandsForFlood(lines: seq<Line>, minRun: int, blocks: seq<Block>, k: nat)
    requires Divides(lines, minRun, blocks) && k < |blocks| && blocks[k].Flood?
    ensures var b := blocks[k]; var w := Written(lines, b);
            && Fits(lines, b) && b.lo < b.hi && |w| > 0 && w[|w| - 1].Marker?
            && w[|w| - 1].n + w[|w| - 1].k == b.hi - b.lo > minRun
            && 1 <= w[|w| - 1].k <= 4 && w[|w| - 1].n >= 1
            && Occurs(lines, b.lo, b.hi - 1, lines[b.hi - 1])
  {
    assert Placed(lines, minRun, blocks, k);
    FloodDrops(lines, blocks[k].lo, blocks[k].hi);
  }

  /** A flood of one distinct line can be rebuilt from what is written. */
  lemma {:induction false} SingleLineFlood(lines: seq<Line>, i: nat, j: nat, q: nat)
    requires i <= q < j <= |lines| && |Seen(lines, i, j)| == 1
    ensures lines[q] == Seen(lines, i, j)[0]
  {
    SeenExactly(lines, i, j);
    assert Occurs(lines, i, j, lines[q]);
  }

  /**
   collapse, as its caller sees it: no flood and no long run is left, and the lines that are left, with the count of those
   dropped, keep the evidence.
   */
  method CollapseFloods(lines: seq<Line>, minRun: int) returns (out: seq<Item>, runs: nat, dropped: nat)
    requires minRun >= 0 || Ends(lines, 0)
    ensures forall at: nat, t: seq<Line> | Spells(out, at, t) && t != [] && Drawn(t, 0, |t|) :: |t| <= minRun
    ensures forall at: nat, m: nat, l: Line | IsRun(out, at, m, l) :: m <= 1 || m <= minRun
    ensures KeepsEvidence(lines, |lines|, Evidence(Strip(out), dropped))
    ensures exists blocks :: Collapses(lines, minRun, blocks, out, runs, dropped)
  {
    out, runs, dropped := CollapseLog(lines, minRun);
    ghost var blocks :| Collapses(lines, minRun, blocks, out, runs, dropped);
    EvidenceKept(lines, minRun, blocks);
    forall at: nat, t: seq<Line> | Spells(out, at, t) && t != [] && Drawn(t, 0, |t|) ensures |t| <= minRun {
      NoFloodLeft(lines, minRun, blocks, at, t);
    }
    forall at: nat, m: nat, l: Line | IsRun(out, at, m, l) ensures m <= 1 || m <= minRun {
      NoLongRun(lines, minRun, blocks, at, m, l);
    }
  }

  // ----- Four lines are a flood, five are none

  lemma {:induction false} AtMostFour(lines: seq<Line>, j: nat)
    requires j <= |lines| && forall i | 4 <= i < |lines| :: lines[i] == lines[i - 4]
    ensures |Seen(lines, 0, j)| <= 4 && |Seen(lines, 0, j)| <= j
  {
    if j > 0 {
      AtMostFour(lines, j - 1);
      if j > 4 {
        assert lines[j - 5] == lines[j - 1];
      }
    }
  }

  /** A log that repeats with a period of four lines is one stretch. */
  lemma PeriodFourIsStretch(lines: seq<Line>)
    requires |lines| > 4 && forall i | 4 <= i < |lines| :: lines[i] == lines[i - 4]
    ensures Stretch(lines, 0, |lines|)
  {
    var n := |lines|;
    AtMostFour(lines, n);
    assert lines[n - 5] == lines[n - 1];
  }

  lemma {:induction false} AllNew(lines: seq<Line>, i: nat, m: nat)
    requires i + m <= |lines| && forall x, y | i <= x < y < i + m :: lines[x] != lines[y]
    ensures |Seen(lines, i, i + m)| == m
  {
    if m > 0 {
      AllNew(lines, i, m - 1);
      assert !Occurs(lines, i, i + m - 1, lines[i + m - 1]);
    }
  }

  /** Where no line comes back within five, no stretch begins. */
  lemma FiveApartIsNoStretch(lines: seq<Line>, i: nat, j: nat)
    requires i < j <= |lines| && forall x, y | 0 <= x < y < |lines| && y < x + 5 :: lines[x] != lines[y]
    ensures !Drawn(lines, i, j)
  {
    if j < i + 5 {
      assert !Occurs(lines, i, j - 1, lines[j - 1]);
    } else {
      AllNew(lines, i, 5);
      SeenGrows(lines, i, i + 5, j);
    }
  }

  lemma FirstBlock(lines: seq<Line>, minRun: int, b: Block)
    requires Justified(lines, minRun, b) && b.Start() == 0 && |lines| > minRun && Stretch(lines, 0, |lines|)
    ensures b == Flood(0, |lines|)
  {
  }

  lemma BlockIsInside(lines: seq<Line>, minRun: int, b: Block)
    requires Justified(lines, minRun, b)
    ensures b.Start() < |lines|
  {
  }

  lemma OneBlock(lines: seq<Line>, minRun: int, blocks: seq<Block>)
    requires Divides(lines, minRun, blocks) && Upto(blocks, |blocks|) == |lines| > minRun && lines != []
             && Stretch(lines, 0, |lines|)
    ensures blocks == [Flood(0, |lines|)]
  {
    assert Placed(lines, minRun, blocks, 0);
    FirstBlock(lines, minRun, blocks[0]);
    forall k | 0 <= k < |blocks| ensures blocks[k].Start() < |lines| && blocks[k].Start() == Upto(blocks, k) {
      assert Placed(lines, minRun, blocks, k);
      BlockIsInside(lines, minRun, blocks[k]);
    }
    assert Upto(blocks, 1) == |lines|;
  }

  /** A log of more than min_run lines that repeats with a period of four is written as its four lines and a marker. */
  method FourCollapse(lines: seq<Line>, minRun: nat) returns (out: seq<Item>, runs: nat, dropped: nat)
    requires |lines| > minRun && |lines| > 4 && forall i | 4 <= i < |lines| :: lines[i] == lines[i - 4]
    requires forall x, y | 0 <= x < y < 4 :: lines[x] != lines[y]
    ensures out == [Kept(lines[0]), Kept(lines[1]), Kept(lines[2]), Kept(lines[3]), Marker(|lines| - 4, 4)]
    ensures runs == 1 && dropped == |lines| - 4
  {
    out, runs, dropped := CollapseLog(lines, minRun);
    ghost var blocks :| Collapses(lines, minRun, blocks, out, runs, dropped);
    PeriodFourIsStretch(lines);
    OneBlock(lines, minRun, blocks);
    FourWritten(lines);
    OneFlood(lines, out, runs, dropped, blocks);
  }

  lemma OneFlood(lines: seq<Line>, out: seq<Item>, runs: nat, dropped: nat, blocks: seq<Block>)
    requires blocks == [Flood(0, |lines|)] && Tallied(lines, blocks, out, runs, dropped)
    ensures out == Written(lines, Flood(0, |lines|)) && runs == 1 && dropped == Extra(lines, Flood(0, |lines|))
  {
    var pieces := Pieces(lines, blocks);
    assert Flat(pieces, 0) == [] && Flat(pieces, 1) == [] + pieces[0];
    assert Runs(blocks, 0) == 0 && Dropped(lines, blocks, 0) == 0;
  }

  lemma {:induction false} SeenFour(lines: seq<Line>, j: nat)
    requires 4 <= j <= |lines| && (forall i | 4 <= i < |lines| :: lines[i] == lines[i - 4])
    requires forall x, y | 0 <= x < y < 4 :: lines[x] != lines[y]
    ensures Seen(lines, 0, j) == lines[..4]
  {
    if j > 4 {
      SeenFour(lines, j - 1);
      assert lines[j - 5] == lines[j - 1];
    } else {
      SeenItself(lines, 4);
    }
  }

  lemma {:induction false} SeenItself(lines: seq<Line>, m: nat)
    requires m <= |lines| && forall x, y | 0 <= x < y < m :: lines[x] != lines[y]
    ensures Seen(lines, 0, m) == lines[..m]
  {
    if m > 0 {
      SeenItself(lines, m - 1);
      assert !Occurs(lines, 0, m - 1, lines[m - 1]);
      assert lines[..m] == lines[..m - 1] + [lines[m - 1]];
    }
  }

  lemma FourWritten(lines: seq<Line>)
    requires |lines| > 4 && (forall i | 4 <= i < |lines| :: lines[i] == lines[i - 4])
    requires forall x, y | 0 <= x < y < 4 :: lines[x] != lines[y]
    ensures Written(lines, Flood(0, |lines|)) ==
            [Kept(lines[0]), Kept(lines[1]), Kept(lines[2]), Kept(lines[3]), Marker(|lines| - 4, 4)]
    ensures Extra(lines, Flood(0, |lines|)) == |lines| - 4
  {
    var n := |lines|;
    SeenFour(lines, n);
    FloodWritten(lines, 0, n, lines[..4]);
  }

  lemma KeptSnoc(lines: seq<Line>, k: nat)
    requires k < |lines|
    ensures KeptAll(lines[..k + 1]) == KeptAll(lines[..k]) + [Kept(lines[k])]
  {
    assert lines[..k + 1] == lines[..k] + [lines[k]];
  }

  lemma OnlyKept(lines: seq<Line>, minRun: int, b: Block)
    requires Justified(lines, minRun, b) && forall i, j {:trigger Drawn(lines, i, j)} | 0 <= i < j <= |lines| ::
             !Drawn(lines, i, j)
    ensures b.Keep? && b.at < |lines| && Written(lines, b) == [Kept(lines[b.at])] && Extra(lines, b) == 0
  {
  }

  /** The first k blocks keep the first k lines. */
  ghost predicate KeepsFirst(lines: seq<Line>, blocks: seq<Block>, pieces: seq<seq<Item>>, k: nat) {
    && k <= |blocks| == |pieces| && Upto(blocks, k) == k <= |lines| && Flat(pieces, k) == KeptAll(lines[..k])
    && Runs(blocks, k) == 0 && Dropped(lines, blocks, k) == 0
  }

  lemma KeepsNext(lines: seq<Line>, blocks: seq<Block>, pieces: seq<seq<Item>>, k: nat)
    requires k < |blocks| && KeepsFirst(lines, blocks, pieces, k) && blocks[k] == Keep(k) && k < |lines|
    requires pieces[k] == [Kept(lines[k])] && Extra(lines, blocks[k]) == 0
    ensures KeepsFirst(lines, blocks, pieces, k + 1)
  {
    KeptSnoc(lines, k);
  }

  lemma {:induction false} AllKept(lines: seq<Line>, minRun: int, blocks: seq<Block>, pieces: seq<seq<Item>>, k: nat)
    requires Divides(lines, minRun, blocks) && k <= |blocks| && pieces == Pieces(lines, blocks)
    requires forall i, j {:trigger Drawn(lines, i, j)} | 0 <= i < j <= |lines| :: !Drawn(lines, i, j)
    ensures KeepsFirst(lines, blocks, pieces, k)
  {
    if k > 0 {
      AllKept(lines, minRun, blocks, pieces, k - 1);
      assert Placed(lines, minRun, blocks, k - 1);
      OnlyKept(lines, minRun, blocks[k - 1]);
      KeepsNext(lines, blocks, pieces, k - 1);
    }
  }

  /** A log in which no line comes back within five is left as it is. */
  method FiveKept(lines: seq<Line>, minRun: nat) returns (out: seq<Item>, runs: nat, dropped: nat)
    requires forall x, y | 0 <= x < y < |lines| && y < x + 5 :: lines[x] != lines[y]
    ensures out == KeptAll(lines) && runs == 0 && dropped == 0
  {
    out, runs, dropped := CollapseLog(lines, minRun);
    ghost var blocks :| Collapses(lines, minRun, blocks, out, runs, dropped);
    forall i, j | 0 <= i < j <= |lines| ensures !Drawn(lines, i, j) {
      FiveApartIsNoStretch(lines, i, j);
    }
    AllKept(lines, minRun, blocks, Pieces(lines, blocks), |blocks|);
    assert lines[..|lines|] == lines;
  }
}
