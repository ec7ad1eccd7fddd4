/**
 The stage interpreter of scripts/interpret-rpi4-actled-analysis.py for bitcode layouts: the greedy
 search of build_interpretation for the best contiguous run of stages, with its tie-breaks.
 */
module LedStages {

  datatype Option<+T> = None | Some(value: T)

  /** A valid decoded group: its code and its group_index. */
  datatype Group = Group(code: int, id: int)

  /** The layout's stage order lists each code once. */
  ghost predicate Distinct(order: seq<int>) {
    forall i, j | 0 <= i < j < |order| :: order[i] != order[j]
  }

  // ----- Reference: chains

  /** at are places in the log, in log order, whose codes are consecutive in the stage order from stage s on. */
  ghost predicate Chain(gs: seq<Group>, order: seq<int>, s: nat, at: seq<nat>) {
    && s + |at| <= |order|
    && (forall k | 0 <= k < |at| :: at[k] < |gs| && gs[at[k]].code == order[s + k])
    && (forall k | 0 < k < |at| :: Before(at, k))
  }

  ghost predicate Before(at: seq<nat>, k: nat)
    requires 0 < k < |at|
  {
    at[k - 1] < at[k]
  }

  /** Each element is the first group behind the one before it that carries its code. */
  ghost predicate Prompt(gs: seq<Group>, at: seq<nat>) {
    forall k | 0 < k < |at| :: PromptAt(gs, at, k)
  }

  ghost predicate PromptAt(gs: seq<Group>, at: seq<nat>, k: nat)
    requires 0 < k < |at|
  {
    at[k] < |gs| && NoneBetween(gs, at[k - 1], at[k], gs[at[k]].code)
  }

  /** No group between the two places carries the code. */
  ghost predicate NoneBetween(gs: seq<Group>, lo: nat, hi: nat, code: int) {
    hi <= |gs| && forall j | lo < j < hi :: gs[j].code != code
  }

  // ----- The greedy run from one start

  /** No chain from the same first group has more than n elements before place j. */
  ghost predicate Ahead(gs: seq<Group>, order: seq<int>, s: nat, i: nat, n: nat, j: nat) {
    forall at: seq<nat> | Chain(gs, order, s, at) && |at| > n && at[0] == i :: at[n] >= j
  }

  lemma AheadStart(gs: seq<Group>, order: seq<int>, s: nat, i: nat)
    ensures Ahead(gs, order, s, i, 1, i + 1)
  {
    forall at: seq<nat> | Chain(gs, order, s, at) && |at| > 1 && at[0] == i ensures at[1] >= i + 1 {
      assert Before(at, 1);
    }
  }

  /** A group that is not the expected stage does not help any chain. */
  lemma AheadSkips(gs: seq<Group>, order: seq<int>, s: nat, i: nat, n: nat, j: nat)
    requires Ahead(gs, order, s, i, n, j) && j < |gs| && (s + n < |order| ==> gs[j].code != order[s + n])
    ensures Ahead(gs, order, s, i, n, j + 1)
  {
    forall at: seq<nat> | Chain(gs, order, s, at) && |at| > n && at[0] == i ensures at[n] >= j + 1 {
      assert at[n] >= j && gs[at[n]].code == order[s + n];
    }
  }

  /** Taking the expected stage where it first appears keeps the greedy chain ahead. */
  lemma AheadTakes(gs: seq<Group>, order: seq<int>, s: nat, i: nat, n: nat, j: nat)
    requires Ahead(gs, order, s, i, n, j)
    ensures Ahead(gs, order, s, i, n + 1, j + 1)
  {
    forall at: seq<nat> | Chain(gs, order, s, at) && |at| > n + 1 && at[0] == i ensures at[n + 1] >= j + 1 {
      assert at[n] >= j && Before(at, n + 1);
    }
  }

  lemma ChainSnoc(gs: seq<Group>, order: seq<int>, s: nat, at: seq<nat>, j: nat)
    requires Chain(gs, order, s, at) && at != [] && at[|at| - 1] < j < |gs|
    requires s + |at| < |order| && gs[j].code == order[s + |at|]
    ensures Chain(gs, order, s, at + [j])
  {
    var more := at + [j];
    forall k | 0 < k < |more| ensures Before(more, k) {
      if k < |at| {
        assert Before(at, k);
      }
    }
  }

  lemma PromptSnoc(gs: seq<Group>, at: seq<nat>, j: nat)
    requires Prompt(gs, at) && at != [] && j < |gs| && NoneBetween(gs, at[|at| - 1], j, gs[j].code)
    ensures Prompt(gs, at + [j])
  {
    var more := at + [j];
    forall k | 0 < k < |more| ensures PromptAt(gs, more, k) {
      if k < |at| {
        assert PromptAt(gs, at, k);
      }
    }
  }

  /** The inner loop: the groups matched from group i on, and the stage expected next. */
  method Follow(gs: seq<Group>, order: seq<int>, i: nat, s: nat) returns (at: seq<nat>, expected: nat)
    requires Distinct(order) && i < |gs| && s < |order| && gs[i].code == order[s]
    ensures Chain(gs, order, s, at) && at != [] && at[0] == i && expected == s + |at|
    ensures Ahead(gs, order, s, i, |at|, |gs|) && Prompt(gs, at)
  {
    at, expected := [i], s + 1;
    var lastCode := gs[i].code;
    AheadStart(gs, order, s, i);
    for j := i + 1 to |gs|
      invariant Chain(gs, order, s, at) && at != [] && at[0] == i && expected == s + |at|
      invariant lastCode == order[expected - 1] && at[|at| - 1] < j
      invariant Ahead(gs, order, s, i, |at|, j) && Prompt(gs, at)
      invariant expected < |order| ==> NoneBetween(gs, at[|at| - 1], j, order[expected])
    {
      if gs[j].code == lastCode {
        AheadSkips(gs, order, s, i, |at|, j);
        continue;
      }
      if expected < |order| && gs[j].code == order[expected] {
        AheadTakes(gs, order, s, i, |at|, j);
        ChainSnoc(gs, order, s, at, j);
        PromptSnoc(gs, at, j);
        at := at + [j];
        lastCode, expected := gs[j].code, expected + 1;
      } else {
        AheadSkips(gs, order, s, i, |at|, j);
      }
    }
  }

  // ----- The search over all starts

  method StageIndex(order: seq<int>, code: int) returns (s: Option<nat>)
    ensures s.Some? ==> s.value < |order| && order[s.value] == code
    ensures s.None? ==> code !in order
  {
    for k := 0 to |order|
      invariant code !in order[..k]
    {
      if order[k] == code {
        return Some(k);
      }
    }
    return None;
  }

  /** a is a better run than b: longer, or as long and from a smaller start code, or equal in both and starting earlier. */
  ghost predicate AtLeast(gs: seq<Group>, a: seq<nat>, b: seq<nat>)
    requires a != [] && b != [] && a[0] < |gs| && b[0] < |gs|
  {
    || |a| > |b|
    || (|a| == |b| && gs[a[0]].code < gs[b[0]].code)
    || (|a| == |b| && gs[a[0]].code == gs[b[0]].code && a[0] <= b[0])
  }

  /** best is a chain up to stage expected, at least as good as every chain that starts before place i. */
  ghost predicate BestUpto(gs: seq<Group>, order: seq<int>, i: nat, best: seq<nat>, expected: nat) {
    && best != [] && best[0] < i <= |gs| && |best| <= expected && Chain(gs, order, expected - |best|, best)
    && forall s: nat, at: seq<nat> | Chain(gs, order, s, at) && at != [] && at[0] < i :: AtLeast(gs, best, at)
  }

  ghost predicate NoneUpto(gs: seq<Group>, order: seq<int>, i: nat) {
    i <= |gs| && forall k | 0 <= k < i :: gs[k].code !in order
  }

  /** Chains from the same start code are at the same stages, so chains of one length from it end on one code. */
  lemma SameStages(gs: seq<Group>, order: seq<int>, s: nat, a: seq<nat>, t: nat, b: seq<nat>)
    requires Distinct(order) && Chain(gs, order, s, a) && Chain(gs, order, t, b) && a != [] && b != []
    requires gs[a[0]].code == gs[b[0]].code
    ensures s == t && (|a| == |b| ==> gs[a[|a| - 1]].code == gs[b[|b| - 1]].code)
  {
    assert order[s + 0] == order[t + 0];
  }

  lemma ChainStart(gs: seq<Group>, order: seq<int>, s: nat, at: seq<nat>)
    requires Chain(gs, order, s, at) && at != []
    ensures at[0] < |gs| && gs[at[0]].code in order && s < |order| && order[s] == gs[at[0]].code
  {
    assert order[s + 0] == gs[at[0]].code;
  }

  /** The greedy chain from i is at least as good as every chain from i. */
  lemma GreedyIsBest(gs: seq<Group>, order: seq<int>, s: nat, i: nat, at: seq<nat>, t: nat, other: seq<nat>)
    requires Distinct(order) && Chain(gs, order, s, at) && at != [] && at[0] == i && Ahead(gs, order, s, i, |at|, |gs|)
    requires Chain(gs, order, t, other) && other != [] && other[0] == i
    ensures AtLeast(gs, at, other)
  {
    SameStages(gs, order, s, at, t, other);
    assert |other| <= |at|;
  }

  lemma AtLeastTransitive(gs: seq<Group>, a: seq<nat>, b: seq<nat>, c: seq<nat>)
    requires a != [] && b != [] && c != [] && a[0] < |gs| && b[0] < |gs| && c[0] < |gs|
    requires AtLeast(gs, a, b) && AtLeast(gs, b, c)
    ensures AtLeast(gs, a, c)
  {
  }

  /** The next start: its greedy chain at, and the better of it and the best so far. */
  lemma NextStart(gs: seq<Group>, order: seq<int>, i: nat, s: nat, at: seq<nat>, best: seq<nat>, expected: nat,
                  best': seq<nat>, expected': nat)
    requires Distinct(order) && i < |gs| && Chain(gs, order, s, at) && at != [] && at[0] == i
             && Ahead(gs, order, s, i, |at|, |gs|)
    requires BestUpto(gs, order, i, best, expected) || (NoneUpto(gs, order, i) && best == [])
    requires if best == [] || !AtLeast(gs, best, at) then best' == at && expected' == s + |at|
             else best' == best && expected' == expected
    ensures BestUpto(gs, order, i + 1, best', expected')
  {
    forall t: nat, other: seq<nat> | Chain(gs, order, t, other) && other != [] && other[0] < i + 1
      ensures AtLeast(gs, best', other)
    {
      ChainStart(gs, order, t, other);
      if other[0] == i {
        GreedyIsBest(gs, order, s, i, at, t, other);
        AtLeastTransitive(gs, best', at, other);
      } else {
        AtLeastTransitive(gs, best', best, other);
      }
    }
  }

  /** The greedy search with its three tie-breaks. */
  method Search(gs: seq<Group>, order: seq<int>) returns (best: seq<nat>, expected: nat)
    requires Distinct(order)
    ensures best == [] ==> NoneUpto(gs, order, |gs|) && expected == 0
    ensures best != [] ==> BestUpto(gs, order, |gs|, best, expected) && Prompt(gs, best)
  {
    best, expected := [], 0;
    for i := 0 to |gs|
      invariant best == [] ==> NoneUpto(gs, order, i) && expected == 0
      invariant best != [] ==> BestUpto(gs, order, i, best, expected) && Prompt(gs, best)
    {
      var code := gs[i].code;
      var s := StageIndex(order, code);
      if s.None? {
        SkipStart(gs, order, i, best, expected);
        continue;
      }
      var at, next := Follow(gs, order, i, s.value);
      ghost var best0, expected0 := best, expected;
      if best == [] {
        best, expected := at, next;
      } else {
        var bestCode := gs[best[0]].code;
        if |at| > |best| {
          best, expected := at, next;
        } else if |at| == |best| && code < bestCode {
          best, expected := at, next;
        } else if |at| == |best| && code == bestCode {
          SameStages(gs, order, s.value, at, expected - |best|, best);
          if gs[at[|at| - 1]].code > gs[best[|best| - 1]].code {
            best, expected := at, next;
          }
        }
      }
      NextStart(gs, order, i, s.value, at, best0, expected0, best, expected);
    }
  }

  lemma SkipStart(gs: seq<Group>, order: seq<int>, i: nat, best: seq<nat>, expected: nat)
    requires i < |gs| && gs[i].code !in order
    ensures NoneUpto(gs, order, i) ==> NoneUpto(gs, order, i + 1)
    ensures BestUpto(gs, order, i, best, expected) ==> BestUpto(gs, order, i + 1, best, expected)
  {
    if BestUpto(gs, order, i, best, expected) {
      forall s: nat, at: seq<nat> | Chain(gs, order, s, at) && at != [] && at[0] < i + 1 ensures AtLeast(gs, best, at) {
        ChainStart(gs, order, s, at);
      }
    }
  }

  // ----- There is one best run

  lemma {:induction false} PromptsAgree(gs: seq<Group>, order: seq<int>, s: nat, a: seq<nat>, b: seq<nat>, k: nat)
    requires Chain(gs, order, s, a) && Chain(gs, order, s, b) && Prompt(gs, a) && Prompt(gs, b)
    requires k < |a| && k < |b| && a[0] == b[0]
    ensures a[k] == b[k]
    decreases k
  {
    if k > 0 {
      PromptsAgree(gs, order, s, a, b, k - 1);
      assert PromptAt(gs, a, k) && PromptAt(gs, b, k) && Before(a, k) && Before(b, k);
      assert gs[a[k]].code == order[s + k] == gs[b[k]].code;
    }
  }

  /** The result of the search is the only one: no other list of groups is prompt and as good as all chains. */
  lemma BestIsUnique(gs: seq<Group>, order: seq<int>, a: seq<nat>, ea: nat, b: seq<nat>, eb: nat)
    requires Distinct(order) && BestUpto(gs, order, |gs|, a, ea) && BestUpto(gs, order, |gs|, b, eb)
    requires Prompt(gs, a) && Prompt(gs, b)
    ensures a == b && ea == eb
  {
    assert AtLeast(gs, a, b) && AtLeast(gs, b, a);
    SameStages(gs, order, ea - |a|, a, eb - |b|, b);
    forall k | 0 <= k < |a| ensures a[k] == b[k] {
      PromptsAgree(gs, order, ea - |a|, a, b, k);
    }
  }

  // ----- The report

  /** The groups at places not in at, in log order, among the first n. */
  ghost function Others(gs: seq<Group>, at: seq<nat>, n: nat): seq<Group>
    requires n <= |gs|
  {
    if n == 0 then [] else Others(gs, at, n - 1) + if n - 1 in at then [] else [gs[n - 1]]
  }

  ghost predicate DistinctIds(gs: seq<Group>) {
    forall i, j | 0 <= i < j < |gs| :: gs[i].id != gs[j].id
  }

  /** The last group matched carries stage s, and next is the stage behind it, if there is one. */
  ghost predicate NextAfter(order: seq<int>, matched: seq<Group>, s: nat, next: Option<int>) {
    && matched != [] && s < |order| && order[s] == matched[|matched| - 1].code
    && next == if s + 1 < |order| then Some(order[s + 1]) else None
  }

  /** matched, unmatched and next_expected: each valid group is in exactly one of the two lists, and the
      stage expected next is the one right after the last stage matched (the first if nothing matched). */
  method Interpret(gs: seq<Group>, order: seq<int>)
    returns (matched: seq<Group>, unmatched: seq<Group>, next: Option<int>, ghost best: seq<nat>)
    requires Distinct(order) && DistinctIds(gs)
    ensures best == [] ==> NoneUpto(gs, order, |gs|)
    ensures best != [] ==> (exists e :: BestUpto(gs, order, |gs|, best, e)) && Prompt(gs, best)
    ensures |matched| == |best| && forall k | 0 <= k < |best| :: best[k] < |gs| && matched[k] == gs[best[k]]
    ensures unmatched == Others(gs, best, |gs|)
    ensures matched == [] ==> next == if order == [] then None else Some(order[0])
    ensures matched != [] ==> exists s: nat :: NextAfter(order, matched, s, next)
  {
    var at, expected := Search(gs, order);
    best := at;
    matched := [];
    for k := 0 to |at|
      invariant |matched| == k && forall x | 0 <= x < k :: at[x] < |gs| && matched[x] == gs[at[x]]
    {
      assert at[k] < |gs|;
      matched := matched + [gs[at[k]]];
    }
    var ids := set g | g in matched :: g.id;
    unmatched := [];
    for i := 0 to |gs|
      invariant unmatched == Others(gs, at, i)
    {
      IdsAreGroups(gs, at, matched, i);
      if gs[i].id !in ids {
        unmatched := unmatched + [gs[i]];
      }
    }
    next := if expected < |order| then Some(order[expected]) else None;
    if at != [] {
      ghost var s := expected - |at|;
      assert order[s + (|at| - 1)] == matched[|at| - 1].code;
      assert NextAfter(order, matched, expected - 1, next);
    }
  }

  /** With distinct ids a group's id is among the matched ones exactly if the group was matched. */
  lemma IdsAreGroups(gs: seq<Group>, at: seq<nat>, matched: seq<Group>, i: nat)
    requires DistinctIds(gs) && i < |gs| && |matched| == |at|
    requires forall x | 0 <= x < |at| :: at[x] < |gs| && matched[x] == gs[at[x]]
    ensures gs[i].id in (set g | g in matched :: g.id) <==> i in at
  {
    if i in at {
      var x :| 0 <= x < |at| && at[x] == i;
      assert matched[x] in matched;
    }
    if gs[i].id in (set g | g in matched :: g.id) {
      var g :| g in matched && g.id == gs[i].id;
      var x :| 0 <= x < |matched| && matched[x] == g;
      assert at[x] == i;
    }
  }
}
