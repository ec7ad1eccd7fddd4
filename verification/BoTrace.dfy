/**
 The buffer-object double-ownership detector of scripts/analyze-bo-trace.py (analyze): one pass over
 CREATE, MMAP and CLOSE events with an owner map and a live set.
 */
module BoTrace {

  datatype Op = Create | Mmap | Close

  datatype Event = Event(op: Op, handle: nat, cpu: nat)

  /** A reported overlap: address, old handle, new handle, number of the event. */
  datatype Overlap = Overlap(cpu: nat, old_: nat, new_: nat, order: nat)

  // ----- Reference: who holds what

  /** The open handles that have a CPU address, after the first n events; a CLOSE ends a handle whatever it prints. */
  ghost function Held(evs: seq<Event>, n: nat): map<nat, nat>
    requires n <= |evs|
  {
    if n == 0 then map[] else
    var h, e := Held(evs, n - 1), evs[n - 1];
    if e.op == Close then h - {e.handle}
    else if e.cpu == 0 then h
    else h[e.handle := e.cpu]
  }

  /** An open handle keeps one address, and a CLOSE names an open handle with its own address, null if it has none. */
  ghost predicate Regular(evs: seq<Event>) {
    forall n | 0 <= n < |evs| :: RegularAt(evs, n)
  }

  ghost predicate RegularAt(evs: seq<Event>, n: nat)
    requires n < |evs|
  {
    var h, e := Held(evs, n), evs[n];
    if e.op == Close then if e.handle in h then e.cpu == h[e.handle] else e.cpu == 0
    else e.cpu != 0 && e.handle in h ==> h[e.handle] == e.cpu
  }

  /** Two distinct open handles hold the same address. */
  ghost predicate Shared(h: map<nat, nat>) {
    exists a, b :: a in h && b in h && a != b && h[a] == h[b]
  }

  ghost predicate NeverShared(evs: seq<Event>, n: nat)
    requires n <= |evs|
  {
    forall k | 0 <= k <= n :: !Shared(Held(evs, k))
  }

  // ----- The pass

  /** An address's owner holds it; as long as nothing was reported, every open handle owns its address. */
  ghost predicate Consistent(h: map<nat, nat>, owner: map<nat, nat>, live: set<nat>, clean: bool) {
    && live == h.Keys && (forall x | x in h :: h[x] != 0)
    && (forall a | a in owner :: owner[a] in h && h[owner[a]] == a)
    && (clean ==> forall x | x in h :: h[x] in owner && owner[h[x]] == x)
  }

  ghost predicate Reported(evs: seq<Event>, o: Overlap) {
    match o
    case Overlap(cpu, old_, new_, order) =>
      && 0 < order <= |evs| && evs[order - 1].handle == new_ && evs[order - 1].cpu == cpu && old_ != new_
      && var h := Held(evs, order); old_ in h && new_ in h && h[old_] == h[new_] == cpu
  }

  lemma CloseStep(h: map<nat, nat>, owner: map<nat, nat>, live: set<nat>, clean: bool, e: Event)
    requires Consistent(h, owner, live, clean) && e.handle in h && h[e.handle] == e.cpu
    ensures var owner' := if e.cpu in owner && owner[e.cpu] == e.handle then owner - {e.cpu} else owner;
            Consistent(h - {e.handle}, owner', live - {e.handle}, clean)
  {
  }

  lemma OpenStep(h: map<nat, nat>, owner: map<nat, nat>, live: set<nat>, clean: bool, e: Event)
    requires Consistent(h, owner, live, clean) && e.cpu != 0 && (e.handle in h ==> h[e.handle] == e.cpu)
    ensures var bad := e.cpu in owner && owner[e.cpu] != e.handle && owner[e.cpu] in live;
            && Consistent(h[e.handle := e.cpu], owner[e.cpu := e.handle], live + {e.handle}, clean && !bad)
            && (bad ==> Shared(h[e.handle := e.cpu]))
  {
    var h' := h[e.handle := e.cpu];
    if e.cpu in owner && owner[e.cpu] != e.handle {
      assert h'[owner[e.cpu]] == h'[e.handle];
    }
  }

  lemma CleanIsNotShared(h: map<nat, nat>, owner: map<nat, nat>, live: set<nat>)
    requires Consistent(h, owner, live, true)
    ensures !Shared(h)
  {
    forall a, b | a in h && b in h && h[a] == h[b] ensures a == b {
      assert owner[h[a]] == a && owner[h[b]] == b;
    }
  }

  predicate Opens(e: Event, a: nat, x: nat) {
    a != 0 && e == Event(e.op, x, a) && e.op != Close
  }

  /** Some event before n opens handle x at address a. */
  ghost predicate Opened(evs: seq<Event>, n: nat, a: nat, x: nat)
    requires n <= |evs|
  {
    exists k | 0 <= k < n :: Opens(evs[k], a, x)
  }

  predicate Lists(reuse: map<nat, set<nat>>, a: nat, x: nat) {
    a in reuse && x in reuse[a]
  }

  /** `reuse` lists, address by address, exactly the handles opened there. */
  ghost predicate ReuseExact(evs: seq<Event>, n: nat, reuse: map<nat, set<nat>>)
    requires n <= |evs|
  {
    forall a: nat, x: nat :: Lists(reuse, a, x) <==> Opened(evs, n, a, x)
  }

  function Reuse(reuse: map<nat, set<nat>>, e: Event): map<nat, set<nat>> {
    if e.cpu == 0 || e.op == Close then reuse
    else reuse[e.cpu := (if e.cpu in reuse then reuse[e.cpu] else {}) + {e.handle}]
  }

  lemma OpenedNext(evs: seq<Event>, n: nat, a: nat, x: nat)
    requires n < |evs|
    ensures Opened(evs, n + 1, a, x) <==> Opened(evs, n, a, x) || Opens(evs[n], a, x)
  {
  }

  lemma ReuseStep(evs: seq<Event>, n: nat, reuse: map<nat, set<nat>>)
    requires n < |evs| && ReuseExact(evs, n, reuse)
    ensures ReuseExact(evs, n + 1, Reuse(reuse, evs[n]))
  {
    var more := Reuse(reuse, evs[n]);
    forall a: nat, x: nat ensures Lists(more, a, x) <==> Opened(evs, n + 1, a, x) {
      OpenedNext(evs, n, a, x);
      assert Lists(reuse, a, x) <==> Opened(evs, n, a, x);
    }
  }

  // ----- What the list holds

  /** The event opens a handle at address a. */
  predicate OpensAt(e: Event, a: nat) {
    e.op != Close && e.cpu == a != 0
  }

  /** Event k opened x at a; since then nothing was opened there, and x was not closed with that address. */
  ghost predicate OwnsSince(evs: seq<Event>, n: nat, a: nat, x: nat, k: nat) {
    && k < n <= |evs| && OpensAt(evs[k], a) && evs[k].handle == x
    && forall j | k < j < n :: !OpensAt(evs[j], a) && evs[j] != Event(Close, x, a)
  }

  ghost predicate Owns(evs: seq<Event>, n: nat, a: nat, x: nat) {
    exists k: nat :: OwnsSince(evs, n, a, x, k)
  }

  /** Event k opened x with an address, and since then x was not closed with one. */
  ghost predicate OpenSince(evs: seq<Event>, n: nat, x: nat, k: nat) {
    && k < n <= |evs| && evs[k].op != Close && evs[k].cpu != 0 && evs[k].handle == x
    && forall j | k < j < n :: !(evs[j].op == Close && evs[j].cpu != 0 && evs[j].handle == x)
  }

  ghost predicate IsOpen(evs: seq<Event>, n: nat, x: nat) {
    exists k: nat :: OpenSince(evs, n, x, k)
  }

  /** Event n opens a handle at the address of x, another handle that is still open. */
  ghost predicate Clash(evs: seq<Event>, n: nat, x: nat) {
    n < |evs| && OpensAt(evs[n], evs[n].cpu) && x != evs[n].handle && Owns(evs, n, evs[n].cpu, x) && IsOpen(evs, n, x)
  }

  /** The entry for event n and the old owner x. */
  ghost predicate EntryFor(evs: seq<Event>, n: nat, x: nat, o: Overlap) {
    Clash(evs, n, x) && o == Overlap(evs[n].cpu, x, evs[n].handle, n + 1)
  }

  ghost predicate IsEntry(evs: seq<Event>, n: nat, o: Overlap) {
    exists k: nat, x: nat :: k < n && EntryFor(evs, k, x, o)
  }

  /** The list has an entry for every clash among the first n events, for nothing else, and in order. */
  ghost predicate ListExact(evs: seq<Event>, n: nat, overlap: seq<Overlap>) {
    && (forall o :: o in overlap <==> IsEntry(evs, n, o))
    && forall i, j | 0 <= i < j < |overlap| :: overlap[i].order < overlap[j].order
  }

  lemma OwnsNext(evs: seq<Event>, n: nat, a: nat, x: nat)
    requires n < |evs|
    ensures Owns(evs, n + 1, a, x) <==>
            if OpensAt(evs[n], a) then x == evs[n].handle else Owns(evs, n, a, x) && evs[n] != Event(Close, x, a)
  {
    var next := n + 1;
    if OpensAt(evs[n], a) {
      assert x == evs[n].handle ==> OwnsSince(evs, next, a, x, n);
    } else {
      forall k: nat ensures OwnsSince(evs, next, a, x, k) <==> OwnsSince(evs, n, a, x, k) && evs[n] != Event(Close, x, a) {
      }
    }
  }

  lemma OpenNext(evs: seq<Event>, n: nat, x: nat)
    requires n < |evs|
    ensures IsOpen(evs, n + 1, x) <==>
            if evs[n].cpu == 0 || evs[n].handle != x then IsOpen(evs, n, x) else evs[n].op != Close
  {
    var e, next := evs[n], n + 1;
    if e.cpu != 0 && e.handle == x && e.op != Close {
      assert OpenSince(evs, next, x, n);
    } else {
      forall k: nat ensures OpenSince(evs, next, x, k) <==>
          OpenSince(evs, n, x, k) && !(e.op == Close && e.cpu != 0 && e.handle == x)
      {
      }
    }
  }

  lemma OneOwner(evs: seq<Event>, n: nat, a: nat, x: nat, y: nat)
    requires Owns(evs, n, a, x) && Owns(evs, n, a, y)
    ensures x == y
  {
    var k: nat :| OwnsSince(evs, n, a, x, k);
    var l: nat :| OwnsSince(evs, n, a, y, l);
  }

  /** owner and live say who owns an address and who is open. */
  ghost predicate StateExact(evs: seq<Event>, n: nat, owner: map<nat, nat>, live: set<nat>) {
    && (forall a: nat, x: nat :: Owned(owner, a, x) <==> Owns(evs, n, a, x))
    && forall x: nat :: x in live <==> IsOpen(evs, n, x)
  }

  predicate Owned(owner: map<nat, nat>, a: nat, x: nat) {
    a in owner && owner[a] == x
  }

  function OwnersAfter(owner: map<nat, nat>, e: Event): map<nat, nat> {
    if e.cpu == 0 then owner
    else if e.op != Close then owner[e.cpu := e.handle]
    else if e.cpu in owner && owner[e.cpu] == e.handle then owner - {e.cpu} else owner
  }

  function LiveAfter(live: set<nat>, e: Event): set<nat> {
    if e.cpu == 0 then live else if e.op == Close then live - {e.handle} else live + {e.handle}
  }

  lemma StateStep(evs: seq<Event>, n: nat, owner: map<nat, nat>, live: set<nat>)
    requires n < |evs| && StateExact(evs, n, owner, live)
    ensures StateExact(evs, n + 1, OwnersAfter(owner, evs[n]), LiveAfter(live, evs[n]))
  {
    var next, owner' := n + 1, OwnersAfter(owner, evs[n]);
    forall a: nat, x: nat ensures Owned(owner', a, x) <==> Owns(evs, next, a, x) {
      OwnsNext(evs, n, a, x);
      assert Owned(owner, a, x) <==> Owns(evs, n, a, x);
      NullOwnsNothing(evs, n, x);
    }
    forall x: nat ensures x in LiveAfter(live, evs[n]) <==> IsOpen(evs, next, x) {
      OpenNext(evs, n, x);
    }
  }

  lemma NullOwnsNothing(evs: seq<Event>, n: nat, x: nat)
    ensures !Owns(evs, n, 0, x)
  {
  }

  /** The test of the pass, and the entry it adds. */
  ghost function ListAfter(overlap: seq<Overlap>, owner: map<nat, nat>, live: set<nat>, e: Event, n: nat): seq<Overlap> {
    if e.cpu != 0 && e.op != Close && e.cpu in owner && owner[e.cpu] != e.handle && owner[e.cpu] in live
    then overlap + [Overlap(e.cpu, owner[e.cpu], e.handle, n + 1)] else overlap
  }

  lemma EntryNext(evs: seq<Event>, n: nat, owner: map<nat, nat>, live: set<nat>, o: Overlap)
    requires n < |evs| && StateExact(evs, n, owner, live)
    ensures IsEntry(evs, n + 1, o) <==> IsEntry(evs, n, o) || o in ListAfter([], owner, live, evs[n], n)
  {
    var e := evs[n];
    if o in ListAfter([], owner, live, e, n) {
      var x := owner[e.cpu];
      assert Owned(owner, e.cpu, x);
      assert EntryFor(evs, n, x, o);
    }
    if IsEntry(evs, n + 1, o) && !IsEntry(evs, n, o) {
      var k: nat, x: nat :| k < n + 1 && EntryFor(evs, k, x, o);
      assert k == n;
      assert Owned(owner, e.cpu, x);
    }
  }

  lemma ListStep(evs: seq<Event>, n: nat, owner: map<nat, nat>, live: set<nat>, overlap: seq<Overlap>)
    requires n < |evs| && StateExact(evs, n, owner, live) && ListExact(evs, n, overlap)
    ensures ListExact(evs, n + 1, ListAfter(overlap, owner, live, evs[n], n))
  {
    var after := ListAfter(overlap, owner, live, evs[n], n);
    assert after == overlap + ListAfter([], owner, live, evs[n], n);
    forall o ensures o in after <==> IsEntry(evs, n + 1, o) {
      EntryNext(evs, n, owner, live, o);
    }
    forall o | o in overlap ensures o.order <= n {
      var k: nat, x: nat :| k < n && EntryFor(evs, k, x, o);
    }
  }

  // ----- Regular traces

  /** The last event that opened something at a opened x. */
  ghost predicate LastOpener(evs: seq<Event>, n: nat, a: nat, x: nat) {
    exists k: nat :: LastOpenerAt(evs, n, a, x, k)
  }

  ghost predicate LastOpenerAt(evs: seq<Event>, n: nat, a: nat, x: nat, k: nat) {
    k < n <= |evs| && OpensAt(evs[k], a) && evs[k].handle == x && forall j | k < j < n :: !OpensAt(evs[j], a)
  }

  lemma LastOpenerNext(evs: seq<Event>, n: nat, a: nat, x: nat)
    requires n < |evs|
    ensures LastOpener(evs, n + 1, a, x) <==> if OpensAt(evs[n], a) then x == evs[n].handle else LastOpener(evs, n, a, x)
  {
    var next := n + 1;
    if OpensAt(evs[n], a) {
      assert x == evs[n].handle ==> LastOpenerAt(evs, next, a, x, n);
    } else {
      forall k: nat ensures LastOpenerAt(evs, next, a, x, k) <==> LastOpenerAt(evs, n, a, x, k) {
      }
    }
  }

  /** The last opener of an address that holds it still: that is its owner. */
  ghost predicate Holds(evs: seq<Event>, n: nat, a: nat, x: nat)
    requires n <= |evs|
  {
    LastOpener(evs, n, a, x) && x in Held(evs, n) && Held(evs, n)[x] == a
  }

  lemma {:induction false} OwnerHolds(evs: seq<Event>, n: nat, a: nat, x: nat)
    requires n <= |evs| && Regular(evs)
    ensures Owns(evs, n, a, x) <==> Holds(evs, n, a, x)
    ensures IsOpen(evs, n, x) <==> x in Held(evs, n)
    ensures x in Held(evs, n) ==> Held(evs, n)[x] != 0
  {
    if n > 0 {
      var m := n - 1;
      OwnerHolds(evs, m, a, x);
      OwnsNext(evs, m, a, x);
      OpenNext(evs, m, x);
      LastOpenerNext(evs, m, a, x);
      assert RegularAt(evs, m);
    }
  }

  /** On a regular trace a clash is an opening at an address whose last opener is another handle that still holds it. */
  lemma ClashExactly(evs: seq<Event>, n: nat, x: nat)
    requires Regular(evs) && n < |evs|
    ensures Clash(evs, n, x) <==>
            evs[n].op != Close && evs[n].cpu != 0 && x != evs[n].handle && Holds(evs, n, evs[n].cpu, x)
  {
    OwnerHolds(evs, n, evs[n].cpu, x);
  }

  /**
   analyze. On every trace the list has an entry for every clash, for nothing else, and in order, and `reuse` lists
   exactly the handles ever opened at each address. On a regular trace the list is empty exactly if at no moment two
   open handles held the same address, and every entry names two handles that do hold that address then.
   */
  method Analyze(evs: seq<Event>) returns (overlap: seq<Overlap>, reuse: map<nat, set<nat>>)
    ensures ListExact(evs, |evs|, overlap)
    ensures Regular(evs) ==> (overlap == [] <==> NeverShared(evs, |evs|))
    ensures Regular(evs) ==> forall o | o in overlap :: Reported(evs, o)
    ensures ReuseExact(evs, |evs|, reuse)
  {
    var owner: map<nat, nat>, live: set<nat> := map[], {};
    overlap, reuse := [], map[];
    for n := 0 to |evs|
      invariant StateExact(evs, n, owner, live) && ListExact(evs, n, overlap)
      invariant Watched(evs, n, owner, live, overlap)
      invariant ReuseExact(evs, n, reuse)
    {
      ghost var owner0, live0, overlap0 := owner, live, overlap;
      var e := evs[n];
      ReuseStep(evs, n, reuse);
      StateStep(evs, n, owner, live);
      ListStep(evs, n, owner, live, overlap);
      WatchStep(evs, n, owner, live, overlap);
      if e.cpu == 0 {
        continue;
      }
      if e.op == Close {
        live := live - {e.handle};
        if e.cpu in owner && owner[e.cpu] == e.handle {
          owner := owner - {e.cpu};
        }
      } else {
        if e.cpu in owner && owner[e.cpu] != e.handle && owner[e.cpu] in live {
          overlap := overlap + [Overlap(e.cpu, owner[e.cpu], e.handle, n + 1)];
        }
        owner, live := owner[e.cpu := e.handle], live + {e.handle};
        reuse := Reuse(reuse, e);
      }
    }
  }

  /** What the pass knows of a regular trace after n events. */
  ghost predicate Watched(evs: seq<Event>, n: nat, owner: map<nat, nat>, live: set<nat>, overlap: seq<Overlap>)
    requires n <= |evs|
  {
    Regular(evs) ==>
      && Consistent(Held(evs, n), owner, live, overlap == []) && (overlap == [] <==> NeverShared(evs, n))
      && forall o | o in overlap :: Reported(evs, o)
  }

  lemma WatchStep(evs: seq<Event>, n: nat, owner: map<nat, nat>, live: set<nat>, overlap: seq<Overlap>)
    requires n < |evs| && Watched(evs, n, owner, live, overlap)
    ensures Watched(evs, n + 1, OwnersAfter(owner, evs[n]), LiveAfter(live, evs[n]), ListAfter(overlap, owner, live, evs[n], n))
  {
    if Regular(evs) {
      var h, clean, e := Held(evs, n), overlap == [], evs[n];
      var after := ListAfter(overlap, owner, live, e, n);
      assert RegularAt(evs, n);
      if e.cpu == 0 {
        assert Held(evs, n + 1) == h;
      } else if e.op == Close {
        CloseStep(h, owner, live, clean, e);
      } else {
        OpenStep(h, owner, live, clean, e);
        assert Held(evs, n + 1) == h[e.handle := e.cpu];
      }
      if after == [] {
        CleanIsNotShared(Held(evs, n + 1), OwnersAfter(owner, e), LiveAfter(live, e));
      }
      NextMoment(evs, n);
    }
  }

  lemma NextMoment(evs: seq<Event>, n: nat)
    requires n < |evs|
    ensures NeverShared(evs, n + 1) <==> NeverShared(evs, n) && !Shared(Held(evs, n + 1))
  {
  }

  /** Three handles opened at one address: two entries. */
  method ListsBoth() returns (overlap: seq<Overlap>)
    ensures overlap == [Overlap(0xA000, 1, 2, 2), Overlap(0xA000, 2, 3, 3)]
  {
    var reuse;
    var evs := [Event(Create, 1, 0xA000), Event(Create, 2, 0xA000), Event(Create, 3, 0xA000)];
    overlap, reuse := Analyze(evs);
    ThreeClash(evs, overlap);
  }

  lemma ThreeClash(evs: seq<Event>, overlap: seq<Overlap>)
    requires evs == [Event(Create, 1, 0xA000), Event(Create, 2, 0xA000), Event(Create, 3, 0xA000)]
    requires ListExact(evs, 3, overlap)
    ensures overlap == [Overlap(0xA000, 1, 2, 2), Overlap(0xA000, 2, 3, 3)]
  {
    var a, b := Overlap(0xA000, 1, 2, 2), Overlap(0xA000, 2, 3, 3);
    assert OwnsSince(evs, 1, 0xA000, 1, 0) && OpenSince(evs, 1, 1, 0) && EntryFor(evs, 1, 1, a);
    assert OwnsSince(evs, 2, 0xA000, 2, 1) && OpenSince(evs, 2, 2, 1) && EntryFor(evs, 2, 2, b);
    assert a in overlap && b in overlap;
    forall o | o in overlap ensures o == a || o == b {
      var k: nat, x: nat :| k < 3 && EntryFor(evs, k, x, o);
      if k > 0 {
        OneOwner(evs, k, 0xA000, x, k);
      }
    }
    TwoInOrder(overlap, a, b);
  }

  lemma TwoInOrder(s: seq<Overlap>, a: Overlap, b: Overlap)
    requires a in s && b in s && a.order < b.order && forall o | o in s :: o == a || o == b
    requires forall i, j | 0 <= i < j < |s| :: s[i].order < s[j].order
    ensures s == [a, b]
  {
    var i :| 0 <= i < |s| && s[i] == a;
    var j :| 0 <= j < |s| && s[j] == b;
    forall k | 0 <= k < |s| ensures k <= j && (k < j ==> s[k] == a) {
      assert s[k] in s;
    }
    assert |s| == j + 1 by { assert s[|s| - 1] in s; }
    assert s[0] == a && s[j - 1] == a;
    assert j == 1;
  }
}
