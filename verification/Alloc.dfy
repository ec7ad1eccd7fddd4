/**
 The bump allocator of tools/dl-hosttest/shim.c (malloc, calloc, realloc, free) over its fixed heap. A pointer is
 an offset into the heap; in front of each block lies a word holding its capacity.
 */
module Alloc {

  import opened LittleEndian

  datatype Option<T> = None | Some(value: T)

  const SIZE: nat := 0x200_0000
  const WORDS: nat := 0x1_0000_0000_0000_0000

  /** The room a request takes: with its header, rounded up to sixteen bytes. */
  function Whole(size: nat): nat {
    (size + 23) / 16 * 16
  }

  /** The same in size_t arithmetic. */
  function Rounded(size: nat): nat {
    (size + 23) % WORDS / 16 * 16
  }

  lemma WholeFits(size: nat)
    ensures size + 8 <= Whole(size) <= size + 23 && Whole(size) % 16 == 0
  {
  }

  lemma NoWrap(x: nat)
    requires x < WORDS
    ensures x % WORDS == x
  {
  }

  lemma WrapsOnce(x: nat)
    requires WORDS <= x < 2 * WORDS
    ensures x % WORDS == x - WORDS
  {
  }

  /** What the rounding gives: the room a request takes, or sixteen bytes at most if it wraps. */
  lemma RoundedIs(size: nat)
    requires size < WORDS
    ensures size + 23 < WORDS ==> Rounded(size) == Whole(size)
    ensures size + 23 >= WORDS ==> Rounded(size) == if size + 7 >= WORDS then 16 else 0
  {
    if size + 23 < WORDS {
      NoWrap(size + 23);
    } else {
      WrapsOnce(size + 23);
    }
  }

  /** The block is large enough exactly if the rounding does not wrap. */
  lemma RoundedExactly(size: nat)
    requires size < 0x1_0000_0000_0000_0000
    ensures Rounded(size) >= size + 8 <==> size + 23 < 0x1_0000_0000_0000_0000
  {
    RoundedIs(size);
    WholeFits(size);
  }

  /** For a size whose rounding does not wrap, the code's test is the intended one exactly if the sum does not wrap. */
  lemma TestExactly(used: nat, size: nat)
    requires used <= SIZE && size + 23 < WORDS
    ensures ((used + Rounded(size)) % WORDS > SIZE <==> used + Rounded(size) > SIZE) <==> used + Rounded(size) < WORDS
  {
    var sum := used + Rounded(size);
    RoundedIs(size);
    WholeFits(size);
    if sum < WORDS {
      NoWrap(sum);
    } else {
      WrapsOnce(sum);
    }
  }

  /** Nothing wraps; or the rounding does, and the heap is too full even for what is left of the request. */
  predicate Sound(used: nat, size: nat) {
    if size + 23 < WORDS then used + Whole(size) < WORDS else used + Rounded(size) > SIZE
  }

  /** A request is served right: by room for it up to the new end of the heap, or by NULL if there is none. */
  predicate Served(p: Option<nat>, size: nat, used: nat, used': nat) {
    match p
    case Some(at) => at == used + 8 && at + size <= used' <= SIZE
    case None => used' == used && used + Whole(size) > SIZE
  }

  /** What malloc returns for a size, and heap_used then. */
  function Granted(used: nat, size: nat): (Option<nat>, nat) {
    var sum := (used + Rounded(size)) % WORDS;
    if sum > SIZE then (None, used) else (Some(used + 8), sum)
  }

  /** A request is served right exactly if it is sound. */
  lemma SoundExactly(used: nat, size: nat)
    requires used <= SIZE && size < WORDS
    ensures Served(Granted(used, size).0, size, used, Granted(used, size).1) <==> Sound(used, size)
    ensures Sound(used, size) ==> (Granted(used, size).0.Some? <==> used + Whole(size) <= SIZE)
    ensures Sound(used, size) && Granted(used, size).0.Some? ==>
            Rounded(size) == Whole(size) && Granted(used, size).1 == used + Whole(size)
  {
    var sum := used + Rounded(size);
    RoundedIs(size);
    WholeFits(size);
    if sum < WORDS {
      NoWrap(sum);
    } else {
      WrapsOnce(sum);
    }
  }

  /** For example, a request for 2^64 - 1 bytes gets eight. */
  lemma TooSmall()
    ensures Granted(0, 0xFFFF_FFFF_FFFF_FFFF) == (Some(8), 16) && !Sound(0, 0xFFFF_FFFF_FFFF_FFFF)
  {
    WrapsOnce(WORDS + 22);
    NoWrap(16);
  }

  // ----- Layout

  datatype Block = Block(ptr: nat, cap: nat)

  datatype View = View(mem: seq<byte>, used: nat, blocks: seq<Block>)

  function EndOf(blocks: seq<Block>, i: nat): nat
    requires i <= |blocks|
  {
    if i == 0 then 0 else blocks[i - 1].ptr + blocks[i - 1].cap
  }

  /** Block i starts, header first, where the block before it ends, and its header holds its capacity. */
  ghost predicate Placed(v: View, i: nat)
    requires i < |v.blocks|
  {
    match v.blocks[i]
    case Block(ptr, cap) =>
      ptr == EndOf(v.blocks, i) + 8 && ptr % 16 == 8 && cap % 16 == 8 && ptr + cap <= |v.mem|
      && v.mem[ptr - 8..ptr] == Le64(cap)
  }

  ghost predicate Layout(v: View) {
    match v
    case View(mem, used, blocks) =>
      && used <= |mem| && used % 16 == 0 && used == EndOf(blocks, |blocks|)
      && forall i | 0 <= i < |blocks| :: Placed(v, i)
  }

  /** Earlier blocks end before the header of a later one. */
  lemma {:induction false} BlocksApart(v: View, i: nat, j: nat)
    requires Layout(v) && i < j < |v.blocks|
    ensures v.blocks[i].ptr + v.blocks[i].cap <= v.blocks[j].ptr - 8
    decreases j
  {
    assert Placed(v, j) && Placed(v, j - 1);
    if i < j - 1 {
      BlocksApart(v, i, j - 1);
    }
  }

  /** Every block lies inside the used heap, behind its header. */
  lemma BlockInside(v: View, i: nat)
    requires Layout(v) && i < |v.blocks|
    ensures 8 <= v.blocks[i].ptr && v.blocks[i].ptr + v.blocks[i].cap <= v.used <= |v.mem|
  {
    assert Placed(v, i) && Placed(v, |v.blocks| - 1);
    if i < |v.blocks| - 1 {
      BlocksApart(v, i, |v.blocks| - 1);
    }
  }

  /** The two blocks of any pair share no byte, nor does either hold a byte of the other's header. */
  lemma BlocksDisjoint(v: View, i: nat, j: nat, k: nat)
    requires Layout(v) && i < |v.blocks| && j < |v.blocks| && i != j
    requires v.blocks[i].ptr <= k < v.blocks[i].ptr + v.blocks[i].cap
    ensures !(v.blocks[j].ptr - 8 <= k < v.blocks[j].ptr + v.blocks[j].cap)
  {
    BlockInside(v, i);
    BlockInside(v, j);
    if i < j {
      BlocksApart(v, i, j);
    } else {
      BlocksApart(v, j, i);
    }
  }

  /** Writes that stay inside one block's payload keep the layout. */
  lemma LayoutKept(v: View, i: nat, mem: seq<byte>)
    requires Layout(v) && i < |v.blocks| && |mem| == |v.mem|
    requires forall k | 0 <= k < |mem| && mem[k] != v.mem[k] ::
      v.blocks[i].ptr <= k < v.blocks[i].ptr + v.blocks[i].cap
    ensures Layout(v.(mem := mem))
  {
    forall j | 0 <= j < |v.blocks| ensures Placed(v.(mem := mem), j) {
      var b := v.blocks[j];
      assert Placed(v, j);
      forall k | b.ptr - 8 <= k < b.ptr ensures mem[k] == v.mem[k] {
        if mem[k] != v.mem[k] && j != i {
          BlocksDisjoint(v, i, j, k);
        }
      }
      assert mem[b.ptr - 8..b.ptr] == v.mem[b.ptr - 8..b.ptr];
    }
  }

  lemma PlacedKept(v: View, w: View, j: nat)
    requires j < |v.blocks| <= |w.blocks| && Placed(v, j) && v.blocks[..j + 1] == w.blocks[..j + 1]
    requires |w.mem| == |v.mem| && forall k | 0 <= k < v.blocks[j].ptr :: w.mem[k] == v.mem[k]
    ensures Placed(w, j)
  {
    var b := v.blocks[j];
    assert w.blocks[..j + 1][j] == b;
    assert j > 0 ==> w.blocks[j - 1] == w.blocks[..j + 1][j - 1] == v.blocks[..j + 1][j - 1];
    assert w.mem[b.ptr - 8..b.ptr] == v.mem[b.ptr - 8..b.ptr];
  }

  lemma OldPlaced(v: View, w: View, j: nat)
    requires Layout(v) && j < |v.blocks| && |w.mem| == |v.mem| && v.blocks <= w.blocks
    requires forall k | 0 <= k < v.used :: w.mem[k] == v.mem[k]
    ensures Placed(w, j)
  {
    BlockInside(v, j);
    assert w.blocks[..j + 1] == v.blocks[..j + 1];
    assert Placed(v, j);
    PlacedKept(v, w, j);
  }

  lemma Sixteens(used: nat, total: nat)
    requires used % 16 == 0 && total % 16 == 0 && total >= 16
    ensures (used + 8) % 16 == 8 && (total - 8) % 16 == 8 && (used + total) % 16 == 0
  {
  }

  lemma NewPlaced(v: View, w: View, b: Block)
    requires w.blocks == v.blocks + [b] && v.used == EndOf(v.blocks, |v.blocks|) && b.ptr == v.used + 8
    requires b.ptr % 16 == 8 && b.cap % 16 == 8 && b.ptr + b.cap <= |w.mem| && w.mem[v.used..b.ptr] == Le64(b.cap)
    ensures Placed(w, |v.blocks|)
  {
  }

  /** A header behind the used part adds a block. */
  lemma LayoutGrows(v: View, w: View, total: nat)
    requires Layout(v) && total % 16 == 0 && 16 <= total && v.used + total <= |w.mem| == |v.mem|
    requires w.used == v.used + total && w.blocks == v.blocks + [Block(v.used + 8, total - 8)]
    requires w.mem[v.used..v.used + 8] == Le64(total - 8)
    requires forall k | 0 <= k < v.used :: w.mem[k] == v.mem[k]
    ensures Layout(w)
  {
    Sixteens(v.used, total);
    NewPlaced(v, w, Block(v.used + 8, total - 8));
    forall j | 0 <= j < |v.blocks| ensures Placed(w, j) {
      OldPlaced(v, w, j);
    }
  }

  // ----- The heap

  /** Only bytes from lo up to hi differ. */
  ghost predicate OnlyChanged(before: seq<byte>, after: seq<byte>, lo: int, hi: int) {
    |before| == |after| && forall k | 0 <= k < |before| && before[k] != after[k] :: lo <= k < hi
  }

  lemma SliceKept(a: seq<byte>, b: seq<byte>, lo: int, hi: int, i: nat, j: nat)
    requires OnlyChanged(a, b, lo, hi) && i <= j <= |a| && j <= lo
    ensures a[i..j] == b[i..j]
  {
  }

  lemma ChangedTwice(a: seq<byte>, b: seq<byte>, c: seq<byte>, lo: int, mid: int, hi: int)
    requires OnlyChanged(a, b, lo, mid) && OnlyChanged(b, c, mid, hi) && lo <= mid <= hi
    ensures OnlyChanged(a, c, lo, hi)
  {
  }

  /** One more block, at p and of at least the given size, fills the heap up to its new end. */
  ghost predicate Added(v: View, w: View, p: nat, size: nat) {
    p == v.used + 8 && p + size <= w.used && w.blocks == v.blocks + [Block(p, w.used - p)]
  }

  /** The bytes at p are those block i had, up to the smaller of its capacity and the size. */
  ghost predicate Copied(v: View, mem: seq<byte>, i: nat, p: nat, size: nat) {
    i < |v.blocks| &&
    var b := v.blocks[i];
    var n := if b.cap < size then b.cap else size;
    b.ptr + n <= |v.mem| && p + n <= |mem| && mem[p..p + n] == v.mem[b.ptr..b.ptr + n]
  }

  /** The bytes nmemb members need, and the product in size_t arithmetic. */
  function Bulk(nmemb: nat, size: nat): nat {
    nmemb * size
  }

  function Product(nmemb: nat, size: nat): nat {
    Bulk(nmemb, size) % WORDS
  }

  /** The product is sound, and it does not wrap or is refused all the same. */
  predicate SoundProduct(used: nat, nmemb: nat, size: nat) {
    && Sound(used, Product(nmemb, size))
    && (Bulk(nmemb, size) < WORDS || used + Whole(Product(nmemb, size)) > SIZE)
  }

  lemma ProductExactly(p: Option<nat>, nmemb: nat, size: nat, used: nat, used': nat)
    requires Sound(used, Product(nmemb, size)) && Served(p, Product(nmemb, size), used, used')
    requires p.Some? <==> used + Whole(Product(nmemb, size)) <= SIZE
    ensures Served(p, Bulk(nmemb, size), used, used') <==> SoundProduct(used, nmemb, size)
  {
    var n := Bulk(nmemb, size);
    if n < WORDS {
      NoWrap(n);
    } else {
      WholeFits(n);
    }
  }

  lemma ProductIs(used: nat, nmemb: nat, size: nat)
    requires SoundProduct(used, nmemb, size)
    ensures used + Whole(Product(nmemb, size)) <= SIZE <==> used + Whole(Bulk(nmemb, size)) <= SIZE
    ensures used + Whole(Bulk(nmemb, size)) <= SIZE ==> Product(nmemb, size) == Bulk(nmemb, size)
  {
    if Bulk(nmemb, size) < WORDS {
      NoWrap(Bulk(nmemb, size));
    } else {
      WholeFits(Bulk(nmemb, size));
    }
  }

  /** n bytes from p on are zero. */
  ghost predicate Zeroes(mem: seq<byte>, p: nat, n: nat) {
    p + n <= |mem| && mem[p..p + n] == seq(n, _ => 0)
  }

  /** One more block, at p, with n zero bytes, and no other byte but its header changed. */
  ghost predicate Cleared(v: View, w: View, p: nat, n: nat) {
    && w.used == v.used + Whole(n) && Added(v, w, p, n) && Zeroes(w.mem, p, n) && OnlyChanged(v.mem, w.mem, v.used, p + n)
  }

  /** A cleared block exactly if one fits, else nothing. */
  ghost predicate AsAsked(v: View, w: View, p: Option<nat>, need: nat) {
    match p
    case Some(at) => v.used + Whole(need) <= SIZE && Cleared(v, w, at, need)
    case None => v.used + Whole(need) > SIZE && w == v
  }

  class Heap {
    const heap: array<byte>
    var heapUsed: nat
    ghost var blocks: seq<Block>

    ghost function Now(): View
      reads this, heap
    {
      View(heap[..], heapUsed, blocks)
    }

    ghost predicate Valid()
      reads this, heap
    {
      heap.Length == SIZE && Layout(Now())
    }

    /** What malloc itself relies on. */
    ghost predicate Ready()
      reads this
    {
      heap.Length == SIZE && heapUsed <= SIZE
    }

    constructor ()
      ensures Valid() && blocks == [] && heapUsed == 0 && fresh(heap)
    {
      heap := new byte[SIZE](_ => 0);
      heapUsed := 0;
      blocks := [];
    }

    /** blk[0] = v: a word stored little-endian. */
    method WriteWord(at: nat, v: nat)
      requires at + 8 <= heap.Length
      modifies heap
      ensures heap[at..at + 8] == Le64(v) && OnlyChanged(old(heap[..]), heap[..], at, at + 8)
    {
      var s := Le64(v);
      for i := 0 to 8
        invariant forall k | 0 <= k < i :: heap[at + k] == s[k]
        invariant OnlyChanged(old(heap[..]), heap[..], at, at + i)
      {
        heap[at + i] := s[i];
      }
      assert heap[at..at + 8] == s;
    }

    /**
     malloc, for every size, except where it would write behind the heap. A sound request, and no other, is served
     right: by a new block behind all others exactly if one fits, else by NULL with nothing changed. Only the word in
     front of the block is written.
     */
    method Malloc(size: nat) returns (p: Option<nat>)
      requires Ready() && size < WORDS && (heapUsed + 8 <= SIZE || Sound(heapUsed, size))
      modifies this, heap
      ensures Ready() && (p, heapUsed) == Granted(old(heapUsed), size)
      ensures Served(p, size, old(heapUsed), heapUsed) <==> Sound(old(heapUsed), size)
      ensures Sound(old(heapUsed), size) ==>
              (p.Some? <==> old(heapUsed) + Whole(size) <= SIZE) && (old(Valid()) ==> Valid())
      ensures Sound(old(heapUsed), size) && p.Some? ==>
              heapUsed == old(heapUsed) + Whole(size) && Added(old(Now()), Now(), p.value, size)
      ensures p.None? ==> Now() == old(Now())
      ensures p.Some? ==> OnlyChanged(old(heap[..]), heap[..], p.value - 8, p.value)
    {
      var total := Rounded(size);
      SoundExactly(heapUsed, size);
      WholeFits(size);
      if (heapUsed + total) % WORDS > heap.Length {
        return None;
      }
      ghost var v := Now();
      var blk := heapUsed;
      heapUsed := (heapUsed + total) % WORDS;
      WriteWord(blk, (total - 8) % WORDS);
      if Sound(blk, size) {
        NewBlock(v, total);
      }
      p := Some(blk + 8);
    }

    /** The new block is one of the blocks. */
    ghost method NewBlock(v: View, total: nat)
      requires Ready() && blocks == v.blocks && |v.mem| == SIZE && total % 16 == 0 && 16 <= total < WORDS
      requires heapUsed == v.used + total && heap[v.used..v.used + 8] == Le64((total - 8) % WORDS)
      requires OnlyChanged(v.mem, heap[..], v.used, v.used + 8)
      modifies this`blocks
      ensures blocks == v.blocks + [Block(v.used + 8, total - 8)] && (Layout(v) ==> Valid())
    {
      blocks := blocks + [Block(v.used + 8, total - 8)];
      NoWrap(total - 8);
      assert heap[..][v.used..v.used + 8] == heap[v.used..v.used + 8];
      if Layout(v) {
        LayoutGrows(v, Now(), total);
      }
    }

    /** memset and memcpy inside the payload of the newest block. */
    method Fill(at: nat, s: seq<byte>)
      requires Valid() && blocks != [] && at == blocks[|blocks| - 1].ptr && |s| <= blocks[|blocks| - 1].cap
      modifies heap
      ensures Valid() && at + |s| <= heap.Length && heap[at..at + |s|] == s
      ensures OnlyChanged(old(heap[..]), heap[..], at, at + |s|)
    {
      ghost var v := Now();
      BlockInside(v, |blocks| - 1);
      for i := 0 to |s|
        invariant forall k | 0 <= k < i :: heap[at + k] == s[k]
        invariant OnlyChanged(v.mem, heap[..], at, at + i)
      {
        heap[at + i] := s[i];
      }
      assert heap[at..at + |s|] == s;
      LayoutKept(v, |blocks| - 1, heap[..]);
    }

    /** The block of calloc, for the product it has computed. */
    method ZeroBlock(n: nat) returns (p: Option<nat>)
      requires Valid() && n < WORDS && Sound(heapUsed, n)
      modifies this, heap
      ensures Valid() && (p.Some? <==> old(heapUsed) + Whole(n) <= SIZE) && Served(p, n, old(heapUsed), heapUsed)
      ensures p.None? ==> Now() == old(Now())
      ensures p.Some? ==> Cleared(old(Now()), Now(), p.value, n)
    {
      ghost var v := Now();
      p := Malloc(n);
      if p.Some? {
        ghost var mem := heap[..];
        Fill(p.value, seq(n, _ => 0));
        ChangedTwice(v.mem, mem, heap[..], p.value - 8, p.value, p.value + n);
        assert heap[..][p.value..p.value + n] == heap[p.value..p.value + n];
      }
    }

    /**
     calloc: as malloc for the product in size_t arithmetic, with that many bytes zero. It is served right exactly if
     the product does not wrap or is refused all the same.
     */
    method Calloc(nmemb: nat, size: nat) returns (p: Option<nat>)
      requires Valid() && nmemb < WORDS && size < WORDS && Sound(heapUsed, Product(nmemb, size))
      modifies this, heap
      ensures Valid() && (p.Some? <==> old(heapUsed) + Whole(Product(nmemb, size)) <= SIZE)
      ensures Served(p, Bulk(nmemb, size), old(heapUsed), heapUsed) <==> SoundProduct(old(heapUsed), nmemb, size)
      ensures p.None? ==> Now() == old(Now())
      ensures p.Some? ==> Cleared(old(Now()), Now(), p.value, Product(nmemb, size))
      ensures SoundProduct(old(heapUsed), nmemb, size) ==> AsAsked(old(Now()), Now(), p, Bulk(nmemb, size))
    {
      ghost var used := heapUsed;
      p := ZeroBlock(Product(nmemb, size));
      ProductExactly(p, nmemb, size, used, heapUsed);
      if SoundProduct(used, nmemb, size) {
        ProductIs(used, nmemb, size);
      }
    }

    /**
     realloc: a new block that starts with the old contents up to the smaller of old capacity and new size. The
     old block and all others keep every byte.
     */
    method Realloc(ptr: Option<nat>, size: nat, ghost i: nat) returns (p: Option<nat>)
      requires Valid() && size < WORDS && Sound(heapUsed, size)
      requires ptr.Some? ==> i < |blocks| && ptr.value == blocks[i].ptr
      modifies this, heap
      ensures Valid() && (p.Some? <==> old(heapUsed) + Whole(size) <= SIZE)
      ensures p.None? ==> Now() == old(Now())
      ensures p.Some? ==> heapUsed == old(heapUsed) + Whole(size) && Added(old(Now()), Now(), p.value, size)
      ensures p.Some? ==> OnlyChanged(old(heap[..]), heap[..], old(heapUsed), p.value + size)
      ensures p.Some? && ptr.Some? ==> Copied(old(Now()), heap[..], i, p.value, size)
    {
      ghost var v := Now();
      p := Malloc(size);
      if p.Some? && ptr.Some? {
        CopyOld(ptr.value, p.value, size, i, v);
      }
    }

    /** The copy, seen from before the new block was there. */
    method CopyOld(ptr: nat, p: nat, size: nat, ghost i: nat, ghost v: View)
      requires Valid() && Layout(v) && |v.mem| == SIZE && i < |v.blocks| && ptr == v.blocks[i].ptr
      requires Added(v, Now(), p, size) && OnlyChanged(v.mem, heap[..], v.used, p)
      modifies heap
      ensures Valid() && Added(v, Now(), p, size)
      ensures OnlyChanged(v.mem, heap[..], v.used, p + size) && Copied(v, heap[..], i, p, size)
    {
      ghost var mem := heap[..];
      BlockInside(v, i);
      assert v.blocks[i] == blocks[i];
      ghost var n := CopyOver(ptr, p, size, i);
      ChangedTwice(v.mem, mem, heap[..], v.used, p, p + size);
      SliceKept(v.mem, mem, v.used, p, ptr, ptr + n);
      assert heap[..][p..p + n] == heap[p..p + n];
    }

    /** The copy realloc makes into its new block. */
    method CopyOver(ptr: nat, p: nat, size: nat, ghost i: nat) returns (ghost n: nat)
      requires Valid() && i < |blocks| - 1 && ptr == blocks[i].ptr
      requires p == blocks[|blocks| - 1].ptr && size <= blocks[|blocks| - 1].cap
      modifies heap
      ensures Valid() && n == (if blocks[i].cap < size then blocks[i].cap else size)
      ensures ptr + n <= p - 8 && p + n <= SIZE && heap[p..p + n] == old(heap[..])[ptr..ptr + n]
      ensures OnlyChanged(old(heap[..]), heap[..], p, p + size)
    {
      BlockInside(Now(), i);
      BlockInside(Now(), |blocks| - 1);
      BlocksApart(Now(), i, |blocks| - 1);
      var cap := ReadWord(ptr - 8, blocks[i].cap, i);
      var length := if cap < size then cap else size;
      n := length;
      assert heap[ptr..ptr + length] == heap[..][ptr..ptr + length];
      Fill(p, heap[ptr..ptr + length]);
    }

    /** ((size_t *)ptr)[-1] is the block's capacity. */
    method ReadWord(at: nat, ghost cap: nat, ghost i: nat) returns (w: nat)
      requires Valid() && i < |blocks| && blocks[i] == Block(at + 8, cap)
      ensures w == cap
    {
      BlockInside(Now(), i);
      assert Placed(Now(), i);
      w := U64(heap[at..at + 8], 0);
      assert heap[at..at + 8][0..8] == heap[..][at..at + 8];
      Reads64(heap[at..at + 8], 0, cap);
    }

    /** What a caller may do with its block between the calls. */
    method Store(ptr: nat, offset: nat, x: byte, ghost i: nat)
      requires Valid() && i < |blocks| && ptr == blocks[i].ptr && offset < blocks[i].cap
      modifies heap
      ensures Valid() && ptr + offset < SIZE && heap[..] == old(heap[..])[ptr + offset := x]
    {
      ghost var v := Now();
      BlockInside(v, i);
      heap[ptr + offset] := x;
      LayoutKept(v, i, heap[..]);
    }
  }

  /** For example, 16 bytes used and 2^64 - 16 more make none: after such a request the first block is handed out again. */
  method HandedOutTwice() returns (first: Option<nat>, second: Option<nat>, third: Option<nat>)
    ensures first == third == Some(8) && second == Some(24)
  {
    var h := new Heap();
    Whole16();
    first := h.Malloc(1);
    second := h.Malloc(0xFFFF_FFFF_FFFF_FFE0);
    third := h.Malloc(1);
  }

  lemma Whole16()
    ensures Granted(0, 1) == (Some(8), 16) && Granted(16, WORDS - 32) == (Some(24), 0)
  {
    NoWrap(24);
    NoWrap(16);
    NoWrap(WORDS - 9);
    WrapsOnce(WORDS);
  }

  /** For example, 2^63 members of two bytes make none. */
  lemma ProductWraps()
    ensures Product(WORDS / 2, 2) == 0 && Sound(0, 0) && !SoundProduct(0, WORDS / 2, 2)
  {
    WrapsOnce(WORDS);
  }

  // ----- Whole runs

  /** A call, or a write of the caller into what an earlier call returned; realloc takes that, too. */
  datatype Request =
    | CallMalloc(size: nat)
    | CallCalloc(nmemb: nat, size: nat)
    | CallRealloc(which: nat, size: nat)
    | Write(which: nat, offset: nat, x: byte)

  function Need(r: Request): nat {
    match r
    case CallMalloc(size) => size
    case CallCalloc(nmemb, size) => Bulk(nmemb, size)
    case CallRealloc(_, size) => size
    case Write(_, _, _) => 0
  }

  /** heap_used after one more request. */
  function UsedThen(used: nat, r: Request): nat {
    if !r.Write? && used + Whole(Need(r)) <= SIZE then used + Whole(Need(r)) else used
  }

  function UsedUpto(reqs: seq<Request>, n: nat): nat
    requires n <= |reqs|
  {
    if n == 0 then 0 else UsedThen(UsedUpto(reqs, n - 1), reqs[n - 1])
  }

  /** Calls that are served right, and writes inside what was asked for. */
  ghost predicate Callable(reqs: seq<Request>, n: nat)
    requires n < |reqs|
  {
    var used := UsedUpto(reqs, n);
    match reqs[n]
    case CallMalloc(size) => size < WORDS && Sound(used, size)
    case CallCalloc(nmemb, size) => nmemb < WORDS && size < WORDS && SoundProduct(used, nmemb, size)
    case CallRealloc(which, size) => size < WORDS && Sound(used, size) && which < n
    case Write(which, offset, _) => which < n && offset < Need(reqs[which])
  }

  /** What the caller knows of a block: the bytes it wrote, calloc zeroed or realloc copied. */
  type Bytes = map<nat, byte>

  function Zeroed(n: nat): (z: Bytes)
    ensures forall k :: k in z <==> 0 <= k < n
    ensures forall k | k in z :: z[k] == 0
  {
    if n == 0 then map[] else
    var m: Bytes := Zeroed(n - 1)[n - 1 := 0];
    m
  }

  function CutOff(m: Bytes, n: nat): Bytes {
    map k | k in m && k < n :: m[k]
  }

  function Put(known: seq<Bytes>, which: nat, offset: nat, x: byte): seq<Bytes>
    requires which < |known|
  {
    var m: Bytes := known[which][offset := x];
    known[which := m]
  }

  /** What the caller knows of each result after one more request, as if every block were a memory of its own. */
  function Known(r: Request, p: Option<nat>, ptrs: seq<Option<nat>>, known: seq<Bytes>): seq<Bytes>
    requires |known| == |ptrs|
  {
    match r
    case CallMalloc(_) => known + [map[]]
    case CallCalloc(_, _) => known + [if p.Some? then Zeroed(Need(r)) else map[]]
    case CallRealloc(which, size) =>
      known + [if p.Some? && which < |ptrs| && ptrs[which].Some? then CutOff(known[which], size) else map[]]
    case Write(which, offset, x) =>
      (if which < |ptrs| && ptrs[which].Some? then Put(known, which, offset, x) else known) + [map[]]
  }

  ghost function KnownUpto(reqs: seq<Request>, ptrs: seq<Option<nat>>, n: nat): (k: seq<Bytes>)
    requires n <= |reqs| && n <= |ptrs|
    ensures |k| == n
  {
    if n == 0 then [] else Known(reqs[n - 1], ptrs[n - 1], ptrs[..n - 1], KnownUpto(reqs, ptrs, n - 1))
  }

  /** The memory at p holds the bytes known of a block of that size. */
  ghost predicate Remembers(mem: seq<byte>, p: nat, m: Bytes, need: nat) {
    forall k | k in m :: k < need && p + k < |mem| && mem[p + k] == m[k]
  }

  /** Sizes, results, block numbers and known bytes of the requests so far. */
  datatype Book = Book(needs: seq<nat>, ptrs: seq<Option<nat>>, at: seq<nat>, known: seq<Bytes>)

  ghost predicate Even(b: Book) {
    |b.needs| == |b.ptrs| == |b.at| == |b.known|
  }

  /** Result i is a block of its own, large enough, that holds what is known of it. */
  ghost predicate Entry(v: View, b: Book, i: nat)
    requires Even(b) && i < |b.ptrs|
  {
    b.ptrs[i].Some? ==>
      && b.at[i] < |v.blocks| && v.blocks[b.at[i]].ptr == b.ptrs[i].value && b.needs[i] <= v.blocks[b.at[i]].cap
      && Remembers(v.mem, b.ptrs[i].value, b.known[i], b.needs[i])
  }

  ghost predicate Ascending(b: Book, i: nat, j: nat)
    requires Even(b) && i < |b.ptrs| && j < |b.ptrs|
  {
    b.ptrs[i].Some? && b.ptrs[j].Some? ==> b.at[i] < b.at[j]
  }

  /** The books are right. */
  ghost predicate Right(v: View, b: Book) {
    match b
    case Book(_, ptrs, _, _) =>
      && Layout(v) && |v.mem| == SIZE && Even(b)
      && (forall i: nat {:trigger Entry(v, b, i)} | i < |ptrs| :: Entry(v, b, i))
      && (forall i: nat, j: nat {:trigger Ascending(b, i, j)} | i < j < |ptrs| :: Ascending(b, i, j))
  }

  function Noted(b: Book, which: nat, offset: nat, x: byte): Book
    requires which < |b.known|
  {
    b.(known := Put(b.known, which, offset, x))
  }

  function Add(b: Book, need: nat, p: Option<nat>, at: nat, m: Bytes): Book {
    Book(b.needs + [need], b.ptrs + [p], b.at + [at], b.known + [m])
  }

  lemma AddedAt(b: Book, need: nat, p: Option<nat>, at: nat, m: Bytes, i: nat)
    requires Even(b) && i < |b.ptrs|
    ensures var c := Add(b, need, p, at, m);
            c.needs[i] == b.needs[i] && c.ptrs[i] == b.ptrs[i] && c.at[i] == b.at[i] && c.known[i] == b.known[i]
  {
  }

  /** Nothing below the used part changed, so every entry stands. */
  lemma EntryStands(v: View, w: View, b: Book, i: nat)
    requires Right(v, b) && i < |b.ptrs| && v.blocks <= w.blocks && |w.mem| == |v.mem|
    requires forall k: nat | k < v.used :: w.mem[k] == v.mem[k]
    ensures Entry(w, b, i)
  {
    assert Entry(v, b, i);
    if b.ptrs[i].Some? {
      BlockInside(v, b.at[i]);
    }
  }

  lemma AllAscend(b: Book, need: nat, p: Option<nat>, at: nat, m: Bytes)
    requires Even(b) && forall i: nat, j: nat {:trigger Ascending(b, i, j)} | i < j < |b.ptrs| :: Ascending(b, i, j)
    requires p.Some? ==> forall i: nat | i < |b.ptrs| && b.ptrs[i].Some? :: b.at[i] < at
    ensures var c := Add(b, need, p, at, m);
            forall i: nat, j: nat {:trigger Ascending(c, i, j)} | i < j < |c.ptrs| :: Ascending(c, i, j)
  {
    var c := Add(b, need, p, at, m);
    forall i: nat, j: nat | i < j < |c.ptrs| ensures Ascending(c, i, j) {
      AddedAt(b, need, p, at, m, i);
      if j < |b.ptrs| {
        AddedAt(b, need, p, at, m, j);
        assert Ascending(b, i, j);
      }
    }
  }

  /** A new block at the end, with what is known of it. */
  lemma Grew(v: View, w: View, b: Book, need: nat, block: Block, m: Bytes)
    requires Right(v, b) && Layout(w) && |w.mem| == SIZE && w.blocks == v.blocks + [block] && need <= block.cap
    requires forall k: nat | k < v.used :: w.mem[k] == v.mem[k]
    requires Remembers(w.mem, block.ptr, m, need)
    ensures Right(w, Add(b, need, Some(block.ptr), |v.blocks|, m))
  {
    var c := Add(b, need, Some(block.ptr), |v.blocks|, m);
    forall i: nat | i < |c.ptrs| ensures Entry(w, c, i) {
      if i < |b.ptrs| {
        AddedAt(b, need, Some(block.ptr), |v.blocks|, m, i);
        EntryStands(v, w, b, i);
      }
    }
    forall i: nat | i < |b.ptrs| && b.ptrs[i].Some? ensures b.at[i] < |v.blocks| {
      assert Entry(v, b, i);
    }
    AllAscend(b, need, Some(block.ptr), |v.blocks|, m);
  }

  /** A request that returns nothing. */
  lemma Passed(v: View, b: Book, need: nat)
    requires Right(v, b)
    ensures Right(v, Add(b, need, None, 0, map[]))
  {
    var c := Add(b, need, None, 0, map[]);
    forall i: nat | i < |c.ptrs| ensures Entry(v, c, i) {
      if i < |b.ptrs| {
        AddedAt(b, need, None, 0, map[], i);
        assert Entry(v, b, i);
      }
    }
    AllAscend(b, need, None, 0, map[]);
  }

  /** A caller's write changes what is known of its own block only. */
  lemma Wrote(v: View, w: View, b: Book, which: nat, offset: nat, x: byte)
    requires Right(v, b) && which < |b.ptrs| && b.ptrs[which].Some? && offset < b.needs[which]
    requires Layout(w) && w.blocks == v.blocks && b.ptrs[which].value + offset < SIZE
    requires w.mem == v.mem[b.ptrs[which].value + offset := x]
    ensures Right(w, Noted(b, which, offset, x))
  {
    var c := Noted(b, which, offset, x);
    forall i: nat | i < |c.ptrs| ensures Entry(w, c, i) {
      WroteAt(v, w, b, c, which, offset, x, i);
    }
    forall i: nat, j: nat | i < j < |c.ptrs| ensures Ascending(c, i, j) {
      assert Ascending(b, i, j);
    }
  }

  lemma WroteAt(v: View, w: View, b: Book, c: Book, which: nat, offset: nat, x: byte, i: nat)
    requires Right(v, b) && which < |b.ptrs| && b.ptrs[which].Some? && offset < b.needs[which] && i < |b.ptrs|
    requires w.blocks == v.blocks && b.ptrs[which].value + offset < SIZE
    requires w.mem == v.mem[b.ptrs[which].value + offset := x]
    requires c == Noted(b, which, offset, x)
    ensures Entry(w, c, i)
  {
    assert Entry(v, b, i) && Entry(v, b, which);
    if i != which && b.ptrs[i].Some? {
      assert if i < which then Ascending(b, i, which) else Ascending(b, which, i);
      var k := b.ptrs[which].value + offset;
      BlocksDisjoint(v, b.at[which], b.at[i], k);
      BlockInside(v, b.at[i]);
    }
  }

  /** Any request: the books stay right, and what is known is what separate memories would hold. */
  method Serve(h: Heap, reqs: seq<Request>, ptrs: seq<Option<nat>>, ghost b: Book) returns (p: Option<nat>, ghost c: Book)
    requires h.Valid() && Right(h.Now(), b) && b.ptrs == ptrs && |ptrs| < |reqs| && Callable(reqs, |ptrs|)
    requires h.heapUsed == UsedUpto(reqs, |ptrs|) && forall i: nat | i < |ptrs| :: b.needs[i] == Need(reqs[i])
    modifies h, h.heap
    ensures h.heapUsed == UsedThen(old(h.heapUsed), reqs[|ptrs|])
    ensures h.Valid() && Right(h.Now(), c) && c.ptrs == ptrs + [p] && c.needs == b.needs + [Need(reqs[|ptrs|])]
    ensures c.known == Known(reqs[|ptrs|], p, ptrs, b.known)
  {
    match reqs[|ptrs|] {
      case CallMalloc(size) => p, c := ServeMalloc(h, size, b);
      case CallCalloc(nmemb, size) => p, c := ServeCalloc(h, nmemb, size, b);
      case CallRealloc(which, size) => p, c := ServeRealloc(h, ptrs[which], which, size, b);
      case Write(which, offset, x) => p, c := ServeWrite(h, ptrs[which], which, offset, x, b);
    }
  }

  method ServeMalloc(h: Heap, size: nat, ghost b: Book) returns (p: Option<nat>, ghost c: Book)
    requires h.Valid() && Right(h.Now(), b) && size < WORDS && Sound(h.heapUsed, size)
    modifies h, h.heap
    ensures h.Valid() && Right(h.Now(), c) && h.heapUsed == UsedThen(old(h.heapUsed), CallMalloc(size))
    ensures c == Add(b, size, p, if p.Some? then |old(h.blocks)| else 0, map[])
  {
    ghost var v := h.Now();
    p := h.Malloc(size);
    if p.Some? {
      Grew(v, h.Now(), b, size, h.blocks[|v.blocks|], map[]);
    } else {
      Passed(v, b, size);
    }
    c := Add(b, size, p, if p.Some? then |v.blocks| else 0, map[]);
  }

  function Booked(b: Book, need: nat, p: Option<nat>, at: nat): Book {
    if p.Some? then Add(b, need, p, at, Zeroed(need)) else Add(b, need, p, 0, map[])
  }

  /** What calloc returned for a request of that need. */
  lemma ClearedIsRight(v: View, w: View, b: Book, p: Option<nat>, need: nat)
    requires Right(v, b) && Layout(w) && |w.mem| == SIZE
    requires AsAsked(v, w, p, need)
    ensures Right(w, Booked(b, need, p, |v.blocks|))
    ensures w.used == if v.used + Whole(need) <= SIZE then v.used + Whole(need) else v.used
  {
    if p.Some? {
      ZeroesRemembered(w.mem, p.value, need);
      Grew(v, w, b, need, w.blocks[|v.blocks|], Zeroed(need));
    } else {
      Passed(v, b, need);
    }
  }

  method ServeCalloc(h: Heap, nmemb: nat, size: nat, ghost b: Book) returns (p: Option<nat>, ghost c: Book)
    requires h.Valid() && Right(h.Now(), b) && nmemb < WORDS && size < WORDS
    requires SoundProduct(h.heapUsed, nmemb, size)
    modifies h, h.heap
    ensures h.Valid() && Right(h.Now(), c) && h.heapUsed == UsedThen(old(h.heapUsed), CallCalloc(nmemb, size))
    ensures c == Booked(b, Bulk(nmemb, size), p, |old(h.blocks)|)
  {
    ghost var v := h.Now();
    p := h.Calloc(nmemb, size);
    c := Booked(b, Bulk(nmemb, size), p, |v.blocks|);
    ClearedIsRight(v, h.Now(), b, p, Bulk(nmemb, size));
  }

  lemma ZeroesRemembered(mem: seq<byte>, p: nat, n: nat)
    requires Zeroes(mem, p, n)
    ensures Remembers(mem, p, Zeroed(n), n)
  {
    forall i | p <= i < p + n ensures mem[i] == 0 {
      assert mem[i] == mem[p..p + n][i - p];
    }
  }

  method ServeRealloc(h: Heap, ptr: Option<nat>, ghost which: nat, size: nat, ghost b: Book)
    returns (p: Option<nat>, ghost c: Book)
    requires h.Valid() && Right(h.Now(), b) && size < WORDS && Sound(h.heapUsed, size) && which < |b.ptrs|
             && ptr == b.ptrs[which]
    modifies h, h.heap
    ensures h.Valid() && Right(h.Now(), c) && h.heapUsed == UsedThen(old(h.heapUsed), CallRealloc(which, size))
    ensures c == Add(b, size, p, if p.Some? then |old(h.blocks)| else 0,
                     if p.Some? && ptr.Some? then CutOff(b.known[which], size) else map[])
  {
    ghost var v := h.Now();
    assert Entry(v, b, which);
    p := h.Realloc(ptr, size, b.at[which]);
    ghost var m := if p.Some? && ptr.Some? then CutOff(b.known[which], size) else map[];
    if p.Some? {
      if ptr.Some? {
        CopyRemembered(v, h.heap[..], b, which, p.value, size);
      }
      Grew(v, h.Now(), b, size, h.blocks[|v.blocks|], m);
    } else {
      Passed(v, b, size);
    }
    c := Add(b, size, p, if p.Some? then |v.blocks| else 0, m);
  }

  /** The copy holds what was known of the old block, up to the new size. */
  lemma CopyRemembered(v: View, mem: seq<byte>, b: Book, which: nat, p: nat, size: nat)
    requires Right(v, b) && which < |b.ptrs| && b.ptrs[which].Some? && Copied(v, mem, b.at[which], p, size)
    ensures Remembers(mem, p, CutOff(b.known[which], size), size)
  {
    assert Entry(v, b, which);
    var q, cap := b.ptrs[which].value, v.blocks[b.at[which]].cap;
    var n := if cap < size then cap else size;
    forall k | k in b.known[which] && k < size ensures p + k < |mem| && mem[p + k] == b.known[which][k] {
      assert mem[p..p + n][k] == v.mem[q..q + n][k];
    }
  }

  method ServeWrite(h: Heap, ptr: Option<nat>, ghost which: nat, offset: nat, x: byte, ghost b: Book)
    returns (p: Option<nat>, ghost c: Book)
    requires h.Valid() && Right(h.Now(), b) && which < |b.ptrs| && ptr == b.ptrs[which] && offset < b.needs[which]
    modifies h, h.heap
    ensures h.Valid() && Right(h.Now(), c) && p == None && h.heapUsed == old(h.heapUsed)
    ensures c == Add(if ptr.Some? then Noted(b, which, offset, x) else b, 0, None, 0, map[])
  {
    ghost var v, w := h.Now(), b;
    p := None;
    if ptr.Some? {
      assert Entry(v, b, which);
      h.Store(ptr.value, offset, x, b.at[which]);
      Wrote(v, h.Now(), b, which, offset, x);
      w := Noted(b, which, offset, x);
    }
    Passed(h.Now(), w, 0);
    c := Add(w, 0, None, 0, map[]);
  }

  /** The bytes asked for by two requests, the later with its header. */
  ghost predicate Before(p: Option<nat>, need: nat, q: Option<nat>) {
    p.Some? && q.Some? ==> p.value + need <= q.value - 8
  }

  lemma RightIsApart(v: View, b: Book)
    requires Right(v, b)
    ensures forall i: nat | i < |b.ptrs| && b.ptrs[i].Some? :: 8 <= b.ptrs[i].value && b.ptrs[i].value + b.needs[i] <= SIZE
    ensures forall i: nat, j: nat | i < j < |b.ptrs| :: Before(b.ptrs[i], b.needs[i], b.ptrs[j])
    ensures forall i: nat | i < |b.ptrs| && b.ptrs[i].Some? :: Remembers(v.mem, b.ptrs[i].value, b.known[i], b.needs[i])
  {
    forall i: nat | i < |b.ptrs| && b.ptrs[i].Some?
      ensures 8 <= b.ptrs[i].value && b.ptrs[i].value + b.needs[i] <= SIZE
      ensures Remembers(v.mem, b.ptrs[i].value, b.known[i], b.needs[i])
    {
      assert Entry(v, b, i);
      BlockInside(v, b.at[i]);
    }
    forall i: nat, j: nat | i < j < |b.ptrs| ensures Before(b.ptrs[i], b.needs[i], b.ptrs[j]) {
      assert Entry(v, b, i) && Entry(v, b, j) && Ascending(b, i, j);
      if b.ptrs[i].Some? && b.ptrs[j].Some? {
        BlocksApart(v, b.at[i], b.at[j]);
      }
    }
  }

  /**
   Any run of calls and writes on a fresh heap: each block returned lies in the heap, two of them never share a byte
   with each other or with a header, and in the end each holds what it would hold if it were a memory of its own.
   */
  method Session(reqs: seq<Request>) returns (ptrs: seq<Option<nat>>, mem: seq<byte>)
    requires forall n: nat | n < |reqs| :: Callable(reqs, n)
    ensures |ptrs| == |reqs|
    ensures forall i: nat | i < |ptrs| && ptrs[i].Some? :: 8 <= ptrs[i].value && ptrs[i].value + Need(reqs[i]) <= 0x200_0000
    ensures forall i: nat, j: nat | i < j < |ptrs| :: Before(ptrs[i], Need(reqs[i]), ptrs[j])
    ensures forall i: nat | i < |ptrs| && ptrs[i].Some? ::
      Remembers(mem, ptrs[i].value, KnownUpto(reqs, ptrs, |reqs|)[i], Need(reqs[i]))
  {
    var h := new Heap();
    ptrs := [];
    ghost var b := Book([], [], [], []);
    for n := 0 to |reqs|
      invariant fresh(h) && fresh(h.heap) && h.Valid() && |ptrs| == n
      invariant Right(h.Now(), b) && b.ptrs == ptrs && b.known == KnownUpto(reqs, ptrs, n)
      invariant h.heapUsed == UsedUpto(reqs, n) && forall i: nat | i < n :: b.needs[i] == Need(reqs[i])
    {
      var p;
      ghost var c;
      assert Callable(reqs, n);
      p, c := Serve(h, reqs, ptrs, b);
      KnownNext(reqs, ptrs, p, n);
      ptrs, b := ptrs + [p], c;
    }
    RightIsApart(h.Now(), b);
    mem := h.heap[..];
  }

  lemma KnownNext(reqs: seq<Request>, ptrs: seq<Option<nat>>, p: Option<nat>, n: nat)
    requires |ptrs| == n < |reqs|
    ensures KnownUpto(reqs, ptrs + [p], n + 1) == Known(reqs[n], p, ptrs, KnownUpto(reqs, ptrs, n))
  {
    KnownPrefix(reqs, ptrs, p, n);
    assert (ptrs + [p])[..n] == ptrs;
  }

  lemma {:induction false} KnownPrefix(reqs: seq<Request>, ptrs: seq<Option<nat>>, p: Option<nat>, n: nat)
    requires n <= |ptrs| && n <= |reqs|
    ensures KnownUpto(reqs, ptrs + [p], n) == KnownUpto(reqs, ptrs, n)
  {
    if n > 0 {
      KnownPrefix(reqs, ptrs, p, n - 1);
      assert (ptrs + [p])[..n - 1] == ptrs[..n - 1];
    }
  }
}
