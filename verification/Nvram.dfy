/**
 The chip NVRAM packer of scripts/gen-wifi-nvram-py.py (strip_nvram, build_blob) and the reader its format is
 made for: entries ended by NULs, an empty entry at the end, and a trailer giving the length in words.
 */
module Nvram {

  import opened LittleEndian

  type Line = seq<byte>

  // ----- Lines

  /** ASCII characters str.strip removes. */
  predicate White(c: byte) {
    9 <= c <= 13 || 28 <= c <= 32
  }

  /** Tab, line feed, vertical tab, form feed, carriage return, the four separators and space. */
  lemma WhiteExactly(c: byte)
    ensures White(c) <==> c in {9, 10, 11, 12, 13, 28, 29, 30, 31, 32}
  {
  }

  function Strip(l: Line): Line {
    if l != [] && White(l[0]) then Strip(l[1..])
    else if l != [] && White(l[|l| - 1]) then Strip(l[..|l| - 1])
    else l
  }

  /** Strip keeps the part between a white prefix and a white suffix that neither starts nor ends white. */
  lemma {:induction false} StripTrims(l: Line) returns (a: nat, b: nat)
    ensures a <= b <= |l| && Strip(l) == l[a..b]
    ensures forall i | 0 <= i < a || b <= i < |l| :: White(l[i])
    ensures a < b ==> !White(l[a]) && !White(l[b - 1])
  {
    if l != [] && White(l[0]) {
      var t := l[1..];
      var c, d := StripTrims(t);
      a, b := c + 1, d + 1;
      forall i | 0 <= i < a || b <= i < |l| ensures White(l[i]) {
        assert i > 0 ==> l[i] == t[i - 1];
      }
      assert t[c..d] == l[a..b];
    } else if l != [] && White(l[|l| - 1]) {
      var t := l[..|l| - 1];
      a, b := StripTrims(t);
      forall i | 0 <= i < a || b <= i < |l| ensures White(l[i]) {
        assert i < |t| ==> l[i] == t[i];
      }
      assert t[a..b] == l[a..b];
    } else {
      a, b := 0, |l|;
    }
  }

  /** Neither blank nor a comment, once stripped. */
  predicate Kept(l: Line) {
    Strip(l) != [] && Strip(l)[0] != 35
  }

  /** The stripped lines that are kept, among the first n. */
  function Entries(lines: seq<Line>, n: nat): seq<Line>
    requires n <= |lines|
  {
    if n == 0 then []
    else if Kept(lines[n - 1]) then Entries(lines, n - 1) + [Strip(lines[n - 1])]
    else Entries(lines, n - 1)
  }

  /** The first n entries, each followed by a NUL. */
  function Joined(es: seq<Line>, n: nat): seq<byte>
    requires n <= |es|
  {
    if n == 0 then [] else Joined(es, n - 1) + es[n - 1] + [0]
  }

  lemma {:induction false} JoinedMore(es: seq<Line>, e: Line, n: nat)
    requires n <= |es|
    ensures Joined(es + [e], n) == Joined(es, n)
  {
    if n > 0 {
      JoinedMore(es, e, n - 1);
    }
  }

  ghost predicate AllZero(s: seq<byte>) {
    forall i | 0 <= i < |s| :: s[i] == 0
  }

  /** The packed form: the entries, then zeros to the length. */
  ghost predicate Packed(es: seq<Line>, out: seq<byte>) {
    var j := Joined(es, |es|);
    |j| < |out| && out[..|j|] == j && AllZero(out[|j|..])
  }

  /** No shorter length keeps the extra NUL and the two alignments. */
  ghost predicate LeastLength(es: seq<Line>, length: nat) {
    forall k: nat | |Joined(es, |es|)| < k && k % 4 == 0 && (k + 4) % 64 == 0 :: length <= k
  }

  lemma IsLeast(es: seq<Line>, length: nat)
    requires |Joined(es, |es|)| < length < |Joined(es, |es|)| + 65 && (length + 4) % 64 == 0
    ensures LeastLength(es, length)
  {
  }

  method Pad(out: seq<byte>, length: nat) returns (padded: seq<byte>)
    requires |out| <= length
    ensures |padded| == length && out <= padded && AllZero(padded[|out|..])
  {
    padded := out;
    while |padded| < length
      invariant |out| <= |padded| <= length && out <= padded && AllZero(padded[|out|..])
    {
      padded := padded + [0];
    }
  }

  /** The length of the first padding loop: the next multiple of four. */
  method ToFour(n: nat) returns (four: nat)
    ensures n <= four < n + 4 && four % 4 == 0
  {
    four := n + (if n % 4 == 0 then 0 else 4 - n % 4);
  }

  /** The length of the second: with the trailer, the next multiple of sixty-four. */
  method ToTarget(four: nat) returns (target: nat)
    requires four % 4 == 0
    ensures four <= target < four + 64 && target % 4 == 0 && (target + 4) % 64 == 0
  {
    var blocks := (four + 4 + 63) / 64;
    target := blocks * 64 - 4;
    Multiples(target, blocks);
  }

  lemma Multiples(target: nat, blocks: nat)
    requires target + 4 == blocks * 64
    ensures target % 4 == 0 && (target + 4) % 64 == 0
  {
    assert target == 4 * (blocks * 16 - 1);
  }

  /** Two aligned lengths less than sixty-four apart: no room for a third. */
  lemma StillLeast(n: nat, four: nat, target: nat)
    requires n > 0 && n <= four < n + 4 && four % 4 == 0 && four <= target < four + 64 && (target + 4) % 64 == 0
    ensures target < n + 64
  {
  }

  /**
   strip_nvram: the kept lines in order, each ended by a NUL, an extra NUL, and no more zeros than are needed
   to make the length a multiple of four and, with the trailer, of sixty-four.
   */
  method StripNvram(lines: seq<Line>) returns (out: seq<byte>)
    ensures Packed(Entries(lines, |lines|), out)
    ensures |out| % 4 == 0 && (|out| + 4) % 64 == 0
    ensures LeastLength(Entries(lines, |lines|), |out|)
  {
    out := [];
    for n := 0 to |lines|
      invariant out == Joined(Entries(lines, n), |Entries(lines, n)|)
    {
      var line := Strip(lines[n]);
      if line == [] || line[0] == 35 {
        continue;
      }
      JoinedMore(Entries(lines, n), line, |Entries(lines, n)|);
      out := out + line + [0];
    }
    ghost var j := out;
    out := Pad(out, |out| + 1);
    var four := ToFour(|out|);
    var target := ToTarget(four);
    StillLeast(|out|, four, target);
    var whole := Pad(out, four);
    ghost var short := whole;
    whole := Pad(whole, target);
    PadAgain(j, out, short, whole);
    IsLeast(Entries(lines, |lines|), |whole|);
    out := whole;
  }

  lemma PadAgain(j: seq<byte>, a: seq<byte>, b: seq<byte>, c: seq<byte>)
    requires j <= a <= b <= c && AllZero(a[|j|..]) && AllZero(b[|a|..]) && AllZero(c[|b|..])
    ensures c[..|j|] == j && AllZero(c[|j|..])
  {
    forall i | |j| <= i < |c| ensures c[i] == 0 {
      if i < |a| {
        assert a[|j|..][i - |j|] == 0;
      } else if i < |b| {
        assert b[|a|..][i - |a|] == 0;
      } else {
        assert c[|b|..][i - |b|] == 0;
      }
    }
  }

  // ----- Reading the entries back

  function NulAt(b: seq<byte>, i: nat): (z: nat)
    requires i <= |b|
    ensures i <= z <= |b| && (z < |b| ==> b[z] == 0) && forall k | i <= k < z :: b[k] != 0
    decreases |b| - i
  {
    if i == |b| || b[i] == 0 then i else NulAt(b, i + 1)
  }

  /** The entries from i on, up to the first empty one. */
  function Parse(b: seq<byte>, i: nat): seq<Line>
    requires i <= |b|
    decreases |b| - i
  {
    var z := NulAt(b, i);
    if z == i || z == |b| then [] else [b[i..z]] + Parse(b, z + 1)
  }

  ghost predicate Proper(es: seq<Line>) {
    forall i | 0 <= i < |es| :: es[i] != [] && 0 !in es[i]
  }

  lemma {:induction false} JoinedPrefix(es: seq<Line>, n: nat, m: nat)
    requires n <= m <= |es|
    ensures |Joined(es, n)| <= |Joined(es, m)| && Joined(es, m)[..|Joined(es, n)|] == Joined(es, n)
    decreases m - n
  {
    if n < m {
      JoinedPrefix(es, n + 1, m);
      var s, p, q := Joined(es, m), Joined(es, n + 1), Joined(es, n);
      assert p[..|q|] == q;
      assert s[..|p|][..|q|] == s[..|q|];
    }
  }

  /** Where entry n lies in the packed bytes. */
  lemma EntryAt(es: seq<Line>, b: seq<byte>, n: nat)
    requires n < |es| && Packed(es, b)
    ensures var i, z := |Joined(es, n)|, |Joined(es, n)| + |es[n]|;
            z < |b| && b[i..z] == es[n] && b[z] == 0 && |Joined(es, n + 1)| == z + 1
  {
    var j, i, z := Joined(es, |es|), |Joined(es, n)|, |Joined(es, n)| + |es[n]|;
    JoinedPrefix(es, n + 1, |es|);
    var p := Joined(es, n + 1);
    assert b[..|p|] == b[..|j|][..|p|] == p;
    assert p[i..z] == es[n] && p[z] == 0;
    assert b[i..z] == b[..|p|][i..z];
    assert b[z] == b[..|p|][z];
  }

  lemma FirstNul(b: seq<byte>, i: nat, e: Line)
    requires i + |e| < |b| && b[i..i + |e|] == e && 0 !in e && b[i + |e|] == 0
    ensures NulAt(b, i) == i + |e|
  {
    forall k | i <= k < i + |e| ensures b[k] != 0 {
      assert b[k] == b[i..i + |e|][k - i];
    }
  }

  lemma ParseStep(b: seq<byte>, i: nat, e: Line)
    requires i + |e| < |b| && b[i..i + |e|] == e && e != [] && 0 !in e && b[i + |e|] == 0
    ensures Parse(b, i) == [e] + Parse(b, i + |e| + 1)
  {
    FirstNul(b, i, e);
  }

  lemma ParseEnds(b: seq<byte>, i: nat)
    requires i < |b| && b[i] == 0
    ensures Parse(b, i) == []
  {
  }

  lemma EntryParses(es: seq<Line>, b: seq<byte>, n: nat)
    requires n < |es| && Packed(es, b) && Proper(es)
    ensures |Joined(es, n)| <= |b| && |Joined(es, n + 1)| <= |b|
    ensures Parse(b, |Joined(es, n)|) == [es[n]] + Parse(b, |Joined(es, n + 1)|)
  {
    EntryAt(es, b, n);
    ParseStep(b, |Joined(es, n)|, es[n]);
  }

  lemma ParseLast(es: seq<Line>, b: seq<byte>)
    requires Packed(es, b)
    ensures |Joined(es, |es|)| <= |b| && Parse(b, |Joined(es, |es|)|) == []
  {
    var i := |Joined(es, |es|)|;
    assert b[i..][0] == 0;
    ParseEnds(b, i);
  }

  lemma {:induction false} ParseFrom(es: seq<Line>, b: seq<byte>, n: nat)
    requires n <= |es| && Packed(es, b) && Proper(es)
    ensures |Joined(es, n)| <= |b| && Parse(b, |Joined(es, n)|) == es[n..]
    decreases |es| - n
  {
    if n == |es| {
      ParseLast(es, b);
    } else {
      ParseFrom(es, b, n + 1);
      EntryParses(es, b, n);
      assert es[n..] == [es[n]] + es[n + 1..];
    }
  }

  /** Packing loses nothing: parsing gives the entries back. */
  lemma PackedParses(es: seq<Line>, b: seq<byte>)
    requires Packed(es, b) && Proper(es)
    ensures Parse(b, 0) == es
  {
    ParseFrom(es, b, 0);
    assert es[0..] == es;
  }

  lemma {:induction false} EntriesProper(lines: seq<Line>, n: nat)
    requires n <= |lines| && forall i | 0 <= i < |lines| :: 0 !in lines[i]
    ensures Proper(Entries(lines, n))
  {
    if n > 0 {
      EntriesProper(lines, n - 1);
      var a, b := StripTrims(lines[n - 1]);
    }
  }

  // ----- The trailer

  /** (((~words) & 0xFFFF) << 16) | (words & 0xFFFF). */
  function Token(words: nat): nat {
    (0xFFFF - words % 0x1_0000) * 0x1_0000 + words % 0x1_0000
  }

  /** build_blob: the data and four bytes whose halves are the word count and its complement, modulo 65536. */
  method BuildBlob(stripped: seq<byte>) returns (blob: seq<byte>, words: nat, token: nat)
    ensures words == |stripped| / 4 && |blob| == |stripped| + 4 && stripped <= blob
    ensures token == U32(blob, |stripped|)
    ensures U16(blob, |stripped|) == words % 0x1_0000
    ensures U16(blob, |stripped| + 2) == 0xFFFF - words % 0x1_0000
  {
    words := |stripped| / 4;
    token := Token(words);
    blob := stripped + Le32(token);
    assert blob[|stripped|..|stripped| + 4] == Le32(token);
    Reads32(blob, |stripped|, token);
    Halves(U16(blob, |stripped|), U16(blob, |stripped| + 2), words % 0x1_0000, 0xFFFF - words % 0x1_0000);
  }

  lemma Halves(a: nat, b: nat, c: nat, d: nat)
    requires a < 0x1_0000 && c < 0x1_0000 && a + 0x1_0000 * b == c + 0x1_0000 * d
    ensures a == c && b == d
  {
  }

  datatype Result = Bad | Good(entries: seq<Line>)

  /** What the trailer is for: the reader finds the data from the end of the blob and checks the complement. */
  function Load(blob: seq<byte>): Result {
    if |blob| < 4 then Bad else
    var n := |blob| - 4;
    var words, check := U16(blob, n), U16(blob, n + 2);
    if words + check != 0xFFFF || 4 * words > n then Bad else Good(Parse(blob[n - 4 * words..n], 0))
  }

  lemma LoadsBack(stripped: seq<byte>, blob: seq<byte>, words: nat)
    requires |blob| == |stripped| + 4 && stripped <= blob && |stripped| == 4 * words
    requires U16(blob, |stripped|) == words && U16(blob, |stripped| + 2) == 0xFFFF - words
    ensures Load(blob) == Good(Parse(stripped, 0))
  {
    assert blob[0..|stripped|] == stripped;
  }

  lemma WholeWords(length: nat)
    requires length % 4 == 0 && length < 0x4_0000
    ensures length == 4 * (length / 4) && length / 4 % 0x1_0000 == length / 4
  {
  }

  /**
   The blob of NUL-free lines is a multiple of sixty-four bytes long, and reading it from its end gives back
   exactly the stripped lines that are neither blank nor comments, provided it has fewer than 65536 words.
   */
  method Pack(lines: seq<Line>) returns (blob: seq<byte>)
    requires forall i | 0 <= i < |lines| :: 0 !in lines[i]
    ensures |blob| % 64 == 0 && |blob| >= 64
    ensures |blob| <= 0x4_0000 ==> Load(blob) == Good(Entries(lines, |lines|))
  {
    var stripped := StripNvram(lines);
    var words, token;
    blob, words, token := BuildBlob(stripped);
    EntriesProper(lines, |lines|);
    PackedParses(Entries(lines, |lines|), stripped);
    if |blob| <= 0x4_0000 {
      WholeWords(|stripped|);
      LoadsBack(stripped, blob, words);
    }
  }
}
