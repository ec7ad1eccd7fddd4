/**
 The formatter of tools/dl-hosttest/shim.c (fmt_number, vsnprintf) against a renderer without a buffer.
 */
module Printf {

  const WORDS: nat := 0x1_0000_0000_0000_0000

  // ----- Digits

  const DIGITS: string := "0123456789abcdef"

  function Digit(d: nat): char
    requires d < 16
  {
    DIGITS[d]
  }

  /** The two bases. */
  datatype Base = Ten | Sixteen

  function Quot(v: nat, b: Base): nat {
    match b case Ten => v / 10 case Sixteen => v / 16
  }

  function Rem(v: nat, b: Base): (d: nat)
    ensures d < 16
  {
    match b case Ten => v % 10 case Sixteen => v % 16
  }

  function Times(v: nat, b: Base): nat {
    match b case Ten => v * 10 case Sixteen => v * 16
  }

  lemma Divides(v: nat, b: Base)
    ensures v == Times(Quot(v, b), b) + Rem(v, b) && (v > 0 ==> Quot(v, b) < v)
  {
  }

  /** The shortest numeral of v, most significant digit first. */
  function Numeral(v: nat, b: Base): (s: string)
    ensures |s| > 0
    decreases v
  {
    (if Quot(v, b) == 0 then [] else Numeral(Quot(v, b), b)) + [Digit(Rem(v, b))]
  }

  /** The digit a character stands for. */
  function DigitOf(c: char): nat {
    if '0' <= c <= '9' then c as int - '0' as int
    else if 'a' <= c <= 'f' then c as int - 'a' as int + 10
    else 0
  }

  /** The number a string of digits denotes. */
  function Value(s: string, b: Base): nat {
    if s == "" then 0 else Times(Value(s[..|s| - 1], b), b) + DigitOf(s[|s| - 1])
  }

  lemma DigitDenotes(d: nat)
    requires d < 16
    ensures DigitOf(Digit(d)) == d
  {
  }

  /** One digit more, in plain arithmetic. */
  lemma OneDigitMore(t: string, q: nat, d: nat, v: nat, b: Base)
    requires d < 16 && v == Times(q, b) + d
    requires if t == "" then q == 0 else Value(t, b) == q && (t[0] == '0' ==> q == 0)
    ensures Value(t + [Digit(d)], b) == v
  {
    var s := t + [Digit(d)];
    assert s[..|s| - 1] == t;
    DigitDenotes(d);
  }

  lemma FirstDigit(t: string, q: nat, d: nat, v: nat, b: Base)
    requires d < 16 && v == Times(q, b) + d
    requires if t == "" then q == 0 else q > 0 && t[0] != '0'
    ensures (t + [Digit(d)])[0] == '0' ==> v == 0
  {
    DigitDenotes(d);
  }

  lemma NumeralIs(v: nat, b: Base, t: string)
    requires t == if Quot(v, b) == 0 then "" else Numeral(Quot(v, b), b)
    ensures Numeral(v, b) == t + [Digit(Rem(v, b))]
  {
  }

  /** A numeral denotes its number and has no leading zero except for zero itself. */
  lemma {:induction false} NumeralDenotes(v: nat, b: Base)
    ensures Value(Numeral(v, b), b) == v
    ensures Numeral(v, b)[0] == '0' ==> v == 0
    decreases v
  {
    var q, d := Quot(v, b), Rem(v, b);
    var t := if q == 0 then "" else Numeral(q, b);
    Divides(v, b);
    if q > 0 {
      NumeralDenotes(q, b);
    }
    NumeralIs(v, b, t);
    OneDigitMore(t, q, d, v, b);
    FirstDigit(t, q, d, v, b);
  }

  function Power(b: Base, k: nat): nat {
    if k == 0 then 1 else Times(Power(b, k - 1), b)
  }

  lemma {:induction false} NumeralIsShort(v: nat, b: Base, k: nat)
    requires v < Power(b, k) && k > 0
    ensures |Numeral(v, b)| <= k
    decreases k
  {
    if Quot(v, b) != 0 {
      assert k > 1 by { PowerOne(b); }
      NumeralIsShort(Quot(v, b), b, k - 1);
    }
  }

  lemma PowerOne(b: Base)
    ensures Power(b, 1) == Times(1, b)
  {
    assert Power(b, 0) == 1;
  }

  lemma PowerUp(b: Base, k: nat)
    ensures Power(b, k + 5) == Times(Times(Times(Times(Times(Power(b, k), b), b), b), b), b)
  {
    assert Power(b, k + 3) == Times(Times(Times(Power(b, k), b), b), b) by {
      assert Power(b, k + 2) == Times(Power(b, k + 1), b);
    }
    assert Power(b, k + 4) == Times(Power(b, k + 3), b);
  }

  /** Every 64-bit number fits the scratch buffer. */
  lemma WordFits(v: nat, b: Base)
    requires v < WORDS
    ensures |Numeral(v, b)| <= 20
  {
    PowerUp(b, 0);
    PowerUp(b, 5);
    PowerUp(b, 10);
    PowerUp(b, 15);
    assert Power(b, 0) == 1;
    NumeralIsShort(v, b, 20);
  }

  lemma NumeralSplits(v: nat, b: Base)
    ensures var r := Numeral(v, b);
            r[|r| - 1] == Digit(Rem(v, b)) && r[..|r| - 1] == if Quot(v, b) == 0 then [] else Numeral(Quot(v, b), b)
  {
  }

  lemma OneDigitLess(s: string, r: string, n: nat)
    requires n < |s| && s[..|s| - n] == r
    ensures s[|s| - 1 - n] == r[|r| - 1] && s[..|s| - n - 1] == r[..|r| - 1]
  {
  }

  /** The numeral s, n digits of which are done, and the number whose digits are left. */
  datatype Todo = Todo(s: string, n: nat, rest: nat, base: Base)

  ghost predicate Left(t: Todo) {
    match t
    case Todo(s, n, rest, b) => n < |s| && s[..|s| - n] == Numeral(rest, b)
  }

  lemma LeftNext(t: Todo, r: string, q: nat)
    requires t.n < |t.s| && t.s[..|t.s| - t.n] == r && |r| > 0
    requires r[..|r| - 1] == if q == 0 then [] else Numeral(q, t.base)
    ensures t.s[|t.s| - 1 - t.n] == r[|r| - 1]
    ensures if q == 0 then t.n + 1 == |t.s| else Left(t.(n := t.n + 1, rest := q))
  {
    OneDigitLess(t.s, r, t.n);
  }

  /** One round of the loop: the last digit of what is left. */
  method LastDigit(rest: nat, b: Base, ghost t: Todo) returns (c: char, q: nat)
    requires Left(t) && t.rest == rest && t.base == b
    ensures c == t.s[|t.s| - 1 - t.n]
    ensures if q == 0 then t.n + 1 == |t.s| else Left(t.(n := t.n + 1, rest := q))
  {
    c, q := Digit(Rem(rest, b)), Quot(rest, b);
    NumeralSplits(rest, b);
    LeftNext(t, Numeral(rest, b), q);
  }

  /** fmt_number: the digits of v, least significant first. */
  method FmtNumber(tmp: array<char>, v: nat, b: Base) returns (n: nat)
    requires tmp.Length == 24 && v < WORDS
    modifies tmp
    ensures n == |Numeral(v, b)| <= tmp.Length
    ensures forall k | 0 <= k < n :: tmp[k] == Numeral(v, b)[n - 1 - k]
  {
    WordFits(v, b);
    assert Numeral(v, b)[..|Numeral(v, b)| - 0] == Numeral(v, b);
    n := PutDigits(tmp, v, b, Numeral(v, b));
  }

  method PutDigits(tmp: array<char>, v: nat, b: Base, ghost s: string) returns (n: nat)
    requires |s| <= 20 < tmp.Length && Left(Todo(s, 0, v, b))
    modifies tmp
    ensures n == |s| && forall k | 0 <= k < n :: tmp[k] == s[n - 1 - k]
  {
    n := 0;
    var rest, more := v, true;
    ghost var t := Todo(s, 0, v, b);
    while more
      invariant 0 <= n <= |s| && t.s == s && t.base == b
      invariant if more then t.n == n && t.rest == rest && Left(t) else n == |s|
      invariant forall k | 0 <= k < n :: tmp[k] == s[|s| - 1 - k]
      decreases |s| - n
    {
      var c;
      c, rest := LastDigit(rest, b, t);
      tmp[n] := c;
      n := n + 1;
      more := rest != 0;
      t := t.(n := n, rest := rest);
    }
  }

  // ----- Directives

  /** What va_arg gives: a number (an int, a long, an unsigned number or an address), a C string or NULL. */
  datatype Arg = Num(v: int) | Text(s: string) | Null

  /** Flag, width, length modifier, and where the conversion letter stands. */
  datatype Spec = Spec(pad: char, width: nat, long: bool, at: nat)

  predicate IsDigit(c: char) {
    '0' <= c <= '9'
  }

  /** One digit more, in size_t arithmetic. */
  function NextWidth(w: nat, d: nat): nat {
    (w * 10 + d) % WORDS
  }

  /** The width read from i on, continuing w. */
  function WidthFrom(f: string, i: nat, w: nat): nat
    requires i <= |f|
    decreases |f| - i
  {
    if i < |f| && IsDigit(f[i]) then WidthFrom(f, i + 1, NextWidth(w, DigitOf(f[i]))) else w
  }

  function SkipDigits(f: string, i: nat): (j: nat)
    requires i <= |f|
    ensures i <= j <= |f|
    decreases |f| - i
  {
    if i < |f| && IsDigit(f[i]) then SkipDigits(f, i + 1) else i
  }

  predicate IsLong(c: char) {
    c == 'l' || c == 'z'
  }

  function SkipLong(f: string, i: nat): (j: nat)
    requires i <= |f|
    ensures i <= j <= |f|
    decreases |f| - i
  {
    if i < |f| && IsLong(f[i]) then SkipLong(f, i + 1) else i
  }

  /** The directive whose percent sign stands before i. */
  function SpecAt(f: string, i: nat): (s: Spec)
    requires i <= |f|
    ensures i <= s.at <= |f|
  {
    var zero := i < |f| && f[i] == '0';
    var k := if zero then i + 1 else i;
    var l := SkipDigits(f, k);
    Spec(if zero then '0' else ' ', WidthFrom(f, k, 0), SkipLong(f, l) > l, SkipLong(f, l))
  }

  lemma Remainder(v: nat, q: nat, r: nat)
    requires v == q * WORDS + r && r < WORDS
    ensures v % WORDS == r
  {
  }

  lemma ModStep(x: nat, d: nat)
    ensures NextWidth(x % WORDS, d) == NextWidth(x, d)
  {
    var y := x % WORDS * 10 + d;
    Remainder(x * 10 + d, x / WORDS * 10 + y / WORDS, y % WORDS);
  }

  lemma OneDigitRead(f: string, k: nat, i: nat)
    requires k <= i < |f|
    ensures Value(f[k..i + 1], Ten) == Value(f[k..i], Ten) * 10 + DigitOf(f[i])
  {
    var s := f[k..i + 1];
    assert s[..|s| - 1] == f[k..i] && s[|s| - 1] == f[i];
  }

  lemma WidthStep(f: string, k: nat, i: nat)
    requires k <= i < |f|
    ensures NextWidth(Value(f[k..i], Ten) % WORDS, DigitOf(f[i])) == Value(f[k..i + 1], Ten) % WORDS
  {
    OneDigitRead(f, k, i);
    ModStep(Value(f[k..i], Ten), DigitOf(f[i]));
  }

  /** w, read so far, is the number its digits denote, modulo 2^64; so is what is read in the end. */
  lemma {:induction false} WidthGrows(f: string, k: nat, i: nat, w: nat)
    requires k <= i <= |f| && w == Value(f[k..i], Ten) % WORDS
    ensures k <= SkipDigits(f, i) && WidthFrom(f, i, w) == Value(f[k..SkipDigits(f, i)], Ten) % WORDS
    decreases |f| - i
  {
    if i < |f| && IsDigit(f[i]) {
      WidthStep(f, k, i);
      WidthGrows(f, k, i + 1, NextWidth(w, DigitOf(f[i])));
    }
  }

  /** The width is the number its digits denote, modulo 2^64. */
  lemma WidthDenotes(f: string, i: nat)
    requires i <= |f|
    ensures WidthFrom(f, i, 0) == Value(f[i..SkipDigits(f, i)], Ten) % WORDS
  {
    assert f[i..i] == "";
    WidthGrows(f, i, i, 0);
  }

  // ----- The grammar of a directive

  ghost predicate AllIn(s: string, letters: string) {
    forall k | 0 <= k < |s| :: s[k] in letters
  }

  lemma {:induction false} DigitsSkipped(f: string, i: nat)
    requires i <= |f|
    ensures var j := SkipDigits(f, i); AllIn(f[i..j], "0123456789") && (j < |f| ==> f[j] !in "0123456789")
    decreases |f| - i
  {
    if i < |f| {
      DigitIs(f[i]);
      if IsDigit(f[i]) {
        DigitsSkipped(f, i + 1);
        assert f[i..SkipDigits(f, i)] == [f[i]] + f[i + 1..SkipDigits(f, i)];
      }
    }
  }

  lemma DigitIs(c: char)
    ensures IsDigit(c) <==> c in "0123456789"
  {
  }

  lemma {:induction false} LongSkipped(f: string, i: nat)
    requires i <= |f|
    ensures var j := SkipLong(f, i); AllIn(f[i..j], "lz") && (j < |f| ==> f[j] !in "lz")
    decreases |f| - i
  {
    if i < |f| && IsLong(f[i]) {
      LongSkipped(f, i + 1);
      assert f[i..SkipLong(f, i)] == [f[i]] + f[i + 1..SkipLong(f, i)];
    }
  }

  /** A directive up to its letter: a zero flag or none, the digits of the width, letters l and z. */
  ghost predicate Spelled(f: string, i: nat, s: Spec, flag: string, digits: string, mods: string) {
    match s
    case Spec(pad, width, long, at) =>
      && i <= at <= |f| && f[i..at] == flag + digits + mods
      && ((flag == "0" && pad == '0') || (flag == "" && pad == ' ' && (digits != "" ==> digits[0] != '0')))
      && AllIn(digits, "0123456789") && AllIn(mods, "lz") && width == Value(digits, Ten) % 0x1_0000_0000_0000_0000
      && (long <==> mods != "") && (at < |f| ==> f[at] !in "lz" && (mods == "" ==> f[at] !in "0123456789"))
  }

  lemma ThreeParts(f: string, i: nat, k: nat, l: nat, m: nat)
    requires i <= k <= l <= m <= |f|
    ensures f[i..m] == f[i..k] + f[k..l] + f[l..m]
  {
  }

  /** What SpecAt reads is what the grammar has. */
  lemma SpecExactly(f: string, i: nat) returns (flag: string, digits: string, mods: string)
    requires i <= |f|
    ensures Spelled(f, i, SpecAt(f, i), flag, digits, mods)
  {
    var k := if i < |f| && f[i] == '0' then i + 1 else i;
    var l := SkipDigits(f, k);
    var m := SkipLong(f, l);
    flag, digits, mods := f[i..k], f[k..l], f[l..m];
    DigitsSkipped(f, k);
    LongSkipped(f, l);
    WidthDenotes(f, k);
    ThreeParts(f, i, k, l, m);
  }

  method ReadSpec(f: string, start: nat) returns (s: Spec)
    requires start <= |f|
    ensures s == SpecAt(f, start)
  {
    var i, pad := start, ' ';
    if i < |f| && f[i] == '0' {
      pad, i := '0', i + 1;
    }
    ghost var k := i;
    var width: nat := 0;
    while i < |f| && IsDigit(f[i])
      invariant k <= i <= |f| && WidthFrom(f, i, width) == WidthFrom(f, k, 0) && SkipDigits(f, i) == SkipDigits(f, k)
    {
      width := (width * 10 + (f[i] as int - '0' as int)) % WORDS;
      i := i + 1;
    }
    ghost var l := i;
    var long := false;
    while i < |f| && IsLong(f[i])
      invariant l <= i <= |f| && SkipLong(f, i) == SkipLong(f, l) && (long <==> i > l)
    {
      long, i := true, i + 1;
    }
    s := Spec(pad, width, long, i);
  }

  predicate Takes(c: char) {
    c in "scpdiux"
  }

  /** The argument has the type the conversion reads; C strings hold no NUL. */
  predicate Fits(s: Spec, c: char, a: Arg) {
    match c
    case 's' => a.Null? || (a.Text? && '\0' !in a.s)
    case 'c' => a.Num? && -0x8000_0000 <= a.v < 0x8000_0000
    case 'd' => a.Num? && (if s.long then -0x8000_0000_0000_0000 <= a.v < 0x8000_0000_0000_0000 else -0x8000_0000 <= a.v < 0x8000_0000)
    case 'i' => a.Num? && (if s.long then -0x8000_0000_0000_0000 <= a.v < 0x8000_0000_0000_0000 else -0x8000_0000 <= a.v < 0x8000_0000)
    case 'u' => a.Num? && 0 <= a.v < (if s.long then WORDS else 0x1_0000_0000)
    case 'x' => a.Num? && 0 <= a.v < (if s.long then WORDS else 0x1_0000_0000)
    case 'p' => a.Num? && 0 <= a.v < WORDS
    case _ => true
  }

  // ----- The renderer without a buffer

  function Fill(c: char, n: int): string {
    if n <= 0 then "" else seq(n, _ => c)
  }

  function Sign(neg: bool): string {
    if neg then "-" else ""
  }

  /** The sign, the padding up to the width, the digits. */
  function Padded(sign: string, pad: char, width: nat, digits: string): string {
    sign + Fill(pad, width - (|digits| + |sign|)) + digits
  }

  function Abs(v: int): nat {
    if v < 0 then -v else v
  }

  function Number(pad: char, width: nat, v: int, b: Base): string {
    Padded(Sign(v < 0), pad, width, Numeral(Abs(v), b))
  }

  function Shown(a: Arg): string {
    match a case Text(t) => t case Null => "(null)" case Num(_) => ""
  }

  function Item(s: Spec, c: char, a: Arg): string
    requires Fits(s, c, a)
  {
    match c
    case 's' => Fill(' ', s.width - |Shown(a)|) + Shown(a)
    case 'c' => [(a.v % 256) as char]
    case '%' => "%"
    case 'p' => "0x" + Number(s.pad, s.width, a.v, Sixteen)
    case 'd' => Number(s.pad, s.width, a.v, Ten)
    case 'i' => Number(s.pad, s.width, a.v, Ten)
    case 'u' => Number(s.pad, s.width, a.v, Ten)
    case 'x' => Number(s.pad, s.width, a.v, Sixteen)
    case _ => "?"
  }

  /** The argument conversion c reads when a of them are gone, and how many are gone then. */
  function Operand(args: seq<Arg>, a: nat, c: char): Arg {
    if Takes(c) && a < |args| then args[a] else Null
  }

  function After(a: nat, c: char): nat {
    if Takes(c) then a + 1 else a
  }

  /** From i on the format is complete and its conversions match the arguments from a on. */
  predicate Complete(f: string, i: nat, args: seq<Arg>, a: nat)
    requires i <= |f|
    decreases |f| - i
  {
    if i == |f| then true
    else if f[i] != '%' then Complete(f, i + 1, args, a)
    else
      var s := SpecAt(f, i + 1);
      && s.at < |f|
      && (Takes(f[s.at]) ==> a < |args|)
      && Fits(s, f[s.at], Operand(args, a, f[s.at]))
      && Complete(f, s.at + 1, args, After(a, f[s.at]))
  }

  /** A format taken apart: characters, and directives with their arguments. */
  datatype Parts = Done | Plain(sign: char, rest: Parts) | Directive(spec: Spec, letter: char, arg: Arg, rest: Parts)

  predicate Proper(p: Parts) {
    match p
    case Done => true
    case Plain(_, rest) => Proper(rest)
    case Directive(s, c, x, rest) => Fits(s, c, x) && Proper(rest)
  }

  function PartsOf(f: string, i: nat, args: seq<Arg>, a: nat): (p: Parts)
    requires i <= |f| && Complete(f, i, args, a)
    ensures Proper(p)
    decreases |f| - i
  {
    if i == |f| then Done
    else if f[i] != '%' then Plain(f[i], PartsOf(f, i + 1, args, a))
    else
      var s := SpecAt(f, i + 1);
      var c := f[s.at];
      Directive(s, c, Operand(args, a, c), PartsOf(f, s.at + 1, args, After(a, c)))
  }

  function Text(p: Parts): string
    requires Proper(p)
  {
    match p
    case Done => ""
    case Plain(c, rest) => [c] + Text(rest)
    case Directive(s, c, x, rest) => Item(s, c, x) + Text(rest)
  }

  function Render(f: string, i: nat, args: seq<Arg>, a: nat): string
    requires i <= |f| && Complete(f, i, args, a)
  {
    Text(PartsOf(f, i, args, a))
  }

  /** The conversions that take an argument. */
  lemma TakesExactly(c: char)
    ensures Takes(c) <==> c == 's' || c == 'c' || c == 'p' || c == 'd' || c == 'i' || c == 'u' || c == 'x'
  {
  }

  /** A null string is shown as such. */
  lemma NullIsShown(s: Spec)
    ensures Item(s, 's', Null) == Fill(' ', s.width - 6) + "(null)"
  {
  }

  /** The arguments the parts take. */
  ghost function ArgsOf(p: Parts): seq<Arg> {
    match p
    case Done => []
    case Plain(_, rest) => ArgsOf(rest)
    case Directive(_, c, x, rest) => (if c in "scpdiux" then [x] else []) + ArgsOf(rest)
  }

  /** They are taken one after the other, from the first on. */
  lemma {:induction false} ArgsInOrder(f: string, i: nat, args: seq<Arg>, a: nat)
    requires i <= |f| && Complete(f, i, args, a) && a <= |args|
    ensures ArgsOf(PartsOf(f, i, args, a)) <= args[a..]
    decreases |f| - i
  {
    if i < |f| && f[i] != '%' {
      ArgsInOrder(f, i + 1, args, a);
    } else if i < |f| {
      var s := SpecAt(f, i + 1);
      var c := f[s.at];
      ArgsInOrder(f, s.at + 1, args, After(a, c));
      assert Takes(c) ==> args[a..] == [args[a]] + args[a + 1..];
    }
  }

  // ----- The formatter

  /** The buffer's old contents, the size the caller gave, and the text emitted so far. */
  datatype Out = Out(was: string, size: nat, text: string)

  /** The characters of the text before the last place are stored, nothing else is, and pos counts them all. */
  ghost predicate Written(now: string, pos: nat, o: Out) {
    match o
    case Out(was, size, text) =>
      && |now| == |was| && size <= |was| && pos == |text|
      && forall k | 0 <= k < |now| :: now[k] == if k < |text| && k + 1 < size then text[k] else was[k]
  }

  ghost function More(o: Out, s: string): Out {
    o.(text := o.text + s)
  }

  lemma MoreAdds(o: Out, s: string, t: string)
    ensures More(More(o, s), t) == More(o, s + t)
  {
    assert o.text + s + t == o.text + (s + t);
  }

  /** EMIT for one character. */
  method EmitChar(str: array<char>, size: nat, pos: nat, c: char, ghost o: Out) returns (next: nat)
    requires Written(str[..], pos, o) && size == o.size
    modifies str
    ensures Written(str[..], next, More(o, [c]))
  {
    if pos + 1 < size {
      str[pos] := c;
    }
    next := pos + 1;
  }

  method Emit(str: array<char>, size: nat, pos: nat, s: string, ghost o: Out) returns (next: nat)
    requires Written(str[..], pos, o) && size == o.size
    modifies str
    ensures Written(str[..], next, More(o, s))
  {
    next := pos;
    assert More(o, s[..0]) == o;
    for i := 0 to |s|
      invariant Written(str[..], next, More(o, s[..i]))
    {
      next := EmitChar(str, size, next, s[i], More(o, s[..i]));
      MoreAdds(o, s[..i], [s[i]]);
      assert s[..i + 1] == s[..i] + [s[i]];
    }
    assert s[..|s|] == s;
  }

  /** The padding loop: pad while the width exceeds what is still to come. */
  method EmitPad(str: array<char>, size: nat, pos: nat, pad: char, width: nat, rest: nat, ghost o: Out)
    returns (next: nat)
    requires Written(str[..], pos, o) && size == o.size
    modifies str
    ensures Written(str[..], next, More(o, Fill(pad, width - rest)))
  {
    next := pos;
    var w := width;
    assert More(o, Fill(pad, 0)) == o;
    while w > rest
      invariant w <= width && (w < rest ==> w == width)
      invariant Written(str[..], next, More(o, Fill(pad, width - w)))
    {
      next := EmitChar(str, size, next, pad, More(o, Fill(pad, width - w)));
      MoreAdds(o, Fill(pad, width - w), [pad]);
      assert Fill(pad, width - w + 1) == Fill(pad, width - w) + [pad];
      w := w - 1;
    }
  }

  /** The digit loop: tmp from its last digit back to its first. */
  method EmitDigits(str: array<char>, size: nat, pos: nat, tmp: array<char>, n: nat, ghost digits: string, ghost o: Out)
    returns (next: nat)
    requires Written(str[..], pos, o) && size == o.size
    requires str != tmp && n == |digits| <= tmp.Length && forall k | 0 <= k < n :: tmp[k] == digits[n - 1 - k]
    modifies str
    ensures Written(str[..], next, More(o, digits))
  {
    next := pos;
    var left := n;
    assert More(o, digits[..0]) == o;
    while left > 0
      invariant 0 <= left <= n && Written(str[..], next, More(o, digits[..n - left]))
    {
      next := EmitChar(str, size, next, tmp[left - 1], More(o, digits[..n - left]));
      MoreAdds(o, digits[..n - left], [tmp[left - 1]]);
      assert digits[..n - left + 1] == digits[..n - left] + [tmp[left - 1]];
      left := left - 1;
    }
    assert digits[..n] == digits;
  }

  /** Sign, padding, digits. */
  method EmitParts(str: array<char>, size: nat, pos: nat, sp: Spec, sign: string, tmp: array<char>, n: nat,
                   ghost digits: string, ghost o: Out)
    returns (next: nat)
    requires Written(str[..], pos, o) && size == o.size
    requires str != tmp && n == |digits| <= tmp.Length && forall k | 0 <= k < n :: tmp[k] == digits[n - 1 - k]
    modifies str
    ensures Written(str[..], next, More(o, Padded(sign, sp.pad, sp.width, digits)))
  {
    ghost var fill := Fill(sp.pad, sp.width - (n + |sign|));
    next := Emit(str, size, pos, sign, o);
    next := EmitPad(str, size, next, sp.pad, sp.width, n + |sign|, More(o, sign));
    MoreAdds(o, sign, fill);
    next := EmitDigits(str, size, next, tmp, n, digits, More(o, sign + fill));
    MoreAdds(o, sign + fill, digits);
  }

  /** The number case. */
  method EmitNumber(str: array<char>, size: nat, pos: nat, sp: Spec, neg: bool, v: nat, b: Base, ghost o: Out)
    returns (next: nat)
    requires Written(str[..], pos, o) && size == o.size && v < WORDS && (neg ==> v > 0)
    modifies str
    ensures Written(str[..], next, More(o, Number(sp.pad, sp.width, Signed(neg, v), b)))
  {
    var tmp := new char[24];
    var n := FmtNumber(tmp, v, b);
    assert (Signed(neg, v) < 0) == neg && Abs(Signed(neg, v)) == v;
    next := EmitParts(str, size, pos, sp, Sign(neg), tmp, n, Numeral(v, b), o);
  }

  function Signed(neg: bool, v: nat): int {
    if neg then 0 - v else v
  }

  /** 0ULL - (unsigned long long)l in 64-bit arithmetic is the magnitude of a negative l, the least one included. */
  lemma Magnitude(l: int)
    requires -0x8000_0000_0000_0000 <= l < 0
    ensures (0 - l % WORDS) % WORDS == -l
  {
  }

  /** The d and i cases: the magnitude in unsigned arithmetic. */
  method EmitSigned(str: array<char>, size: nat, pos: nat, sp: Spec, l: int, ghost o: Out) returns (next: nat)
    requires Written(str[..], pos, o) && size == o.size
    requires -0x8000_0000_0000_0000 <= l < 0x8000_0000_0000_0000
    modifies str
    ensures Written(str[..], next, More(o, Number(sp.pad, sp.width, l, Ten)))
  {
    if l < 0 {
      Magnitude(l);
      next := EmitNumber(str, size, pos, sp, true, (0 - l % WORDS) % WORDS, Ten, o);
    } else {
      next := EmitNumber(str, size, pos, sp, false, l, Ten, o);
    }
  }

  method EmitText(str: array<char>, size: nat, pos: nat, width: nat, s: string, ghost o: Out) returns (next: nat)
    requires Written(str[..], pos, o) && size == o.size
    modifies str
    ensures Written(str[..], next, More(o, Fill(' ', width - |s|) + s))
  {
    next := EmitPad(str, size, pos, ' ', width, |s|, o);
    next := Emit(str, size, next, s, More(o, Fill(' ', width - |s|)));
    MoreAdds(o, Fill(' ', width - |s|), s);
  }

  method EmitPointer(str: array<char>, size: nat, pos: nat, sp: Spec, v: nat, ghost o: Out) returns (next: nat)
    requires Written(str[..], pos, o) && size == o.size && v < WORDS
    modifies str
    ensures Written(str[..], next, More(o, "0x" + Number(sp.pad, sp.width, v, Sixteen)))
  {
    next := Emit(str, size, pos, "0x", o);
    next := EmitNumber(str, size, next, sp, false, v, Sixteen, More(o, "0x"));
    MoreAdds(o, "0x", Number(sp.pad, sp.width, v, Sixteen));
  }

  /** One directive. */
  method EmitItem(str: array<char>, size: nat, pos: nat, sp: Spec, c: char, a: Arg, ghost o: Out)
    returns (next: nat)
    requires Written(str[..], pos, o) && size == o.size && Fits(sp, c, a)
    modifies str
    ensures Written(str[..], next, More(o, Item(sp, c, a)))
  {
    match c {
      case 's' => next := EmitText(str, size, pos, sp.width, Shown(a), o);
      case 'c' => next := Emit(str, size, pos, [(a.v % 256) as char], o);
      case '%' => next := Emit(str, size, pos, "%", o);
      case 'p' => next := EmitPointer(str, size, pos, sp, a.v, o);
      case 'd' => next := EmitSigned(str, size, pos, sp, a.v, o);
      case 'i' => next := EmitSigned(str, size, pos, sp, a.v, o);
      case 'u' => next := EmitNumber(str, size, pos, sp, false, a.v, Ten, o);
      case 'x' => next := EmitNumber(str, size, pos, sp, false, a.v, Sixteen, o);
      case _ => next := Emit(str, size, pos, "?", o);
    }
  }

  // ----- vsnprintf

  /** The conversion (int)pos. */
  function ToInt(pos: nat): int {
    var w := pos % 0x1_0000_0000;
    if w < 0x8000_0000 then w else w - 0x1_0000_0000
  }

  /** The first size - 1 characters of the text and a NUL are stored, or nothing if the size is 0. */
  ghost predicate Stored(now: string, was: string, size: nat, text: string) {
    && |now| == |was| && size <= |was|
    && (size == 0 ==> now == was)
    && (size > 0 ==>
      var end := if |text| < size then |text| else size - 1;
      now[..end] == text[..end] && now[end] == '\0' && now[end + 1..] == was[end + 1..])
  }

  lemma Terminated(now: string, o: Out, end: nat)
    requires Written(now, |o.text|, o) && o.size > 0 && end == if |o.text| < o.size then |o.text| else o.size - 1
    ensures Stored(now[end := '\0'], o.was, o.size, o.text)
  {
  }

  /** The text still to come, at position i of the format and argument a. */
  ghost predicate Remains(f: string, args: seq<Arg>, i: nat, a: nat, o: Out) {
    && i <= |f| && Complete(f, 0, args, 0) && Complete(f, i, args, a)
    && Render(f, 0, args, 0) == o.text + Render(f, i, args, a)
  }

  lemma RemainsChar(f: string, args: seq<Arg>, i: nat, a: nat, o: Out)
    requires Remains(f, args, i, a, o) && i < |f| && f[i] != '%'
    ensures Remains(f, args, i + 1, a, More(o, [f[i]]))
  {
    assert o.text + ([f[i]] + Render(f, i + 1, args, a)) == o.text + [f[i]] + Render(f, i + 1, args, a);
  }

  lemma Associates(a: string, b: string, c: string)
    ensures a + (b + c) == a + b + c
  {
  }

  /** A complete format that goes on with a directive. */
  lemma ItemAt(f: string, args: seq<Arg>, i: nat, a: nat, s: Spec)
    requires i < |f| && Complete(f, i, args, a) && f[i] == '%' && s == SpecAt(f, i + 1)
    ensures s.at < |f| && (Takes(f[s.at]) ==> a < |args|) && Fits(s, f[s.at], Operand(args, a, f[s.at]))
    ensures Complete(f, s.at + 1, args, After(a, f[s.at]))
    ensures Render(f, i, args, a) == Item(s, f[s.at], Operand(args, a, f[s.at])) + Render(f, s.at + 1, args, After(a, f[s.at]))
  {
  }

  /** What the directive at i leaves to come. */
  lemma RemainsItem(f: string, args: seq<Arg>, i: nat, a: nat, o: Out, s: Spec)
    requires Remains(f, args, i, a, o) && i < |f| && f[i] == '%' && s == SpecAt(f, i + 1)
    ensures s.at < |f| && (Takes(f[s.at]) ==> a < |args|) && Fits(s, f[s.at], Operand(args, a, f[s.at]))
    ensures Remains(f, args, s.at + 1, After(a, f[s.at]), More(o, Item(s, f[s.at], Operand(args, a, f[s.at]))))
  {
    ItemAt(f, args, i, a, s);
    var c := f[s.at];
    Associates(o.text, Item(s, c, Operand(args, a, c)), Render(f, s.at + 1, args, After(a, c)));
  }

  /** The round of the loop that starts at a percent sign. */
  method EmitDirective(str: array<char>, size: nat, pos: nat, f: string, i: nat, args: seq<Arg>, a: nat, ghost o: Out)
    returns (next: nat, j: nat, b: nat, ghost o': Out)
    requires Remains(f, args, i, a, o) && i < |f| && f[i] == '%' && Written(str[..], pos, o) && size == o.size
    modifies str
    ensures Remains(f, args, j, b, o') && Written(str[..], next, o') && j > i && o'.was == o.was && o'.size == o.size
  {
    var sp := ReadSpec(f, i + 1);
    RemainsItem(f, args, i, a, o, sp);
    var c := f[sp.at];
    var arg := Operand(args, a, c);
    o' := More(o, Item(sp, c, arg));
    next := EmitItem(str, size, pos, sp, c, arg, o);
    j, b := sp.at + 1, After(a, c);
  }

  /** The NUL behind the stored text. */
  method Terminate(str: array<char>, size: nat, pos: nat, ghost o: Out)
    requires Written(str[..], pos, o) && size == o.size
    modifies str
    ensures Stored(str[..], o.was, size, o.text)
  {
    if size != 0 {
      var end := if pos < size then pos else size - 1;
      Terminated(str[..], o, end);
      str[end] := '\0';
    } else {
      assert str[..] == o.was;
    }
  }

  /** The loop over the format. */
  method EmitAll(str: array<char>, size: nat, format: string, args: seq<Arg>) returns (pos: nat, ghost o: Out)
    requires size <= str.Length && Complete(format, 0, args, 0)
    modifies str
    ensures Written(str[..], pos, o) && o == Out(old(str[..]), size, Render(format, 0, args, 0))
  {
    var i: nat, a: nat := 0, 0;
    pos := 0;
    o := Out(str[..], size, "");
    while i < |format|
      invariant o.was == old(str[..]) && o.size == size
      invariant Remains(format, args, i, a, o) && Written(str[..], pos, o)
      decreases |format| - i
    {
      if format[i] != '%' {
        RemainsChar(format, args, i, a, o);
        pos := EmitChar(str, size, pos, format[i], o);
        o := More(o, [format[i]]);
        i := i + 1;
      } else {
        pos, i, a, o := EmitDirective(str, size, pos, format, i, args, a, o);
      }
    }
    assert o.text == Render(format, 0, args, 0);
  }

  /** An int is what is left of the position modulo 2^32. */
  lemma ToIntExactly(pos: nat)
    ensures -0x8000_0000 <= ToInt(pos) < 0x8000_0000 && (pos - ToInt(pos)) % 0x1_0000_0000 == 0
  {
  }

  lemma SmallInt(pos: nat)
    requires pos < 0x8000_0000
    ensures ToInt(pos) == pos
  {
  }

  /**
   vsnprintf: the whole text is the renderer's; its first size - 1 characters and a NUL are stored, no other
   place is written, and its full length is returned, as an int.
   */
  method Vsnprintf(str: array<char>, size: nat, format: string, args: seq<Arg>) returns (r: int)
    requires size <= str.Length && Complete(format, 0, args, 0)
    modifies str
    ensures Stored(str[..], old(str[..]), size, Render(format, 0, args, 0))
    ensures r == ToInt(|Render(format, 0, args, 0)|)
    ensures |Render(format, 0, args, 0)| < 0x8000_0000 ==> r == |Render(format, 0, args, 0)|
  {
    var pos;
    ghost var o;
    pos, o := EmitAll(str, size, format, args);
    Terminate(str, size, pos, o);
    r := ToInt(pos);
    if pos < 0x8000_0000 {
      SmallInt(pos);
    }
  }

  // ----- What a rendered number says

  lemma {:induction false} LeadingZeros(k: nat, s: string, b: Base)
    ensures Value(Fill('0', k) + s, b) == Value(s, b)
    decreases |s|, k
  {
    var t := Fill('0', k) + s;
    if s != "" {
      LeadingZeros(k, s[..|s| - 1], b);
      assert t[..|t| - 1] == Fill('0', k) + s[..|s| - 1];
    } else if k > 0 {
      LeadingZeros(k - 1, s, b);
      assert t[..|t| - 1] == Fill('0', k - 1) + s;
    }
  }

  /** The text is the sign followed by digits that denote v. */
  ghost predicate Reads(out: string, sign: string, v: nat, b: Base) {
    |sign| <= |out| && out[..|sign|] == sign && Value(out[|sign|..], b) == v
  }

  lemma Cut(a: string, b: string, c: string)
    ensures (a + b + c)[|a|..] == b + c && (a + b + c)[..|a|] == a
  {
  }

  lemma PaddedDenotes(sign: string, width: nat, digits: string, b: Base)
    requires |sign| <= 1
    ensures Reads(Padded(sign, '0', width, digits), sign, Value(digits, b), b)
  {
    var fill := Fill('0', width - (|digits| + |sign|));
    assert fill == Fill('0', |fill|);
    LeadingZeros(|fill|, digits, b);
    Cut(sign, fill, digits);
  }

  /** Zero-padded or unpadded, the digits behind the sign denote the argument, whatever the width. */
  lemma NumberDenotes(width: nat, v: int, b: Base)
    ensures Reads(Number('0', width, v, b), if v < 0 then "-" else "", if v < 0 then -v else v, b)
  {
    NumeralDenotes(Abs(v), b);
    PaddedDenotes(Sign(v < 0), width, Numeral(Abs(v), b), b);
  }

  /** Padding with spaces as section 7.21.6.1 of ISO C11 has it: in front of the sign. */
  function IsoNumber(pad: char, width: nat, v: int, b: Base): string {
    var sign, digits := Sign(v < 0), Numeral(Abs(v), b);
    var fill := Fill(pad, width - (|digits| + |sign|));
    if pad == '0' then sign + fill + digits else fill + sign + digits
  }

  /** Number agrees with that exactly if it does not pad a negative number with spaces. */
  lemma NumberIsIso(pad: char, width: nat, v: int, b: Base)
    requires pad == '0' || pad == ' '
    ensures Number(pad, width, v, b) == IsoNumber(pad, width, v, b) <==> !SignTooEarly(pad, width, v, b)
  {
    var digits := Numeral(Abs(v), b);
    var fill := Fill(pad, width - (|digits| + |Sign(v < 0)|));
    if v < 0 && pad == ' ' {
      if fill == "" {
        assert "-" + fill + digits == fill + "-" + digits;
      } else {
        assert ("-" + fill + digits)[0] == '-' && (fill + "-" + digits)[0] == ' ';
      }
    } else if v >= 0 {
      assert "" + fill + digits == fill + "" + digits;
    }
  }

  predicate SignTooEarly(pad: char, width: nat, v: int, b: Base) {
    v < 0 && pad == ' ' && width > |Numeral(Abs(v), b)| + 1
  }

  /** The letters of the conversions the formatter supports. */
  predicate Supported(c: char) {
    c in "scpdiux%"
  }

  /**
   Supported directives whose text section 7.21.6.1 of ISO C11 fixes. It leaves the text for p open; the zero flag and
   the length modifier for s and c; NULL for s; and everything but the two characters for a percent sign.
   */
  predicate IsoFixes(s: Spec, c: char, a: Arg) {
    && (s.pad == '0' || s.pad == ' ') && c in "diuxsc%"
    && (c in "sc%" ==> s.pad == ' ' && !s.long)
    && (c == 's' ==> !a.Null?) && (c == '%' ==> s.width == 0)
  }

  /** The text it fixes: the width applies to every one of them. */
  function IsoItem(s: Spec, c: char, a: Arg): string
    requires Fits(s, c, a) && IsoFixes(s, c, a)
  {
    match c
    case 's' => Fill(' ', s.width - |a.s|) + a.s
    case 'c' => Fill(' ', s.width - 1) + [(a.v % 256) as char]
    case '%' => "%"
    case 'x' => IsoNumber(s.pad, s.width, a.v, Sixteen)
    case _ => IsoNumber(s.pad, s.width, a.v, Ten)
  }

  /** A negative number is padded with spaces, or a character has a width. */
  predicate Departs(s: Spec, c: char, a: Arg)
    requires Fits(s, c, a)
  {
    (c in "di" && SignTooEarly(s.pad, s.width, a.v, Ten)) || (c == 'c' && s.width > 1)
  }

  lemma OneChar(width: nat, c: char)
    ensures [c] == Fill(' ', width - 1) + [c] <==> width <= 1
  {
    assert width > 1 ==> |Fill(' ', width - 1)| > 0;
  }

  /** A directive departs from that text exactly then; it never gets longer. */
  lemma IsoExactly(s: Spec, c: char, a: Arg)
    requires Fits(s, c, a) && IsoFixes(s, c, a)
    ensures Item(s, c, a) == IsoItem(s, c, a) <==> !Departs(s, c, a)
    ensures |Item(s, c, a)| <= |IsoItem(s, c, a)|
  {
    match c {
      case 's' =>
      case 'c' => OneChar(s.width, (a.v % 256) as char);
      case '%' =>
      case 'x' => NumberIsIso(s.pad, s.width, a.v, Sixteen);
      case _ => NumberIsIso(s.pad, s.width, a.v, Ten);
    }
  }

  /** Section 7.21.6.1 fixes the text of every directive. */
  predicate AllFixed(p: Parts) {
    match p
    case Done => true
    case Plain(_, rest) => AllFixed(rest)
    case Directive(s, c, x, rest) => IsoFixes(s, c, x) && AllFixed(rest)
  }

  /** The text it fixes for all of them together. */
  function IsoText(p: Parts): string
    requires Proper(p) && AllFixed(p)
  {
    match p
    case Done => ""
    case Plain(c, rest) => [c] + IsoText(rest)
    case Directive(s, c, x, rest) => IsoItem(s, c, x) + IsoText(rest)
  }

  predicate SomeDeparts(p: Parts)
    requires Proper(p)
  {
    match p
    case Done => false
    case Plain(_, rest) => SomeDeparts(rest)
    case Directive(s, c, x, rest) => Departs(s, c, x) || SomeDeparts(rest)
  }

  /** Two texts in two parts each, neither part longer in the first: they are equal exactly if the parts are. */
  lemma PartsAgree(a: string, b: string, a': string, b': string)
    requires |a| <= |a'| && |b| <= |b'|
    ensures a + b == a' + b' <==> a == a' && b == b'
  {
    if a + b == a' + b' {
      assert |a + b| == |a' + b'|;
      assert a == (a + b)[..|a|] && b == (a + b)[|a|..];
      assert a' == (a' + b')[..|a|] && b' == (a' + b')[|a|..];
    }
  }

  lemma {:induction false} PartsExactly(p: Parts)
    requires Proper(p) && AllFixed(p)
    ensures Text(p) == IsoText(p) <==> !SomeDeparts(p)
    ensures |Text(p)| <= |IsoText(p)|
  {
    match p {
      case Done =>
      case Plain(c, rest) =>
        PartsExactly(rest);
        PartsAgree([c], Text(rest), [c], IsoText(rest));
      case Directive(s, c, x, rest) =>
        IsoExactly(s, c, x);
        PartsExactly(rest);
        PartsAgree(Item(s, c, x), Text(rest), IsoItem(s, c, x), IsoText(rest));
    }
  }

  /** Departures never cancel: a whole text is the one fixed exactly if none of its directives departs. */
  lemma TextExactly(f: string, args: seq<Arg>, p: Parts)
    requires Complete(f, 0, args, 0) && p == PartsOf(f, 0, args, 0) && AllFixed(p)
    ensures Proper(p) && (Render(f, 0, args, 0) == IsoText(p) <==> !SomeDeparts(p))
    ensures |Render(f, 0, args, 0)| <= |IsoText(p)|
  {
    PartsExactly(p);
  }

  /** Every other letter leaves a question mark and the arguments alone. */
  lemma OtherLetter(f: string, i: nat, args: seq<Arg>, a: nat)
    requires i < |f| && f[i] == '%' && SpecAt(f, i + 1).at < |f| && !Supported(f[SpecAt(f, i + 1).at])
    requires Complete(f, SpecAt(f, i + 1).at + 1, args, a)
    ensures Complete(f, i, args, a)
    ensures Render(f, i, args, a) == "?" + Render(f, SpecAt(f, i + 1).at + 1, args, a)
  {
  }

  /** For example, a capital X, for which section 7.21.6.1 has hexadecimal digits. */
  lemma CapitalX(args: seq<Arg>)
    ensures Complete("%X", 0, args, 0) && Render("%X", 0, args, 0) == "?"
  {
    var f := "%X";
    assert SkipDigits(f, 1) == 1 && SkipLong(f, 1) == 1;
    assert Complete(f, 2, args, 0);
    OtherLetter(f, 0, args, 0);
  }

  /** Or a minus flag, for which it has padding on the right. */
  lemma MinusFlag(args: seq<Arg>)
    ensures Complete("%-4d", 0, args, 0) && Render("%-4d", 0, args, 0) == "?4d"
  {
    var f := "%-4d";
    assert SkipDigits(f, 1) == 1 && SkipLong(f, 1) == 1;
    assert Complete(f, 4, args, 0) && Render(f, 4, args, 0) == "";
    assert Complete(f, 3, args, 0) && Render(f, 3, args, 0) == "d";
    assert Complete(f, 2, args, 0) && Render(f, 2, args, 0) == "4d";
    OtherLetter(f, 0, args, 0);
  }

  /** A directive of a single-digit width. */
  lemma OneWide(f: string, i: nat, d: nat)
    requires |f| == i + 2 && 1 <= d <= 9 && f[i] == Digit(d) && !IsDigit(f[i + 1]) && !IsLong(f[i + 1])
    ensures SpecAt(f, i) == Spec(' ', d, false, i + 1)
  {
    DigitDenotes(d);
    assert SkipDigits(f, i + 1) == i + 1 && WidthFrom(f, i + 1, d) == d;
  }

  /** A format that ends with its directive. */
  lemma LastItem(f: string, i: nat, args: seq<Arg>, a: nat, s: Spec)
    requires i < |f| && f[i] == '%' && s == SpecAt(f, i + 1) && s.at == |f| - 1 && a < |args|
    requires Takes(f[s.at]) && Fits(s, f[s.at], args[a])
    ensures Complete(f, i, args, a) && Render(f, i, args, a) == Item(s, f[s.at], args[a])
  {
    assert Complete(f, |f|, args, a + 1) && Render(f, |f|, args, a + 1) == "";
  }

  lemma MinusFive(width: nat)
    requires width == 4
    ensures Number(' ', width, -5, Ten) == "-  5" && IsoNumber(' ', width, -5, Ten) == "  -5"
  {
    assert Numeral(5, Ten) == "5";
    assert Fill(' ', 2) == "  ";
  }

  /** For example, minus five in a width of four. */
  lemma SignBeforeSpaces()
    ensures Complete("%4d", 0, [Num(-5)], 0) && Render("%4d", 0, [Num(-5)], 0) == "-  5"
    ensures SpecAt("%4d", 1) == Spec(' ', 4, false, 2) && IsoItem(SpecAt("%4d", 1), 'd', Num(-5)) == "  -5"
  {
    OneWide("%4d", 1, 4);
    LastItem("%4d", 0, [Num(-5)], 0, Spec(' ', 4, false, 2));
    MinusFive(4);
  }

  /** For example, the letter A in a width of four. */
  lemma CharIgnoresWidth()
    ensures Complete("%4c", 0, [Num(65)], 0) && Render("%4c", 0, [Num(65)], 0) == "A"
    ensures SpecAt("%4c", 1) == Spec(' ', 4, false, 2) && IsoItem(SpecAt("%4c", 1), 'c', Num(65)) == "   A"
  {
    OneWide("%4c", 1, 4);
    LastItem("%4c", 0, [Num(65)], 0, Spec(' ', 4, false, 2));
  }
}
