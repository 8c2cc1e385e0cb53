/**
 * The number parsers of kern/stdlib/std.c: `strtol`, `strtoul` and `atoi`.
 * On i386 `int`, `long` and `unsigned long` are 32 bits wide. The parsers
 * read a C string in memory (a byte sequence indexed by address) and
 * return the value together with the address `endptr` would receive.
 *
 * The reference meaning of a parse is stated without the parsers' cutoff
 * arithmetic: the digits after the optional white space, sign and "0x"
 * prefix have a value (read most significant digit first), and the parse
 * overflows exactly when that value exceeds the magnitude the result type
 * can hold.
 */
module StdNumber {
  import opened Types
  import opened CType
  import opened StdString

  const LONG_MAX: int := 0x7FFF_FFFF
  const LONG_MIN: int := -0x8000_0000
  const ULONG_MAX: int := 0xFFFF_FFFF

  /** A 32-bit `int` or `long`. */
  type I32 = x: int | LONG_MIN <= x <= LONG_MAX

  // ---------------------------------------------------------------------
  // Digits and their value
  // ---------------------------------------------------------------------

  /** The value of code c as a digit of some base: '0'..'9' are 0..9, letters of either case are 10..35, anything else is -1. */
  function DigitOf(c: int): (v: int)
    ensures -1 <= v < 36
    ensures v >= 0 <==> IsAlnum(c)
  {
    if IsDigit(c) then c - '0' as int
    else if IsAlpha(c) then c - (if IsUpper(c) then 'A' as int - 10 else 'a' as int - 10)
    else -1
  }

  /** Code c is a digit of base b. */
  predicate IsDigitIn(c: int, b: int)
  {
    0 <= DigitOf(c) < b
  }

  /** Every byte of ds is a digit of base b. */
  predicate AllDigits(ds: seq<Byte>, b: int)
  {
    forall k :: 0 <= k < |ds| ==> IsDigitIn(ds[k], b)
  }

  /** One step of the accumulator: v scaled by the base b, plus digit c. */
  function Shift(v: nat, b: nat, c: nat): nat
  {
    v * b + c
  }

  /** The value of the digits ds in base b, most significant first. */
  function Value(ds: seq<Byte>, b: int): nat
    requires AllDigits(ds, b)
  {
    if |ds| == 0 then 0
    else
      assert IsDigitIn(ds[|ds| - 1], b);
      Shift(Value(ds[..|ds| - 1], b), b, DigitOf(ds[|ds| - 1]))
  }

  /** One more digit: the value is scaled by the base and the digit added. */
  lemma ValueSnoc(ds: seq<Byte>, c: Byte, b: int)
    requires AllDigits(ds, b) && IsDigitIn(c, b)
    ensures AllDigits(ds + [c], b)
    ensures Value(ds + [c], b) == Shift(Value(ds, b), b, DigitOf(c))
  {
    assert (ds + [c])[..|ds|] == ds;
  }

  /** The number of digits of base b at and after p. */
  function Run(m: seq<Byte>, p: nat, b: int): (n: nat)
    requires Terminated(m, p)
    ensures p + n < |m| && !IsDigitIn(m[p + n], b)
    ensures AllDigits(m[p..p + n], b)
    decreases Len(m, p)
  {
    if !IsDigitIn(m[p], b) then 0
    else
      LenStep(m, p);
      var n := 1 + Run(m, p + 1, b);
      assert m[p..p + n] == [m[p]] + m[p + 1..p + n];
      n
  }

  /** A run that starts with a digit is that digit and the run after it. */
  lemma RunStep(m: seq<Byte>, p: nat, b: int)
    requires Terminated(m, p) && IsDigitIn(m[p], b)
    ensures Terminated(m, p + 1) && Run(m, p, b) == 1 + Run(m, p + 1, b)
  {
    LenStep(m, p);
  }

  /** The bytes from a up to b + 1 are those up to b and then byte b. */
  lemma SliceSnoc(m: seq<Byte>, a: nat, b: nat)
    requires a <= b < |m|
    ensures m[a..b + 1] == m[a..b] + [m[b]]
  {
  }

  /** A run of n digits followed by a non-digit has length n. */
  lemma {:induction false} RunUnique(m: seq<Byte>, p: nat, n: nat, b: int)
    requires Terminated(m, p) && p + n < |m|
    requires AllDigits(m[p..p + n], b) && !IsDigitIn(m[p + n], b)
    ensures Run(m, p, b) == n
    decreases n
  {
    if n > 0 {
      assert m[p..p + n][0] == m[p];
      LenStep(m, p);
      assert m[p + 1..p + n] == m[p..p + n][1..];
      RunUnique(m, p + 1, n - 1, b);
    }
  }

  // ---------------------------------------------------------------------
  // White space, sign and base prefix
  // ---------------------------------------------------------------------

  /** The address of the first byte at or after p that is not white space. */
  function SkipSpace(m: seq<Byte>, p: nat): (q: nat)
    requires Terminated(m, p)
    ensures p <= q < |m| && Terminated(m, q) && !IsSpace(m[q])
    ensures forall k :: p <= k < q ==> IsSpace(m[k])
    decreases Len(m, p)
  {
    if IsSpace(m[p]) then LenStep(m, p); SkipSpace(m, p + 1) else p
  }

  /** What the parsers settle before their digit loop: the sign, the effective base and the address of the first digit. */
  datatype Header = Header(neg: bool, base: int, start: nat)

  /** The address after an optional '+' or '-' at q. */
  function AfterSign(m: seq<Byte>, q: nat): (p: nat)
    requires Terminated(m, q)
    ensures p == if m[q] == '-' as int || m[q] == '+' as int then q + 1 else q
    ensures Terminated(m, p)
  {
    if m[q] == '-' as int || m[q] == '+' as int then LenStep(m, q); q + 1 else q
  }

  /**
   * The base and first digit address settled at p: under base 0 or 16 a
   * "0x" or "0X" is skipped and the base becomes 16; otherwise base 0
   * becomes 8 when the byte at p is '0' and 10 when it is not.
   */
  function BaseAt(m: seq<Byte>, p: nat, base: int): (h: Header)
    requires Terminated(m, p)
    ensures !h.neg && Terminated(m, h.start)
    ensures h.start == p || h.start == p + 2
    ensures h.start == p + 2 <==>
      (base == 0 || base == 16) && m[p] == '0' as int && (m[p + 1] == 'x' as int || m[p + 1] == 'X' as int)
    ensures h.start == p + 2 ==> h.base == 16
    ensures h.start == p ==> h.base == if base == 0 then (if m[p] == '0' as int then 8 else 10) else base
  {
    if (base == 0 || base == 16) && m[p] == '0' as int && (LenStep(m, p); m[p + 1] == 'x' as int || m[p + 1] == 'X' as int) then
      LenStep(m, p + 1);
      Header(false, 16, p + 2)
    else if base == 0 then
      Header(false, if m[p] == '0' as int then 8 else 10, p)
    else
      Header(false, base, p)
  }

  /** White space is skipped and one '+' or '-' taken; then the base prefix is settled. */
  function Prefix(m: seq<Byte>, nptr: nat, base: int): (h: Header)
    requires Terminated(m, nptr)
    ensures nptr <= h.start && Terminated(m, h.start)
    ensures base != 0 && base != 16 ==> h.base == base
    ensures base == 0 ==> h.base in {8, 10, 16}
    ensures base == 16 ==> h.base == 16
  {
    var q := SkipSpace(m, nptr);
    var h := BaseAt(m, AfterSign(m, q), base);
    h.(neg := m[q] == '-' as int)
  }

  // ---------------------------------------------------------------------
  // Reference results
  // ---------------------------------------------------------------------

  /** A parse result: the value returned and the address stored through `endptr`. */
  datatype Parse = Parse(value: int, end: nat)

  /**
   * `strtol` as specified: no digits gives 0 and hands back nptr; a value
   * beyond LONG_MAX (beyond -LONG_MIN after '-') gives LONG_MAX (LONG_MIN);
   * otherwise the value, negated after '-'. `endptr` then gets the address
   * of the first byte after the digits.
   */
  function LongOf(m: seq<Byte>, nptr: nat, base: int): (r: Parse)
    requires Terminated(m, nptr)
    ensures LONG_MIN <= r.value <= LONG_MAX
    ensures r.end == nptr <==> Run(m, Prefix(m, nptr, base).start, Prefix(m, nptr, base).base) == 0
    ensures r.end == nptr ==> r.value == 0
  {
    var h := Prefix(m, nptr, base);
    var n := Run(m, h.start, h.base);
    if n == 0 then Parse(0, nptr)
    else
      var v := Value(m[h.start..h.start + n], h.base);
      if h.neg then
        Parse(if v > -LONG_MIN then LONG_MIN else -(v as int), h.start + n)
      else
        Parse(if v > LONG_MAX then LONG_MAX else v, h.start + n)
  }

  /**
   * `strtoul` as specified: as `strtol` with the single bound ULONG_MAX,
   * and a '-' negates the value modulo 2^32.
   */
  function ULongOf(m: seq<Byte>, nptr: nat, base: int): (r: Parse)
    requires Terminated(m, nptr)
    ensures 0 <= r.value <= ULONG_MAX
    ensures r.end == nptr <==> Run(m, Prefix(m, nptr, base).start, Prefix(m, nptr, base).base) == 0
    ensures r.end == nptr ==> r.value == 0
  {
    var h := Prefix(m, nptr, base);
    var n := Run(m, h.start, h.base);
    if n == 0 then Parse(0, nptr)
    else
      var v := Value(m[h.start..h.start + n], h.base);
      if v > ULONG_MAX then Parse(ULONG_MAX, h.start + n)
      else if h.neg then Parse((WORD_MOD - v) % WORD_MOD, h.start + n)
      else Parse(v, h.start + n)
  }

  // ---------------------------------------------------------------------
  // The parsers
  // ---------------------------------------------------------------------


  /** The `do … while (isspace(c))` loop, the sign and the base prefix, shared by `strtol` and `strtoul`. */
  method ScanPrefix(m: seq<Byte>, nptr: nat, base: int) returns (neg: bool, b: int, s: nat)
    requires Terminated(m, nptr)
    ensures Header(neg, b, s) == Prefix(m, nptr, base)
  {
    var i := nptr;
    while IsSpace(m[i])
      invariant nptr <= i <= SkipSpace(m, nptr)
      invariant Terminated(m, i) && SkipSpace(m, i) == SkipSpace(m, nptr)
      decreases Len(m, i)
    {
      LenStep(m, i);
      i := i + 1;
    }
    neg := false;
    if m[i] == '-' as int {
      neg := true;
      i := i + 1;
    } else if m[i] == '+' as int {
      i := i + 1;
    }
    assert i == AfterSign(m, SkipSpace(m, nptr));
    b := base;
    if (base == 0 || base == 16) && m[i] == '0' as int && (m[i + 1] == 'x' as int || m[i + 1] == 'X' as int) {
      i := i + 2;
      b := 16;
    }
    if b == 0 {
      b := if m[i] == '0' as int then 8 else 10;
    }
    s := i;
  }

  /**
   * The overflow test of the digit loop: with cutoff and cutlim the
   * quotient and remainder of limit by b, one more digit c takes acc past
   * limit exactly when acc exceeds cutoff, or equals it and c exceeds cutlim.
   */
  lemma CutoffTest(acc: nat, c: nat, b: nat, limit: nat)
    requires c < b
    ensures Shift(acc, b, c) > limit <==> acc > limit / b || (acc == limit / b && c > limit % b)
  {
    var q, r := limit / b, limit % b;
    assert limit == q * b + r;
    if acc > q {
      assert acc * b >= (q + 1) * b == q * b + b;
    } else if acc < q {
      assert acc * b <= (q - 1) * b == q * b - b;
    }
  }

  /** A value past the limit stays past it whatever digit follows. */
  lemma PastLimit(v: nat, c: nat, b: nat, limit: nat)
    requires v > limit && b >= 1
    ensures Shift(v, b, c) > limit
  {
    assert v * b >= v * 1;
  }

  /**
   * What the digit loop knows after the digits ds: any is 0 before the
   * first digit, -1 once their value has passed limit and 1 otherwise, and
   * acc holds the value unless it has passed limit.
   */
  ghost predicate Tracks(any: int, acc: int, ds: seq<Byte>, b: int, limit: nat)
  {
    AllDigits(ds, b)
    && (any == 0 <==> |ds| == 0)
    && (any < 0 <==> |ds| > 0 && Value(ds, b) > limit)
    && (any >= 0 ==> acc == Value(ds, b))
  }

  /** One turn of the digit loop keeps Tracks: the overflow test decides as the value does. */
  lemma TrackStep(any: int, acc: nat, ds: seq<Byte>, d: Byte, b: int, limit: nat)
    requires Tracks(any, acc, ds, b, limit) && IsDigitIn(d, b)
    ensures b >= 1
    ensures any < 0 || acc > limit / b || (acc == limit / b && DigitOf(d) > limit % b) ==>
      Tracks(-1, acc, ds + [d], b, limit)
    ensures !(any < 0 || acc > limit / b || (acc == limit / b && DigitOf(d) > limit % b)) ==>
      Tracks(1, Shift(acc, b, DigitOf(d)), ds + [d], b, limit)
    ensures !(any < 0 || acc > limit / b || (acc == limit / b && DigitOf(d) > limit % b)) ==>
      Shift(acc, b, DigitOf(d)) <= limit
  {
    ValueSnoc(ds, d, b);
    if any < 0 {
      PastLimit(Value(ds, b), DigitOf(d), b, limit);
    } else {
      CutoffTest(acc, DigitOf(d), b, limit);
    }
  }

  /**
   * The cutoff computation and the digit loop: digits are accumulated
   * into the unsigned `acc` while the value stays within limit. any is 0
   * while no digit is seen, 1 after a digit and -1 once the value has
   * passed limit. ub is the base converted to `unsigned long`, the divisor
   * of cutoff and cutlim.
   */
  method Accumulate(m: seq<Byte>, start: nat, base: int, ub: nat, limit: nat)
    returns (acc: U32, any: int, stop: nat)
    requires Terminated(m, start)
    requires 1 <= ub && (base >= 1 ==> ub == base) && limit < WORD_MOD
    ensures stop == start + Run(m, start, base)
    ensures Tracks(any, acc, m[start..stop], base, limit)
  {
    var cutoff := limit / ub;
    var cutlim := limit % ub;
    acc, any := 0, 0;
    var i := start;
    ghost var n := Run(m, start, base);
    ghost var ds: seq<Byte> := [];
    while true
      invariant start <= i <= start + n && Terminated(m, i)
      invariant n == (i - start) + Run(m, i, base)
      invariant ds == m[start..i] && Tracks(any, acc, ds, base, limit)
      invariant acc <= limit
      decreases start + n - i
    {
      var c := m[i] as int;
      if IsDigit(c) {
        c := c - '0' as int;
      } else if IsAlpha(c) {
        c := c - if IsUpper(c) then 'A' as int - 10 else 'a' as int - 10;
      } else {
        assert !IsDigitIn(m[i], base);
        break;
      }
      if c >= base {
        assert !IsDigitIn(m[i], base);
        break;
      }
      assert c == DigitOf(m[i]) && IsDigitIn(m[i], base);
      TrackStep(any, acc, ds, m[i], base, limit);
      assert ub == base;
      if any < 0 || acc > cutoff || (acc == cutoff && c > cutlim) {
        any := -1;
      } else {
        any := 1;
        acc := Shift(acc, ub, c);
      }
      RunStep(m, i, base);
      SliceSnoc(m, start, i);
      ds := ds + [m[i]];
      i := i + 1;
    }
    stop := i;
  }

  /** `unsigned long` negation: -u modulo 2^32. */
  function Negate(u: U32): U32
  {
    (WORD_MOD - u) % WORD_MOD
  }

  /** An `unsigned long` read back as a `long`: two's complement. */
  function ToLong(u: U32): I32
  {
    if u > LONG_MAX then u - WORD_MOD else u
  }

  /** Negating a magnitude up to 2^31 in `unsigned long` and reading it back as a `long` gives the negative number. */
  lemma NegateToLong(u: U32)
    requires u <= -LONG_MIN
    ensures ToLong(Negate(u)) == -(u as int)
  {
  }

  /** `-(unsigned long) LONG_MIN`: the magnitude of the most negative `long`. */
  const LONG_MIN_MAGNITUDE: U32 := 0x8000_0000

  /** `strtol(nptr, &end, base)`: the value and the address stored through `endptr`. */
  method Strtol(m: seq<Byte>, nptr: nat, base: I32) returns (r: I32, end: nat)
    requires Terminated(m, nptr)
    ensures Parse(r, end) == LongOf(m, nptr, base)
  {
    var neg, b, s := ScanPrefix(m, nptr, base);
    var limit := if neg then LONG_MIN_MAGNITUDE else LONG_MAX;
    var ub := if b < 0 then b + WORD_MOD else b;
    var acc, any, stop := Accumulate(m, s, b, ub, limit);
    var u: U32;
    if any < 0 {
      u := if neg then LONG_MIN + WORD_MOD else LONG_MAX;
    } else if neg {
      u := Negate(acc);
    } else {
      u := acc;
    }
    r := ToLong(u);
    end := if any != 0 then stop else nptr;
    LongFromScan(m, nptr, base, neg, b, s, acc, any, stop);
  }

  /** The outcome of the prefix scan and the digit loop, turned into a `long` as `strtol` does, is LongOf. */
  lemma LongFromScan(m: seq<Byte>, nptr: nat, base: int, neg: bool, b: int, s: nat, acc: U32, any: int, stop: nat)
    requires Terminated(m, nptr) && Header(neg, b, s) == Prefix(m, nptr, base)
    requires stop == s + Run(m, s, b)
    requires Tracks(any, acc, m[s..stop], b, if neg then LONG_MIN_MAGNITUDE else LONG_MAX)
    ensures LongOf(m, nptr, base) ==
      Parse(ToLong(if any < 0 then (if neg then LONG_MIN + WORD_MOD else LONG_MAX) else if neg then Negate(acc) else acc),
            if any != 0 then stop else nptr)
  {
    if any >= 0 && neg {
      NegateToLong(acc);
    }
  }

  /** `strtoul(nptr, &end, base)`: the value and the address stored through `endptr`. */
  method Strtoul(m: seq<Byte>, nptr: nat, base: I32) returns (r: U32, end: nat)
    requires Terminated(m, nptr)
    ensures Parse(r, end) == ULongOf(m, nptr, base)
  {
    var neg, b, s := ScanPrefix(m, nptr, base);
    var ub := if b < 0 then b + WORD_MOD else b;
    var acc, any, stop := Accumulate(m, s, b, ub, ULONG_MAX);
    if any < 0 {
      r := ULONG_MAX;
    } else if neg {
      r := Negate(acc);
    } else {
      r := acc;
    }
    end := if any != 0 then stop else nptr;
  }

  /** `atoi(str)`: `strtol` in base 10 with no `endptr`; `int` and `long` have the same width. */
  method Atoi(m: seq<Byte>, str: nat) returns (r: I32)
    requires Terminated(m, str)
    ensures r == LongOf(m, str, 10).value
  {
    var end;
    r, end := Strtol(m, str, 10);
  }

  // ---------------------------------------------------------------------
  // Round trips with decimal notation
  // ---------------------------------------------------------------------

  /** The decimal digits of v, most significant first, without leading zeros. */
  function Decimal(v: nat): (ds: seq<Byte>)
    ensures |ds| >= 1 && AllDigits(ds, 10) && Value(ds, 10) == v
    ensures ds[0] != '0' as int || v == 0
  {
    if v < 10 then [v + '0' as int]
    else
      var ds := Decimal(v / 10) + [v % 10 + '0' as int];
      ValueSnoc(Decimal(v / 10), v % 10 + '0' as int, 10);
      ds
  }

  /** Digits ds of base b at address p, then a NUL: the run from p is exactly ds. */
  lemma DigitsRun(m: seq<Byte>, p: nat, ds: seq<Byte>, b: int)
    requires p + |ds| < |m| && m[p..p + |ds|] == ds && m[p + |ds|] == 0 && AllDigits(ds, b)
    ensures Terminated(m, p) && Run(m, p, b) == |ds|
  {
    forall k | p <= k < p + |ds|
      ensures m[k] != 0
    {
      assert m[k] == ds[k - p];
      assert IsDigitIn(ds[k - p], b);
    }
    LenUnique(m, p, |ds|);
    RunUnique(m, p, |ds|, b);
  }

  /** A string that starts with a decimal digit has no white space, sign or "0x" before its digits. */
  lemma PlainHeader(m: seq<Byte>, nptr: nat, base: int)
    requires Terminated(m, nptr) && IsDigit(m[nptr]) && (m[nptr] == '0' as int ==> base != 0 && base != 16)
    ensures Prefix(m, nptr, base) == Header(false, if base == 0 then 10 else base, nptr)
  {
    assert SkipSpace(m, nptr) == nptr;
    assert AfterSign(m, nptr) == nptr;
  }

  /** Parsing the decimal notation of v, terminated, in base 10 reads every digit and yields v, clamped to LONG_MAX. */
  lemma StrtolDecimal(v: nat)
    ensures var m := Decimal(v) + [0];
      Terminated(m, 0) &&
      LongOf(m, 0, 10) == Parse(if v > LONG_MAX then LONG_MAX else v, |Decimal(v)|)
  {
    StrtolDigits(Decimal(v), v);
  }

  /** Decimal digits ds of value v, terminated, read back by `strtol` in base 10. */
  lemma StrtolDigits(ds: seq<Byte>, v: nat)
    requires |ds| >= 1 && AllDigits(ds, 10) && Value(ds, 10) == v
    ensures var m := ds + [0];
      Terminated(m, 0) &&
      LongOf(m, 0, 10) == Parse(if v > LONG_MAX then LONG_MAX else v, |ds|)
  {
    var m := ds + [0];
    assert m[0..|ds|] == ds;
    DigitsRun(m, 0, ds, 10);
    assert IsDigitIn(ds[0], 10);
    PlainHeader(m, 0, 10);
    var h := Prefix(m, 0, 10);
    assert h == Header(false, 10, 0);
    assert Run(m, h.start, h.base) == |ds| > 0;
    assert Value(m[h.start..h.start + |ds|], h.base) == v;
  }

  /** After a '-', the decimal notation of v yields -v, clamped to LONG_MIN. */
  lemma StrtolNegDecimal(v: nat)
    ensures var m := ['-' as int as Byte] + Decimal(v) + [0];
      Terminated(m, 0) &&
      LongOf(m, 0, 10) == Parse(if v > -LONG_MIN then LONG_MIN else -(v as int), 1 + |Decimal(v)|)
  {
    StrtolNegDigits(Decimal(v), v);
  }

  /** A '-' and decimal digits ds of value v, terminated, read back by `strtol` in base 10 as -v. */
  lemma StrtolNegDigits(ds: seq<Byte>, v: nat)
    requires |ds| >= 1 && AllDigits(ds, 10) && Value(ds, 10) == v
    ensures var m := ['-' as int as Byte] + ds + [0];
      Terminated(m, 0) &&
      LongOf(m, 0, 10) == Parse(if v > -LONG_MIN then LONG_MIN else -(v as int), 1 + |ds|)
  {
    var m := ['-' as int as Byte] + ds + [0];
    assert m[1..1 + |ds|] == ds;
    DigitsRun(m, 1, ds, 10);
    assert Terminated(m, 0) by {
      assert m[1 + Len(m, 1)] == 0;
    }
    assert SkipSpace(m, 0) == 0;
    assert AfterSign(m, 0) == 1;
    assert Prefix(m, 0, 10) == Header(true, 10, 1);
  }

  /** Without a '-', n digits of value v at most ULONG_MAX read as v, ending after the digits. */
  lemma ULongOfPlain(m: seq<Byte>, nptr: nat, base: int, n: nat, v: nat)
    requires Terminated(m, nptr) && v <= ULONG_MAX
    requires !Prefix(m, nptr, base).neg && Run(m, Prefix(m, nptr, base).start, Prefix(m, nptr, base).base) == n > 0
    requires var h := Prefix(m, nptr, base); Value(m[h.start..h.start + n], h.base) == v
    ensures ULongOf(m, nptr, base) == Parse(v, Prefix(m, nptr, base).start + n)
  {
  }

  /** `strtoul` reads the decimal notation of any 32-bit value back exactly. */
  lemma StrtoulDecimal(v: nat)
    requires v <= ULONG_MAX
    ensures var m := Decimal(v) + [0];
      Terminated(m, 0) && ULongOf(m, 0, 10) == Parse(v, |Decimal(v)|)
  {
    StrtoulDigits(Decimal(v), v);
  }

  /** Decimal digits ds of a value v that fits 32 bits, terminated, read back by `strtoul` in base 10. */
  lemma StrtoulDigits(ds: seq<Byte>, v: nat)
    requires |ds| >= 1 && AllDigits(ds, 10) && Value(ds, 10) == v <= ULONG_MAX
    ensures var m := ds + [0];
      Terminated(m, 0) && ULongOf(m, 0, 10) == Parse(v, |ds|)
  {
    var m := ds + [0];
    assert m[0..|ds|] == ds;
    DigitsRun(m, 0, ds, 10);
    assert IsDigitIn(ds[0], 10);
    PlainHeader(m, 0, 10);
    ULongOfPlain(m, 0, 10, |ds|, v);
  }

  /** A "0x" under base 16 with no hex digit after it consumes nothing: the value is 0 and `endptr` is nptr. */
  lemma BareHexPrefix(m: seq<Byte>, nptr: nat)
    requires nptr + 2 < |m| && m[nptr] == '0' as int && m[nptr + 1] == 'x' as int && !IsAlnum(m[nptr + 2])
    requires Terminated(m, nptr + 2)
    ensures Terminated(m, nptr) && LongOf(m, nptr, 16) == Parse(0, nptr)
  {
    assert Terminated(m, nptr) by {
      assert m[(nptr + 2) + Len(m, nptr + 2)] == 0;
    }
    assert SkipSpace(m, nptr) == nptr;
    assert AfterSign(m, nptr) == nptr;
    assert Prefix(m, nptr, 16) == Header(false, 16, nptr + 2);
  }
}
