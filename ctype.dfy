/**
 * The character-class macros and DIV_ROUND_UP of kern/includes/stdlib.h.
 * Each macro is an expression over an `int` character code; the model
 * keeps that, so codes outside 0..255 are classified exactly as the
 * macros would classify them.
 */
module CType {

  predicate IsDigit(c: int) { '0' as int <= c <= '9' as int }
  predicate IsLower(c: int) { 'a' as int <= c <= 'z' as int }
  predicate IsUpper(c: int) { 'A' as int <= c <= 'Z' as int }
  predicate IsAlpha(c: int) { IsLower(c) || IsUpper(c) }
  predicate IsAlnum(c: int) { IsAlpha(c) || IsDigit(c) }
  predicate IsBlank(c: int) { c == ' ' as int || c == '\t' as int }

  /** As written, only the codes 0x00..0x08 count as control characters. */
  predicate IsCntrl(c: int) { 0 <= c <= 8 }

  predicate IsPunct(c: int)
  {
    (0x21 <= c <= 0x2F) || (0x3A <= c <= 0x40) || (0x5B <= c <= 0x60) || (0x7B <= c <= 0x7E)
  }

  predicate IsSpace(c: int)
  {
    c == ' ' as int || c == '\t' as int || c == '\r' as int || c == '\n' as int
    || c == 0x0C || c == 0x0B
  }

  predicate IsGraph(c: int) { IsPunct(c) || IsAlnum(c) }
  predicate IsPrint(c: int) { IsGraph(c) || IsSpace(c) }

  predicate IsXDigit(c: int)
  {
    IsDigit(c) || ('a' as int <= c <= 'f' as int) || ('A' as int <= c <= 'F' as int)
  }

  /** `tolower`: an upper-case letter becomes its lower-case partner; any other code is unchanged. */
  function ToLower(c: int): (r: int)
    ensures IsUpper(c) ==> IsLower(r) && r - c == 'a' as int - 'A' as int
    ensures !IsUpper(c) ==> r == c
  {
    if IsUpper(c) then c + 'a' as int - 'A' as int else c
  }

  /** `toupper`: a lower-case letter becomes its upper-case partner; any other code is unchanged. */
  function ToUpper(c: int): (r: int)
    ensures IsLower(c) ==> IsUpper(r) && c - r == 'a' as int - 'A' as int
    ensures !IsLower(c) ==> r == c
  {
    if IsLower(c) then c + 'A' as int - 'a' as int else c
  }

  /** The case mappings are mutual inverses on letters and the identity elsewhere. */
  lemma CaseRoundTrip(c: int)
    ensures IsLower(c) ==> ToLower(ToUpper(c)) == c
    ensures IsUpper(c) ==> ToUpper(ToLower(c)) == c
    ensures !IsAlpha(c) ==> ToUpper(c) == c && ToLower(c) == c
  {
  }

  /** The white-space class is exactly ' ' and the codes 9..13. */
  lemma SpaceCodes(c: int)
    ensures IsSpace(c) <==> c == 32 || 9 <= c <= 13
  {
  }

  /** No character is both graphic and white space. */
  lemma GraphSpaceDisjoint(c: int)
    ensures !(IsGraph(c) && IsSpace(c))
  {
  }

  /** The printable class is the codes 0x21..0x7E plus the white-space codes. */
  lemma PrintCodes(c: int)
    ensures IsPrint(c) <==> (0x21 <= c <= 0x7E) || IsSpace(c)
  {
  }

  /** Control and printable characters never overlap, but most of 0x09..0x1F belongs to neither. */
  lemma CntrlPrintDisjoint(c: int)
    ensures !(IsCntrl(c) && IsPrint(c))
    ensures 0x0E <= c <= 0x1F ==> !IsCntrl(c) && !IsPrint(c)
  {
  }

  // ---------------------------------------------------------------------
  // DIV_ROUND_UP
  // ---------------------------------------------------------------------

  /** C's `/` on `int`: the quotient truncated toward zero. */
  function CDiv(a: int, b: int): (r: int)
    requires b != 0
    ensures a >= 0 && b > 0 ==> r == a / b
    ensures a < 0 && b > 0 ==> r == -((-a) / b)
  {
    if (a >= 0) == (b > 0) then
      (if a >= 0 then a / b else (-a) / (-b))
    else
      (if a >= 0 then -(a / (-b)) else -((-a) / b))
  }

  /**
   * `DIV_ROUND_UP(n, d)` as written: half the divisor is added (or
   * subtracted when the signs differ) before a truncating division.
   */
  function DivRoundUpAsWritten(n: int, d: int): int
    requires d != 0
  {
    if (n < 0) != (d < 0) then CDiv(n - CDiv(d, 2), d) else CDiv(n + CDiv(d, 2), d)
  }

  /** For non-negative operands the macro rounds to the nearest quotient, halves upward. */
  lemma DivRoundUpIsNearest(n: nat, d: int)
    requires d > 0
    ensures DivRoundUpAsWritten(n, d) * d <= n + d / 2 < (DivRoundUpAsWritten(n, d) + 1) * d
  {
    var q := DivRoundUpAsWritten(n, d);
    assert q == (n + d / 2) / d;
  }

  /** 1 / 4 rounded up is 1, but the macro yields 0: it does not round up. */
  lemma DivRoundUpCounterexample()
    ensures DivRoundUpAsWritten(1, 4) == 0
    ensures DivRoundUpAsWritten(1, 4) * 4 < 1
  {
  }

  /** Division rounded up, the meaning of DIV_ROUND_UP's name, for a non-negative numerator. */
  function DivCeil(n: nat, d: nat): (r: nat)
    requires d > 0
    ensures r * d >= n
    ensures r == 0 || (r - 1) * d < n
  {
    (n + d - 1) / d
  }

  /** DivCeil is the least quotient whose multiple covers n. */
  lemma DivCeilLeast(n: nat, d: nat, k: nat)
    requires d > 0 && k * d >= n
    ensures DivCeil(n, d) <= k
  {
    var r := DivCeil(n, d);
    if r > k {
      MulMono(k, r - 1, d);
    }
  }

  lemma MulMono(a: nat, b: nat, d: nat)
    requires a <= b
    ensures a * d <= b * d
  {
  }
}
