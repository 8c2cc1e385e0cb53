/**
 * The tokenizers of kern/stdlib/std.c: `strsep`, which takes the string
 * pointer from its caller and hands back the rest, and `strtok`, which
 * keeps it in a static variable between calls. Both cut a token by
 * writing a NUL over the delimiter that ends it. Memory is an array of
 * bytes indexed by address; a NULL pointer is None.
 */
module StdToken {
  import opened Types
  import opened StdString

  /**
   * The number of bytes from p before the first byte that ends a token:
   * a delimiter (a byte of d) or the terminator.
   */
  function Span(m: seq<Byte>, p: nat, d: seq<Byte>): (n: nat)
    requires Terminated(m, p)
    ensures p + n < |m| && (m[p + n] == 0 || m[p + n] in d)
    ensures forall k :: p <= k < p + n ==> m[k] != 0 && m[k] !in d
    decreases |m| - p
  {
    if m[p] == 0 || m[p] in d then 0
    else
      assert Terminated(m, p + 1) by {
        var k :| p <= k < |m| && m[k] == 0;
        assert k != p;
      }
      1 + Span(m, p + 1, d)
  }

  /** The number of delimiters (bytes of d) at the start of the string at p. */
  function Skip(m: seq<Byte>, p: nat, d: seq<Byte>): (n: nat)
    requires Terminated(m, p) && NoNul(d)
    ensures p + n < |m| && m[p + n] !in d
    ensures forall k :: p <= k < p + n ==> m[k] in d && m[k] != 0
    decreases |m| - p
  {
    if m[p] !in d then 0
    else
      assert Terminated(m, p + 1) by {
        var k :| p <= k < |m| && m[k] == 0;
        assert k != p;
      }
      1 + Skip(m, p + 1, d)
  }

  /** A token never runs past the end of its string. */
  lemma {:induction false} SpanWithinLen(m: seq<Byte>, p: nat, d: seq<Byte>)
    requires Terminated(m, p)
    ensures Span(m, p, d) <= Len(m, p)
    decreases |m| - p
  {
    if m[p] != 0 && m[p] !in d {
      assert Terminated(m, p + 1) by {
        assert m[p + Len(m, p)] == 0;
      }
      SpanWithinLen(m, p + 1, d);
      LenStep(m, p);
    }
  }

  /**
   * The inner loop over the delimiter string: whether c is one of its
   * bytes. The terminator of the delimiter string is not one of them.
   */
  method InDelims(m: seq<Byte>, delim: nat, c: Byte) returns (found: bool)
    requires Terminated(m, delim)
    ensures found <==> c in Str(m, delim)
  {
    var i := 0;
    while m[delim + i] != 0
      invariant i <= Len(m, delim)
      invariant forall k :: 0 <= k < i ==> Str(m, delim)[k] != c
      decreases Len(m, delim) - i
    {
      if m[delim + i] == c {
        assert Str(m, delim)[i] == c;
        return true;
      }
      i := i + 1;
    }
    return false;
  }

  /**
   * The token scan shared by `strsep` and `strtok`: from s, the address of
   * the first byte that is a delimiter or the terminator.
   */
  method ScanToken(m: seq<Byte>, s: nat, delim: nat) returns (j: nat)
    requires Terminated(m, s) && Terminated(m, delim)
    ensures j == s + Span(m, s, Str(m, delim))
  {
    ghost var d := Str(m, delim);
    j := s;
    while true
      invariant s <= j <= s + Span(m, s, d)
      decreases s + Span(m, s, d) - j
    {
      var c := m[j];
      var isDelim := InDelims(m, delim, c);
      if c == 0 || isDelim {
        return;
      }
      j := j + 1;
    }
  }

  /** No byte of t is a byte of d. */
  predicate Avoids(t: seq<Byte>, d: seq<Byte>)
  {
    forall k :: 0 <= k < |t| ==> t[k] !in d
  }

  /** What cutting a token at p ending at j does to memory: a NUL over a delimiter, nothing at the terminator. */
  function Cut(m: seq<Byte>, j: nat): (r: seq<Byte>)
    requires j < |m|
    ensures |r| == |m| && r[j] == 0
    ensures forall k :: 0 <= k < |m| && k != j ==> r[k] == m[k]
  {
    if m[j] == 0 then m else m[j := 0]
  }

  /**
   * After the cut, the string at p is the token: the bytes before the
   * first delimiter or terminator, none of them a delimiter.
   */
  lemma CutToken(m: seq<Byte>, p: nat, d: seq<Byte>)
    requires Terminated(m, p)
    ensures Terminated(Cut(m, p + Span(m, p, d)), p)
    ensures Str(Cut(m, p + Span(m, p, d)), p) == m[p..p + Span(m, p, d)]
    ensures Avoids(Str(Cut(m, p + Span(m, p, d)), p), d)
  {
    var n := Span(m, p, d);
    var r := Cut(m, p + n);
    LenUnique(r, p, n);
    assert Str(r, p) == r[p..p + n];
    assert r[p..p + n] == m[p..p + n];
  }

  /**
   * Cutting at a delimiter loses nothing: the token, the delimiter it
   * overwrote and the rest after it make up the original string.
   */
  lemma CutRestores(m: seq<Byte>, p: nat, d: seq<Byte>)
    requires Terminated(m, p)
    requires m[p + Span(m, p, d)] != 0
    ensures Terminated(Cut(m, p + Span(m, p, d)), p + Span(m, p, d) + 1)
    ensures Str(m, p) == Str(Cut(m, p + Span(m, p, d)), p) + [m[p + Span(m, p, d)]]
                         + Str(Cut(m, p + Span(m, p, d)), p + Span(m, p, d) + 1)
  {
    var j := p + Span(m, p, d);
    SpanWithinLen(m, p, d);
    CutRest(m, p, j);
    CutToken(m, p, d);
    StrAround(m, p, j);
  }

  /** Cutting a string at j leaves the bytes after j as a string of their own. */
  lemma CutRest(m: seq<Byte>, p: nat, j: nat)
    requires Terminated(m, p) && p <= j < p + Len(m, p)
    ensures Terminated(Cut(m, j), j + 1) && Str(Cut(m, j), j + 1) == m[j + 1..p + Len(m, p)]
  {
    var r, len := Cut(m, j), Len(m, p);
    LenNoNul(m, p);
    assert r[j + 1..p + len] == m[j + 1..p + len] && r[p + len] == 0;
    LenUnique(r, j + 1, p + len - j - 1);
  }

  /** A string is the part before position j, the byte at j and the part after it. */
  lemma StrAround(m: seq<Byte>, p: nat, j: nat)
    requires Terminated(m, p) && p <= j < p + Len(m, p)
    ensures Str(m, p) == m[p..j] + [m[j]] + m[j + 1..p + Len(m, p)]
  {
    var len := Len(m, p);
    assert Str(m, p) == m[p..p + len];
  }

  /** The leading loop of `strtok`: from p, the address of the first byte that is not a delimiter. */
  method SkipDelims(m: seq<Byte>, p: nat, delim: nat) returns (q: nat)
    requires Terminated(m, p) && Terminated(m, delim)
    ensures q == p + Skip(m, p, Str(m, delim))
  {
    ghost var d := Str(m, delim);
    q := p;
    while true
      invariant p <= q <= p + Skip(m, p, d)
      decreases p + Skip(m, p, d) - q
    {
      var isDelim := InDelims(m, delim, m[q]);
      if !isDelim {
        return;
      }
      q := q + 1;
    }
  }

  /** The outcome of cutting a token: the token, memory afterwards, and where the rest starts. */
  datatype Cutting = Cutting(tok: Option<nat>, mem: seq<Byte>, rest: Option<nat>)

  /**
   * Cutting the token at q: it runs to the first delimiter or terminator,
   * at j; a delimiter there becomes a NUL and the rest starts after it,
   * while at the terminator there is no rest.
   */
  function CutAt(m: seq<Byte>, q: nat, d: seq<Byte>): (r: Cutting)
    requires Terminated(m, q)
    ensures r.tok == Some(q) && |r.mem| == |m|
    ensures r.rest.Some? ==> Terminated(r.mem, r.rest.value)
  {
    var j := q + Span(m, q, d);
    if m[j] == 0 then Cutting(Some(q), m, None)
    else
      StrsepNextTerminated(m, q, d);
      Cutting(Some(q), m[j := 0], Some(j + 1))
  }

  /**
   * What `strtok` does from p: skip the delimiters; at the terminator
   * there is no token and no rest, otherwise cut the token found there.
   */
  function TokenFrom(m: seq<Byte>, p: nat, d: seq<Byte>): (r: Cutting)
    requires Terminated(m, p) && NoNul(d)
    ensures r.rest.Some? ==> Terminated(r.mem, r.rest.value)
  {
    var q := p + Skip(m, p, d);
    if m[q] == 0 then Cutting(None, m, None) else CutAt(m, q, d)
  }

  /**
   * `strsep`: stringp is the caller's string pointer (None for NULL). The
   * token starts at stringp; the first delimiter or terminator after it
   * ends it. A delimiter is overwritten by a NUL and the new string
   * pointer is just past it; at the terminator the new string pointer is
   * None. The result is the token, or None when stringp is None.
   */
  method Strsep(mem: array<Byte>, stringp: Option<nat>, delim: nat) returns (tok: Option<nat>, next: Option<nat>)
    requires stringp.Some? ==> Terminated(mem[..], stringp.value)
    requires Terminated(mem[..], delim)
    modifies mem
    ensures stringp.None? ==> tok.None? && next.None? && mem[..] == old(mem[..])
    ensures stringp.Some? ==> Cutting(tok, mem[..], next) == old(CutAt(mem[..], stringp.value, Str(mem[..], delim)))
  {
    if stringp.None? {
      return None, None;
    }
    var s := stringp.value;
    var j := ScanToken(mem[..], s, delim);
    tok := Some(s);
    if mem[j] == 0 {
      next := None;
    } else {
      mem[j] := 0;
      next := Some(j + 1);
    }
  }

  /**
   * The string pointer handed back by `strsep` is again a terminated
   * string, so the next call on it is well defined.
   */
  lemma StrsepNextTerminated(m: seq<Byte>, p: nat, d: seq<Byte>)
    requires Terminated(m, p)
    requires m[p + Span(m, p, d)] != 0
    ensures Terminated(Cut(m, p + Span(m, p, d)), p + Span(m, p, d) + 1)
  {
    CutRestores(m, p, d);
  }

  /**
   * `strtok` with its static `last` pointer. A call with s == None
   * continues from last.
   */
  class Tokenizer {
    /** Where the next call with a NULL string continues; None once the string is used up. */
    var last: Option<nat>

    /** The static pointer starts out NULL. */
    constructor()
      ensures last.None?
    {
      last := None;
    }

    /**
     * `strtok`: starting at s (or at last when s is None), skip the leading
     * delimiters; if the terminator comes first there is no token and last
     * becomes None. Otherwise the token runs to the next delimiter or the
     * terminator; a delimiter is overwritten by a NUL and last points just
     * past it, while at the terminator last becomes None.
     */
    method Strtok(mem: array<Byte>, s: Option<nat>, delim: nat) returns (tok: Option<nat>)
      requires s.Some? ==> Terminated(mem[..], s.value)
      requires s.None? && last.Some? ==> Terminated(mem[..], last.value)
      requires Terminated(mem[..], delim)
      modifies this, mem
      ensures s.None? && old(last).None? ==> tok.None? && last.None? && mem[..] == old(mem[..])
      ensures s.Some? || old(last).Some? ==>
        var p := if s.Some? then s.value else old(last).value;
        Cutting(tok, mem[..], last) == old(TokenFrom(mem[..], p, Str(mem[..], delim)))
    {
      var p: nat;
      if s.Some? {
        p := s.value;
      } else if last.Some? {
        p := last.value;
      } else {
        return None;
      }
      ghost var m0 := mem[..];
      ghost var d := Str(m0, delim);
      var q := SkipDelims(mem[..], p, delim);
      if mem[q] == 0 {
        last := None;
        return None;
      }
      TokenFromFound(m0, p, d);
      tok := Some(q);
      last := ScanCut(mem, q, delim);
    }
  }

  /**
   * The token scan of `strtok` once a first non-delimiter byte is found at
   * q: it scans on from q + 1 and cuts the token as `strsep` does.
   */
  method ScanCut(mem: array<Byte>, q: nat, delim: nat) returns (rest: Option<nat>)
    requires Terminated(mem[..], q) && Terminated(mem[..], delim)
    requires mem[q] != 0 && mem[q] !in Str(mem[..], delim)
    modifies mem
    ensures Cutting(Some(q), mem[..], rest) == old(CutAt(mem[..], q, Str(mem[..], delim)))
  {
    ghost var m0 := mem[..];
    ghost var d := Str(m0, delim);
    var j := ScanToken(mem[..], q + 1, delim);
    CutAtSecond(m0, q, d);
    if mem[j] == 0 {
      rest := None;
    } else {
      mem[j] := 0;
      rest := Some(j + 1);
    }
  }

  /** `CutAt` from q, unfolded with the token end found by scanning on from q + 1. */
  lemma CutAtSecond(m: seq<Byte>, q: nat, d: seq<Byte>)
    requires Terminated(m, q) && m[q] != 0 && m[q] !in d
    ensures Terminated(m, q + 1)
    ensures var j := q + 1 + Span(m, q + 1, d);
      CutAt(m, q, d) == if m[j] == 0 then Cutting(Some(q), m, None) else Cutting(Some(q), m[j := 0], Some(j + 1))
  {
    SpanStep(m, q, d);
  }

  /** Once the leading delimiters are skipped, `strtok` either finds the terminator or cuts a token there. */
  lemma TokenFromFound(m: seq<Byte>, p: nat, d: seq<Byte>)
    requires Terminated(m, p) && NoNul(d)
    requires m[p + Skip(m, p, d)] != 0
    ensures TokenFrom(m, p, d) == CutAt(m, p + Skip(m, p, d), d)
  {
  }

  /** A token that does not start at a delimiter or the terminator spans one byte more than the rest after its first byte. */
  lemma SpanStep(m: seq<Byte>, p: nat, d: seq<Byte>)
    requires Terminated(m, p) && m[p] != 0 && m[p] !in d
    ensures Terminated(m, p + 1) && Span(m, p, d) == 1 + Span(m, p + 1, d)
  {
    LenStep(m, p);
  }
}
