/**
 * The routines of kern/stdlib/std.c that write memory: `strcpy`,
 * `strncpy`, `strcat`, `memset`, `memclr`, `memcpy` and `memmove`.
 * Memory is an array of bytes indexed by address. The effect of each
 * routine is stated as an overlay of new bytes on the old contents.
 */
module StdMemory {
  import opened Types
  import opened StdString

  /** m with the bytes of data written from address d on; everything else as before. */
  function Overlay(m: seq<Byte>, d: nat, data: seq<Byte>): (r: seq<Byte>)
    requires d + |data| <= |m|
    ensures |r| == |m|
    ensures forall k :: 0 <= k < |m| ==> r[k] == if d <= k < d + |data| then data[k - d] else m[k]
  {
    m[..d] + data + m[d + |data|..]
  }

  /** Writing one more byte just past an overlay extends it. */
  lemma OverlayStep(m: seq<Byte>, d: nat, data: seq<Byte>, c: Byte)
    requires d + |data| < |m|
    ensures Overlay(m, d, data)[d + |data| := c] == Overlay(m, d, data + [c])
  {
    var a, b := Overlay(m, d, data)[d + |data| := c], Overlay(m, d, data + [c]);
    assert |a| == |b|;
    forall k | 0 <= k < |a| ensures a[k] == b[k] {
    }
  }

  /** The same, for a prefix of data growing by one byte. */
  lemma OverlayPrefixStep(m: seq<Byte>, d: nat, data: seq<Byte>, i: nat)
    requires i < |data| && d + |data| <= |m|
    ensures Overlay(m, d, data[..i])[d + i := data[i]] == Overlay(m, d, data[..i + 1])
  {
    assert data[..i] + [data[i]] == data[..i + 1];
    OverlayStep(m, d, data[..i], data[i]);
  }

  /** The overlaid range reads back as the data. */
  lemma OverlaySlice(m: seq<Byte>, d: nat, data: seq<Byte>)
    requires d + |data| <= |m|
    ensures Overlay(m, d, data)[d..d + |data|] == data
  {
  }

  /** Two adjacent overlays are one overlay of the joined data. */
  lemma OverlayJoin(m: seq<Byte>, d: nat, x: seq<Byte>, y: seq<Byte>)
    requires d + |x| + |y| <= |m|
    ensures Overlay(Overlay(m, d, x), d + |x|, y) == Overlay(m, d, x + y)
  {
    var a, b := Overlay(Overlay(m, d, x), d + |x|, y), Overlay(m, d, x + y);
    assert |a| == |b|;
    forall k | 0 <= k < |a| ensures a[k] == b[k] {
    }
  }

  /** A NUL-free t followed by a NUL at d is the string at d. */
  lemma StrAt(r: seq<Byte>, d: nat, t: seq<Byte>)
    requires NoNul(t) && d + |t| < |r| && r[d..d + |t| + 1] == t + [0]
    ensures Terminated(r, d) && Str(r, d) == t
  {
    forall k | d <= k < d + |t| ensures r[k] != 0 {
      assert r[k] == r[d..d + |t| + 1][k - d];
    }
    assert r[d + |t|] == r[d..d + |t| + 1][|t|];
    LenUnique(r, d, |t|);
    assert r[d..d + |t|] == r[d..d + |t| + 1][..|t|];
    assert (t + [0])[..|t|] == t;
  }

  /** Writing a NUL-free string and a terminator at d leaves that string at d. */
  lemma OverlayStr(m: seq<Byte>, d: nat, s: seq<Byte>)
    requires NoNul(s) && d + |s| + 1 <= |m|
    ensures Terminated(Overlay(m, d, s + [0]), d)
    ensures Str(Overlay(m, d, s + [0]), d) == s
  {
    var r := Overlay(m, d, s + [0]);
    assert r[d..d + |s| + 1] == s + [0];
    StrAt(r, d, s);
  }

  /** n zero bytes. */
  function Zeros(n: nat): (r: seq<Byte>)
    ensures |r| == n && forall k :: 0 <= k < n ==> r[k] == 0
  {
    seq(n, _ => 0)
  }

  /** s cut or padded with zero bytes to exactly n bytes. */
  function PadTo(s: seq<Byte>, n: nat): (r: seq<Byte>)
    ensures |r| == n
    ensures forall k :: 0 <= k < n ==> r[k] == if k < |s| then s[k] else 0
  {
    if n <= |s| then s[..n] else s + Zeros(n - |s|)
  }

  // ---------------------------------------------------------------------
  // String copies
  // ---------------------------------------------------------------------

  /**
   * `strcpy`: the string at src and its terminator are written at dest,
   * and dest is returned. The byte-by-byte forward copy reads each source
   * byte before any write can reach it when dest <= src or the two ranges
   * are apart; otherwise the source terminator would be overwritten.
   */
  method Strcpy(mem: array<Byte>, dest: nat, src: nat) returns (ret: nat)
    requires Terminated(mem[..], src)
    requires dest + Len(mem[..], src) + 1 <= mem.Length
    requires dest <= src || src + Len(mem[..], src) + 1 <= dest
    modifies mem
    ensures ret == dest
    ensures mem[..] == Overlay(old(mem[..]), dest, old(Str(mem[..], src)) + [0])
    ensures Terminated(mem[..], dest) && Str(mem[..], dest) == old(Str(mem[..], src))
  {
    ghost var s := Str(mem[..], src);
    ghost var m0 := mem[..];
    assert m0[src..src + |s| + 1] == s + [0];
    CopyString(mem, dest, src, s);
    OverlayStr(m0, dest, s);
    ret := dest;
  }

  /**
   * The copy loop shared by `strcpy` and `strcat`: bytes are moved forward
   * one at a time, and the loop stops after moving a NUL. Here s is the
   * NUL-free text found at src.
   */
  method CopyString(mem: array<Byte>, dest: nat, src: nat, ghost s: seq<Byte>)
    requires NoNul(s) && src + |s| < mem.Length && mem[src..src + |s| + 1] == s + [0]
    requires dest + |s| + 1 <= mem.Length
    requires dest <= src || src + |s| + 1 <= dest
    modifies mem
    ensures mem[..] == Overlay(old(mem[..]), dest, s + [0])
  {
    ghost var m0 := mem[..];
    ghost var t := s + [0];
    var i := 0;
    while true
      invariant i <= |s|
      invariant mem[..] == Overlay(m0, dest, t[..i])
      decreases |s| - i
    {
      assert m0[src + i] == t[i];
      var c := mem[src + i];
      OverlayPrefixStep(m0, dest, t, i);
      mem[dest + i] := c;
      if c == 0 {
        assert i == |s|;
        assert t[..i + 1] == t;
        break;
      }
      i := i + 1;
    }
  }

  /**
   * `strncpy`: exactly n bytes are written at dest: the string at src with
   * its terminator, cut at n bytes or padded with zero bytes to n. When the
   * string has n or more characters no terminator is written.
   */
  method Strncpy(mem: array<Byte>, dest: nat, src: nat, n: nat) returns (ret: nat)
    requires Terminated(mem[..], src)
    requires dest + n <= mem.Length
    requires dest <= src || src + Len(mem[..], src) + 1 <= dest || src + n <= dest
    modifies mem
    ensures ret == dest
    ensures mem[..] == Overlay(old(mem[..]), dest, PadTo(old(Str(mem[..], src)), n))
    ensures old(Len(mem[..], src)) >= n ==> NoNul(mem[dest..dest + n])
  {
    ghost var m0 := mem[..];
    ghost var s := Str(m0, src);
    assert m0[src..src + |s| + 1] == s + [0];
    ret := dest;
    var i := CopyBounded(mem, dest, src, n, s);
    // Pad the rest of the n bytes with zeros.
    RepStos(mem, dest + i, n - i);
    PadJoin(m0, dest, s, n, i);
  }

  /** Copying the first i bytes of PadTo(s, n) and zeroing the rest writes PadTo(s, n). */
  lemma PadJoin(m: seq<Byte>, d: nat, s: seq<Byte>, n: nat, i: nat)
    requires NoNul(s) && d + n <= |m|
    requires i == if n <= |s| then n else |s| + 1
    ensures Overlay(Overlay(m, d, PadTo(s, n)[..i]), d + i, Zeros(n - i)) == Overlay(m, d, PadTo(s, n))
    ensures n <= |s| ==> NoNul(Overlay(m, d, PadTo(s, n))[d..d + n])
  {
    var p := PadTo(s, n);
    OverlayJoin(m, d, p[..i], Zeros(n - i));
    assert p[..i] + Zeros(n - i) == p;
    OverlaySlice(m, d, p);
  }

  /**
   * The first loop of `strncpy`: bytes are moved forward one at a time
   * until a NUL has been moved or n bytes have been; the count moved is
   * returned. Here s is the NUL-free text found at src.
   */
  method CopyBounded(mem: array<Byte>, dest: nat, src: nat, n: nat, ghost s: seq<Byte>) returns (i: nat)
    requires NoNul(s) && src + |s| < mem.Length && mem[src..src + |s| + 1] == s + [0]
    requires dest + n <= mem.Length
    requires dest <= src || src + |s| + 1 <= dest || src + n <= dest
    modifies mem
    ensures i == if n <= |s| then n else |s| + 1
    ensures mem[..] == Overlay(old(mem[..]), dest, PadTo(s, n)[..i])
  {
    ghost var m0 := mem[..];
    ghost var p := PadTo(s, n);
    i := 0;
    var c: Byte := 1;
    while i < n && c != 0
      invariant i <= n && i <= |s| + 1
      invariant c != 0 ==> i <= |s|
      invariant c == 0 ==> i == |s| + 1
      invariant mem[..] == Overlay(m0, dest, p[..i])
      decreases n - i
    {
      assert m0[src + i] == m0[src..src + |s| + 1][i];
      assert m0[src + i] == p[i];
      c := mem[src + i];
      OverlayPrefixStep(m0, dest, p, i);
      mem[dest + i] := c;
      i := i + 1;
    }
  }

  /** Copying the string at src over the terminator of the one at dest joins the two. */
  lemma StrcatJoins(m0: seq<Byte>, m1: seq<Byte>, dest: nat, src: nat)
    requires Terminated(m0, dest) && Terminated(m0, src)
    requires dest + Len(m0, dest) + Len(m0, src) + 1 <= |m0|
    requires m1 == Overlay(m0, dest + Len(m0, dest), Str(m0, src) + [0])
    ensures Terminated(m1, dest) && Str(m1, dest) == Str(m0, dest) + Str(m0, src)
  {
    OverlayAppend(m0, dest, Str(m0, dest), Str(m0, src));
  }

  /**
   * `strcat`: the string at src and its terminator are written over the
   * terminator of the string at dest, so the string at dest becomes the
   * concatenation; dest is returned.
   */
  method Strcat(mem: array<Byte>, dest: nat, src: nat) returns (ret: nat)
    requires Terminated(mem[..], dest) && Terminated(mem[..], src)
    requires dest + Len(mem[..], dest) + Len(mem[..], src) + 1 <= mem.Length
    requires dest + Len(mem[..], dest) <= src || src + Len(mem[..], src) + 1 <= dest + Len(mem[..], dest)
    modifies mem
    ensures ret == dest
    ensures mem[..] == Overlay(old(mem[..]), dest + old(Len(mem[..], dest)), old(Str(mem[..], src)) + [0])
    ensures Terminated(mem[..], dest)
    ensures Str(mem[..], dest) == old(Str(mem[..], dest)) + old(Str(mem[..], src))
  {
    ghost var m0 := mem[..];
    // the walk to the terminator is the one strlen makes
    var n := Strlen(mem[..], dest);
    var _ := Strcpy(mem, dest + n, src);
    ret := dest;
    StrcatJoins(m0, mem[..], dest, src);
  }

  /** Overwriting the terminator of the NUL-free a at d with b and a new terminator leaves a + b at d. */
  lemma OverlayAppend(m: seq<Byte>, d: nat, a: seq<Byte>, b: seq<Byte>)
    requires NoNul(a) && NoNul(b) && d + |a| + |b| + 1 <= |m| && m[d..d + |a|] == a
    ensures Terminated(Overlay(m, d + |a|, b + [0]), d)
    ensures Str(Overlay(m, d + |a|, b + [0]), d) == a + b
  {
    var r := Overlay(m, d + |a|, b + [0]);
    var t := a + b + [0];
    forall k | 0 <= k < |t| ensures r[d + k] == t[k] {
      if k < |a| {
        assert r[d + k] == m[d..d + |a|][k];
      } else {
        assert r[d + k] == (b + [0])[k - |a|];
      }
    }
    assert r[d..d + |t|] == t;
    assert NoNul(a + b);
    StrAt(r, d, a + b);
  }

  // ---------------------------------------------------------------------
  // Fills
  // ---------------------------------------------------------------------

  /**
   * count zero bytes written from start, one at a time: the `rep stos` of
   * `memclr` and the padding loop of `strncpy`.
   */
  method RepStos(mem: array<Byte>, start: nat, count: nat)
    requires start + count <= mem.Length
    modifies mem
    ensures mem[..] == Overlay(old(mem[..]), start, Zeros(count))
  {
    ghost var m0 := mem[..];
    var i := 0;
    while i < count
      invariant i <= count
      invariant mem[..] == Overlay(m0, start, Zeros(i))
    {
      OverlayStep(m0, start, Zeros(i), 0);
      mem[start + i] := 0;
      assert Zeros(i) + [0] == Zeros(i + 1);
      i := i + 1;
    }
  }

  /**
   * `memclr`: count zero bytes from start, stored as count/4 dwords and
   * then the remaining bytes; the result is the address just past them.
   */
  method Memclr(mem: array<Byte>, start: nat, count: nat) returns (r: nat)
    requires start + count <= mem.Length
    modifies mem
    ensures mem[..] == Overlay(old(mem[..]), start, Zeros(count))
    ensures r == start + count
  {
    if count == 0 {
      assert Overlay(mem[..], start, Zeros(0)) == mem[..];
      return start;
    }
    ghost var m0 := mem[..];
    var words := count / 4;
    RepStos(mem, start, words * 4);
    RepStos(mem, start + words * 4, count - words * 4);
    OverlayJoin(m0, start, Zeros(words * 4), Zeros(count - words * 4));
    assert Zeros(words * 4) + Zeros(count - words * 4) == Zeros(count);
    r := start + count;
  }

  /**
   * `memset`: num copies of value from ptr. A zero fill is handed to
   * `memclr`, whose result (the address just past the block) is returned;
   * any other value returns ptr itself.
   */
  method Memset(mem: array<Byte>, ptr: nat, value: Byte, num: nat) returns (r: nat)
    requires ptr + num <= mem.Length
    modifies mem
    ensures mem[..] == Overlay(old(mem[..]), ptr, seq(num, _ => value))
    ensures r == if value == 0 then ptr + num else ptr
  {
    if value == 0 {
      r := Memclr(mem, ptr, num);
      assert Zeros(num) == seq(num, _ => value);
      return;
    }
    ghost var m0 := mem[..];
    for i := 0 to num
      invariant mem[..] == Overlay(m0, ptr, seq(i, _ => value))
    {
      OverlayStep(m0, ptr, seq(i, _ => value), value);
      mem[ptr + i] := value;
      assert seq(i, _ => value) + [value] == seq(i + 1, _ => value);
    }
    r := ptr;
  }

  // ---------------------------------------------------------------------
  // Copies
  // ---------------------------------------------------------------------

  /**
   * The source and destination ranges of a forward copy of n bytes do not
   * clash: different arrays, or the destination at or below the source, or
   * the source range wholly below the destination.
   */
  predicate ForwardSafe(dst: array<Byte>, d: nat, src: array<Byte>, s: nat, n: nat)
  {
    dst != src || d <= s || s + n <= d
  }

  /**
   * A forward copy of data from src at s to dst at d, partway through: the
   * first done bytes have been moved, so dm (the destination now) is m0
   * overlaid with them, and the source bytes not yet moved still read as
   * the rest of data in sm (the source now).
   */
  ghost predicate Partway(dm: seq<Byte>, sm: seq<Byte>, m0: seq<Byte>, d: nat, data: seq<Byte>, s: nat, done: nat)
  {
    done <= |data| && d + |data| <= |m0| && s + |data| <= |sm|
    && dm == Overlay(m0, d, data[..done]) && sm[s + done..s + |data|] == data[done..]
  }

  /** Before anything has moved, the copy is partway at its start. */
  lemma PartwayStart(dm: seq<Byte>, sm: seq<Byte>, d: nat, s: nat, n: nat)
    requires d + n <= |dm| && s + n <= |sm|
    ensures Partway(dm, sm, dm, d, sm[s..s + n], s, 0)
  {
    assert Overlay(dm, d, []) == dm;
  }

  /** Writing one byte outside a range leaves that range as it was. */
  lemma WriteOutside(m: seq<Byte>, k: nat, c: Byte, a: nat, b: nat)
    requires k < |m| && a <= b <= |m| && (k < a || b <= k)
    ensures m[k := c][a..b] == m[a..b]
  {
  }

  /**
   * `rep movs`: the next count bytes of a forward copy moved one at a time
   * (a double-word move has the same effect as its four byte moves in
   * order). On entry the copy is partway at done; on exit at done + count.
   */
  method Movs(dst: array<Byte>, d: nat, src: array<Byte>, s: nat, done: nat, count: nat,
              ghost m0: seq<Byte>, ghost data: seq<Byte>)
    requires done + count <= |data|
    requires ForwardSafe(dst, d, src, s, |data|)
    requires Partway(dst[..], src[..], m0, d, data, s, done)
    modifies dst
    ensures Partway(dst[..], src[..], m0, d, data, s, done + count)
    ensures dst != src ==> src[..] == old(src[..])
  {
    var i := done;
    while i < done + count
      invariant done <= i <= done + count
      invariant Partway(dst[..], src[..], m0, d, data, s, i)
      invariant dst != src ==> src[..] == old(src[..])
    {
      ghost var sm := src[..];
      assert src[s + i] == sm[s + i..s + |data|][0];
      var c := src[s + i];
      OverlayPrefixStep(m0, d, data, i);
      dst[d + i] := c;
      if dst == src {
        WriteOutside(sm, d + i, c, s + i + 1, s + |data|);
      }
      assert sm[s + i + 1..s + |data|] == sm[s + i..s + |data|][1..];
      i := i + 1;
    }
  }

  /**
   * `rep movsd` of dwords double words and then, when any are left,
   * `rep movsb` of remaining bytes: the two string moves of `memcpy`,
   * continuing a forward copy partway at done.
   */
  method MovsdMovsb(dst: array<Byte>, d: nat, src: array<Byte>, s: nat, done: nat, dwords: nat, remaining: nat,
                    ghost m0: seq<Byte>, ghost data: seq<Byte>)
    requires done + 4 * dwords + remaining <= |data|
    requires ForwardSafe(dst, d, src, s, |data|)
    requires Partway(dst[..], src[..], m0, d, data, s, done)
    modifies dst
    ensures Partway(dst[..], src[..], m0, d, data, s, done + 4 * dwords + remaining)
    ensures dst != src ==> src[..] == old(src[..])
  {
    Movs(dst, d, src, s, done, 4 * dwords, m0, data);
    if remaining != 0 {
      Movs(dst, d, src, s, done + 4 * dwords, remaining, m0, data);
    }
  }

  function Min(a: nat, b: nat): nat
  {
    if a <= b then a else b
  }

  /**
   * The 4 KiB block loop of `memcpy`: at most blocks rounds; a round with
   * more than 4096 bytes left moves one 4096-byte block, and a round with
   * 4096 or fewer moves them all (dwords, then bytes) and returns. So
   * Min(|data|, 4096 * blocks) bytes are moved.
   */
  method BlockCopy(dst: array<Byte>, d: nat, src: array<Byte>, s: nat, num: nat, blocks: nat,
                   ghost m0: seq<Byte>, ghost data: seq<Byte>)
    requires |data| == num
    requires ForwardSafe(dst, d, src, s, |data|)
    requires Partway(dst[..], src[..], m0, d, data, s, 0)
    modifies dst
    ensures Partway(dst[..], src[..], m0, d, data, s, Min(|data|, 4096 * blocks))
    ensures dst != src ==> src[..] == old(src[..])
  {
    var left := num;
    var done := 0;
    var block := 0;
    while block < blocks
      invariant block <= blocks && done == 4096 * block && done + left == |data|
      invariant block == 0 || done < |data|
      invariant Partway(dst[..], src[..], m0, d, data, s, done)
      invariant dst != src ==> src[..] == old(src[..])
    {
      if left > 4096 {
        MovsdMovsb(dst, d, src, s, done, 1024, 0, m0, data);
      } else {
        MovsdMovsb(dst, d, src, s, done, left / 4, left % 4, m0, data);
        return;
      }
      left := left - 4096;
      done := done + 4096;
      block := block + 1;
    }
  }

  /** Enough 4 KiB blocks to cover num bytes cover them. */
  lemma BlocksCover(num: nat)
    ensures Min(num, 4096 * ((num + 4095) / 4096)) == num
  {
  }

  /** A copy of the n bytes of s0 at s that is partway at c has written the first c of them. */
  lemma PartwayPrefix(dm: seq<Byte>, sm: seq<Byte>, m0: seq<Byte>, d: nat, s0: seq<Byte>, s: nat, n: nat, done: nat, c: nat)
    requires s + n <= |s0| && Partway(dm, sm, m0, d, s0[s..s + n], s, done) && done == c
    ensures dm == Overlay(m0, d, s0[s..s + c])
  {
    assert s0[s..s + n][..c] == s0[s..s + c];
  }

  /** Overlaying a whole sequence replaces it. */
  lemma OverlayWhole(m: seq<Byte>, data: seq<Byte>)
    requires |data| == |m|
    ensures Overlay(m, 0, data) == data
  {
  }

  /**
   * `memcpy`, as intended: num bytes moved forward from src at s to dst at
   * d, and d returned. Up to 64 bytes, and below 4096, move num / 4 dwords
   * and then num % 4 bytes; from 4096 on, move 4 KiB blocks and then the
   * tail. (The code as written takes the dword count of the first case
   * modulo 64, see MemcpyAsWritten.)
   */
  method Memcpy(dst: array<Byte>, d: nat, src: array<Byte>, s: nat, num: nat) returns (r: nat)
    requires num < WORD_MOD
    requires d + num <= dst.Length && s + num <= src.Length
    requires ForwardSafe(dst, d, src, s, num)
    modifies dst
    ensures r == d
    ensures dst[..] == Overlay(old(dst[..]), d, old(src[s..s + num]))
  {
    ghost var m0, data := dst[..], src[s..s + num];
    PartwayStart(dst[..], src[..], d, s, num);
    if num <= 64 {
      MovsdMovsb(dst, d, src, s, 0, num / 4, num % 4, m0, data);
    } else if num < 4096 {
      MovsdMovsb(dst, d, src, s, 0, num / 4, num % 4, m0, data);
    } else {
      BlocksCover(num);
      BlockCopy(dst, d, src, s, num, (num + 4095) / 4096, m0, data);
    }
    assert data[..num] == data;
    r := d;
  }

  /** The dword count of the short path of `memcpy` as written: (num & 0x3F) / 4. */
  function ShortDwordsAsWritten(num: nat): nat
  {
    (num % 64) / 4
  }

  /** The short path as written moves all num bytes, except none at all when num is 64. */
  lemma ShortAsWritten(num: nat)
    requires num <= 64
    ensures 4 * ShortDwordsAsWritten(num) + num % 4 == if num == 64 then 0 else num
  {
  }

  /** The 4 KiB block count of `memcpy` as written: (num + 4095) / 4096 in 32-bit arithmetic. */
  function BlocksAsWritten(num: nat): nat
  {
    ((num + 4095) % WORD_MOD) / 4096
  }

  /** The block path as written moves all num bytes, except none at all when num + 4095 wraps. */
  lemma LongAsWritten(num: nat)
    requires 4096 <= num < WORD_MOD
    ensures Min(num, 4096 * BlocksAsWritten(num)) == if num <= 0xFFFF_F000 then num else 0
  {
    if num <= 0xFFFF_F000 {
      BlocksCover(num);
    }
  }

  /** The number of bytes `memcpy` moves as written. */
  function CopiedAsWritten(num: nat): nat
  {
    if num <= 64 then 4 * ShortDwordsAsWritten(num) + num % 4
    else if num < 4096 then num
    else Min(num, 4096 * BlocksAsWritten(num))
  }

  /** Below 4096 bytes, `memcpy` as written moves CopiedAsWritten(num) bytes as dwords and a byte tail. */
  lemma ShortCount(num: nat, dwords: nat)
    requires num < 4096 && dwords == if num <= 64 then ShortDwordsAsWritten(num) else num / 4
    ensures 4 * dwords + num % 4 == CopiedAsWritten(num) <= num
  {
    if num <= 64 {
      ShortAsWritten(num);
    }
  }

  /** `memcpy` as written: CopiedAsWritten(num) bytes are moved. */
  method MemcpyAsWritten(dst: array<Byte>, d: nat, src: array<Byte>, s: nat, num: nat) returns (r: nat)
    requires num < WORD_MOD
    requires d + num <= dst.Length && s + num <= src.Length
    requires ForwardSafe(dst, d, src, s, num)
    modifies dst
    ensures r == d
    ensures dst[..] == Overlay(old(dst[..]), d, old(src[..])[s..s + CopiedAsWritten(num)])
  {
    ghost var m0, s0 := dst[..], src[..];
    ghost var data := s0[s..s + num];
    PartwayStart(dst[..], src[..], d, s, num);
    MovesAsWritten(dst, d, src, s, num, m0, data);
    PartwayPrefix(dst[..], src[..], m0, d, s0, s, num, CopiedAsWritten(num), CopiedAsWritten(num));
    r := d;
  }

  /** The three copy paths of `memcpy` as written, from the start of the copy. */
  method MovesAsWritten(dst: array<Byte>, d: nat, src: array<Byte>, s: nat, num: nat,
                        ghost m0: seq<Byte>, ghost data: seq<Byte>)
    requires num < WORD_MOD && |data| == num
    requires ForwardSafe(dst, d, src, s, num)
    requires Partway(dst[..], src[..], m0, d, data, s, 0)
    modifies dst
    ensures Partway(dst[..], src[..], m0, d, data, s, CopiedAsWritten(num))
  {
    if num < 4096 {
      var dwords := if num <= 64 then ShortDwordsAsWritten(num) else num / 4;
      ShortCount(num, dwords);
      MovsdMovsb(dst, d, src, s, 0, dwords, num % 4, m0, data);
    } else {
      BlockCopy(dst, d, src, s, num, BlocksAsWritten(num), m0, data);
    }
  }

  /**
   * `memcpy` as written moves every byte exactly when num is neither 64
   * (the dword count wraps to 0) nor above 0xFFFFF000 (the block count
   * wraps to 0).
   */
  lemma MemcpyShortfall(num: nat)
    requires num < WORD_MOD
    ensures CopiedAsWritten(num) == num <==> num != 64 && num <= 0xFFFF_F000
  {
    if num <= 64 {
      ShortAsWritten(num);
    } else if num >= 4096 {
      LongAsWritten(num);
    }
  }

  /** A 64-byte `memcpy` as written moves nothing. */
  lemma MemcpySixtyFour()
    ensures CopiedAsWritten(64) == 0
  {
  }

  /**
   * `memmove`: n bytes copied from src to dest through a temporary buffer,
   * so the result is right however the two ranges overlap; dest is
   * returned.
   */
  method Memmove(mem: array<Byte>, dest: nat, src: nat, n: nat) returns (r: nat)
    requires n < WORD_MOD
    requires dest + n <= mem.Length && src + n <= mem.Length
    modifies mem
    ensures r == dest
    ensures mem[..] == Overlay(old(mem[..]), dest, old(mem[src..src + n]))
  {
    ghost var data := mem[src..src + n];
    var tmp := new Byte[n];
    OverlayWhole(tmp[..], data);
    var _ := Memcpy(tmp, 0, mem, src, n);
    var _ := Memcpy(mem, dest, tmp, 0, n);
    assert tmp[0..n] == tmp[..];
    r := dest;
  }

  /**
   * `memmove` as written: both copies go through `memcpy` as written, so
   * only the first CopiedAsWritten(n) bytes of src reach dest (none for
   * n == 64).
   */
  method MemmoveAsWritten(mem: array<Byte>, dest: nat, src: nat, n: nat) returns (r: nat)
    requires n < WORD_MOD
    requires dest + n <= mem.Length && src + n <= mem.Length
    modifies mem
    ensures r == dest
    ensures mem[..] == Overlay(old(mem[..]), dest, old(mem[..])[src..src + CopiedAsWritten(n)])
  {
    ghost var m0 := mem[..];
    ghost var c := CopiedAsWritten(n);
    CopiedAtMost(n);
    var tmp := new Byte[n];
    var _ := MemcpyAsWritten(tmp, 0, mem, src, n);
    ghost var t1 := tmp[..];
    assert t1 == Overlay(t1, 0, m0[src..src + c]) by {
      assert mem[..] == m0;
    }
    OverlayPrefix(t1, m0[src..src + c]);
    var _ := MemcpyAsWritten(mem, dest, tmp, 0, n);
    r := dest;
  }

  /** `memcpy` as written never moves more than it is asked to. */
  lemma CopiedAtMost(num: nat)
    ensures CopiedAsWritten(num) <= num
  {
    if num < 4096 {
      ShortCount(num, if num <= 64 then ShortDwordsAsWritten(num) else num / 4);
    }
  }

  lemma OverlayPrefix(t: seq<Byte>, data: seq<Byte>)
    requires |data| <= |t| && t == Overlay(t, 0, data)
    ensures t[0..|data|] == data
  {
  }

  /** A 64-byte `memmove` as written leaves memory unchanged. */
  lemma MemmoveSixtyFour(m: seq<Byte>, dest: nat, src: nat)
    requires dest + 64 <= |m| && src + 64 <= |m|
    ensures Overlay(m, dest, m[src..src + CopiedAsWritten(64)]) == m
  {
    MemcpySixtyFour();
    assert m[src..src] == [];
    assert m[..dest] + [] + m[dest..] == m;
  }
}
