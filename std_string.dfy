/**
 * The read-only scans of kern/stdlib/std.c: `strlen`, `strchr`, `strcmp`,
 * `strncmp`, the case-folding comparisons, `memchr`, `memcmp` and
 * `std_strcnt`. Memory is a byte sequence indexed by address; a C string
 * at address p is the bytes from p up to the first NUL.
 */
module StdString {
  import opened Types
  import CType

  /** A NUL occurs at or after p: the C string at p is terminated inside memory. */
  predicate Terminated(m: seq<Byte>, p: nat)
  {
    exists k :: p <= k < |m| && m[k] == 0
  }

  /** The number of bytes before the first NUL at or after p. */
  function Len(m: seq<Byte>, p: nat): (n: nat)
    requires Terminated(m, p)
    ensures p + n < |m| && m[p + n] == 0
    decreases |m| - p
  {
    if m[p] == 0 then 0
    else
      assert Terminated(m, p + 1) by {
        var k :| p <= k < |m| && m[k] == 0;
        assert k != p;
      }
      1 + Len(m, p + 1)
  }

  /** No byte before the NUL that ends the string at p is NUL. */
  lemma {:induction false} LenNoNul(m: seq<Byte>, p: nat)
    requires Terminated(m, p)
    ensures forall k :: p <= k < p + Len(m, p) ==> m[k] != 0
    decreases |m| - p
  {
    if m[p] != 0 {
      assert Terminated(m, p + 1) by {
        var k :| p <= k < |m| && m[k] == 0;
        assert k != p;
      }
      LenNoNul(m, p + 1);
    }
  }

  /** The characters of the C string at p, without its terminator. */
  function Str(m: seq<Byte>, p: nat): (s: seq<Byte>)
    requires Terminated(m, p)
    ensures |s| == Len(m, p)
    ensures forall k :: 0 <= k < |s| ==> s[k] != 0
  {
    LenNoNul(m, p);
    m[p..p + Len(m, p)]
  }

  /** A string is determined by where its first NUL is. */
  lemma LenUnique(m: seq<Byte>, p: nat, n: nat)
    requires p + n < |m| && m[p + n] == 0
    requires forall k :: p <= k < p + n ==> m[k] != 0
    ensures Terminated(m, p) && Len(m, p) == n
    decreases n
  {
    assert m[p + n] == 0;
    if n > 0 {
      LenUnique(m, p + 1, n - 1);
    }
  }

  /** A non-empty string is its first byte followed by the string one further on. */
  lemma LenStep(m: seq<Byte>, p: nat)
    requires Terminated(m, p) && m[p] != 0
    ensures Terminated(m, p + 1) && Len(m, p) == 1 + Len(m, p + 1)
  {
    assert m[p + Len(m, p)] == 0;
    LenNoNul(m, p);
    LenUnique(m, p + 1, Len(m, p) - 1);
  }

  // ---------------------------------------------------------------------
  // Lexicographic order on unsigned bytes
  // ---------------------------------------------------------------------

  /**
   * x sorts strictly before y: at the first position where they differ x
   * has the smaller unsigned byte, or x is a proper prefix of y.
   */
  predicate Below(x: seq<Byte>, y: seq<Byte>)
  {
    |y| > 0 && (|x| == 0 || x[0] < y[0] || (x[0] == y[0] && Below(x[1..], y[1..])))
  }

  /** The bytes at a + j and b + j are equal. */
  predicate SameAt(m: seq<Byte>, a: nat, b: nat, j: nat)
  {
    a + j < |m| && b + j < |m| && m[a + j] == m[b + j]
  }

  /** The bytes at a + j and b + j are equal ignoring ASCII case. */
  predicate FoldSameAt(m: seq<Byte>, a: nat, b: nat, j: nat)
  {
    a + j < |m| && b + j < |m| && CharMap(m[a + j]) == CharMap(m[b + j])
  }

  /** r orders x and y as a comparison routine reports it: zero when equal, negative when x sorts first. */
  predicate Orders(r: int, x: seq<Byte>, y: seq<Byte>)
  {
    (r == 0 <==> x == y) && (r < 0 <==> Below(x, y)) && (r > 0 <==> Below(y, x))
  }

  /** Byte k of s, or the terminator's 0 just past its end. */
  function At(s: seq<Byte>, k: nat): Byte
  {
    if k < |s| then s[k] else 0
  }

  predicate NoNul(s: seq<Byte>)
  {
    forall k :: 0 <= k < |s| ==> s[k] != 0
  }

  /**
   * Two NUL-free strings that agree on their first k bytes, and then differ
   * or end, compare as the bytes at position k compare.
   */
  lemma {:induction false} CompareAt(x: seq<Byte>, y: seq<Byte>, k: nat)
    requires NoNul(x) && NoNul(y)
    requires k <= |x| && k <= |y| && x[..k] == y[..k]
    requires k == |x| || k == |y| || x[k] != y[k]
    ensures x == y <==> At(x, k) == At(y, k)
    ensures Below(x, y) <==> At(x, k) < At(y, k)
    ensures Below(y, x) <==> At(y, k) < At(x, k)
    decreases k
  {
    if k == 0 {
      if |x| > 0 && |y| > 0 {
        assert x[0] != y[0];
      }
    } else {
      assert x[0] == y[0] by { assert x[..k][0] == y[..k][0]; }
      assert x[1..][..k - 1] == x[..k][1..];
      assert y[1..][..k - 1] == y[..k][1..];
      CompareAt(x[1..], y[1..], k - 1);
      assert x == [x[0]] + x[1..] && y == [y[0]] + y[1..];
    }
  }

  /**
   * Two byte blocks of the same length that agree on their first k bytes and
   * differ at k (or end there) compare as the bytes at position k compare.
   */
  lemma {:induction false} CompareBlocksAt(x: seq<Byte>, y: seq<Byte>, k: nat)
    requires |x| == |y| && k <= |x| && x[..k] == y[..k]
    requires k == |x| || x[k] != y[k]
    ensures x == y <==> k == |x|
    ensures Below(x, y) <==> k < |x| && x[k] < y[k]
    ensures Below(y, x) <==> k < |x| && y[k] < x[k]
    decreases k
  {
    if k == 0 {
    } else {
      assert x[0] == y[0] by { assert x[..k][0] == y[..k][0]; }
      assert x[1..][..k - 1] == x[..k][1..];
      assert y[1..][..k - 1] == y[..k][1..];
      CompareBlocksAt(x[1..], y[1..], k - 1);
      assert x == [x[0]] + x[1..] && y == [y[0]] + y[1..];
    }
  }

  // ---------------------------------------------------------------------
  // strlen, strchr
  // ---------------------------------------------------------------------

  /** `strlen`: the index of the first NUL, counted from str. */
  method Strlen(m: seq<Byte>, str: nat) returns (ret: nat)
    requires Terminated(m, str)
    ensures ret == Len(m, str)
  {
    ret := 0;
    LenNoNul(m, str);
    while m[str + ret] != 0
      invariant ret <= Len(m, str)
      decreases Len(m, str) - ret
    {
      ret := ret + 1;
    }
  }

  /**
   * `strchr`: c is converted to `char` (its low byte); the result is the
   * first position holding that byte, which for a NUL byte is the
   * terminator, or None when the terminator comes first.
   */
  method Strchr(m: seq<Byte>, s: nat, c: int) returns (r: Option<nat>)
    requires Terminated(m, s)
    ensures r.Some? ==> s <= r.value <= s + Len(m, s) && m[r.value] == c % 256
    ensures r.Some? ==> forall k :: s <= k < r.value ==> m[k] != c % 256
    ensures r.None? <==> forall k :: s <= k <= s + Len(m, s) ==> m[k] != c % 256
    ensures c % 256 == 0 ==> r == Some(s + Len(m, s))
  {
    var ch := c % 256;
    var i := s;
    LenNoNul(m, s);
    while m[i] != ch
      invariant s <= i <= s + Len(m, s)
      invariant forall k :: s <= k < i ==> m[k] != ch
      decreases s + Len(m, s) - i
    {
      if m[i] == 0 {
        return None;
      }
      i := i + 1;
    }
    r := Some(i);
  }

  // ---------------------------------------------------------------------
  // strcmp, strncmp
  // ---------------------------------------------------------------------

  /**
   * `strcmp`: the difference of the first differing unsigned bytes (0 at a
   * common terminator). It is 0 exactly for equal strings and negative
   * exactly when the string at s1 sorts first.
   */
  method Strcmp(m: seq<Byte>, s1: nat, s2: nat) returns (r: int)
    requires Terminated(m, s1) && Terminated(m, s2)
    ensures r == 0 <==> Str(m, s1) == Str(m, s2)
    ensures r < 0 <==> Below(Str(m, s1), Str(m, s2))
    ensures r > 0 <==> Below(Str(m, s2), Str(m, s1))
  {
    var i := 0;
    while m[s1 + i] != 0 && m[s1 + i] == m[s2 + i]
      invariant i <= Len(m, s1) && i <= Len(m, s2)
      invariant forall j :: 0 <= j < i ==> SameAt(m, s1, s2, j)
      decreases Len(m, s1) - i
    {
      i := i + 1;
    }
    r := m[s1 + i] as int - m[s2 + i] as int;
    MismatchCompares(m, s1, s2, i);
  }

  /** The strings at a and b agree before k and part (or end) at k: they compare as their bytes at k. */
  lemma MismatchCompares(m: seq<Byte>, a: nat, b: nat, k: nat)
    requires Terminated(m, a) && Terminated(m, b)
    requires k <= Len(m, a) && k <= Len(m, b)
    requires forall j :: 0 <= j < k ==> SameAt(m, a, b, j)
    requires m[a + k] == 0 || m[a + k] != m[b + k]
    ensures Str(m, a) == Str(m, b) <==> m[a + k] == m[b + k]
    ensures Below(Str(m, a), Str(m, b)) <==> m[a + k] < m[b + k]
    ensures Below(Str(m, b), Str(m, a)) <==> m[b + k] < m[a + k]
  {
    var x, y := Str(m, a), Str(m, b);
    forall j | 0 <= j < k ensures x[j] == y[j] {
      assert SameAt(m, a, b, j);
    }
    assert x[..k] == y[..k];
    assert At(x, k) == m[a + k] && At(y, k) == m[b + k];
    CompareAt(x, y, k);
  }

  /**
   * `strncmp`: exactly n bytes are compared, NULs included; the result is 0
   * when all agree, otherwise the difference of the first differing bytes.
   */
  method Strncmp(m: seq<Byte>, s1: nat, s2: nat, n: nat) returns (r: int)
    requires s1 + n <= |m| && s2 + n <= |m|
    ensures r == 0 <==> m[s1..s1 + n] == m[s2..s2 + n]
    ensures r < 0 <==> Below(m[s1..s1 + n], m[s2..s2 + n])
    ensures r > 0 <==> Below(m[s2..s2 + n], m[s1..s1 + n])
  {
    var i := 0;
    while i < n
      invariant i <= n
      invariant m[s1..s1 + i] == m[s2..s2 + i]
    {
      if m[s1 + i] != m[s2 + i] {
        r := m[s1 + i] as int - m[s2 + i] as int;
        BlocksCompare(m, s1, s2, n, i);
        return;
      }
      assert m[s1..s1 + i + 1] == m[s1..s1 + i] + [m[s1 + i]];
      assert m[s2..s2 + i + 1] == m[s2..s2 + i] + [m[s2 + i]];
      i := i + 1;
    }
    r := 0;
    BlocksCompare(m, s1, s2, n, n);
  }

  lemma BlocksCompare(m: seq<Byte>, a: nat, b: nat, n: nat, k: nat)
    requires a + n <= |m| && b + n <= |m| && k <= n
    requires m[a..a + k] == m[b..b + k]
    requires k == n || m[a + k] != m[b + k]
    ensures m[a..a + n] == m[b..b + n] <==> k == n
    ensures Below(m[a..a + n], m[b..b + n]) <==> k < n && m[a + k] < m[b + k]
    ensures Below(m[b..b + n], m[a..a + n]) <==> k < n && m[b + k] < m[a + k]
  {
    var x, y := m[a..a + n], m[b..b + n];
    assert x[..k] == m[a..a + k] && y[..k] == m[b..b + k];
    CompareBlocksAt(x, y, k);
  }

  // ---------------------------------------------------------------------
  // Case-insensitive comparison
  // ---------------------------------------------------------------------

  /**
   * `strcasecmp_charmap`: the 256-entry table maps entries 0101..0132
   * ('A'..'Z') to 0141..0172 ('a'..'z') and every other entry to its own
   * index.
   */
  function CharMap(c: Byte): Byte
  {
    if 0x41 <= c <= 0x5A then c + 0x20 else c
  }

  /** Two bytes map to the same entry exactly when they are equal or case partners. */
  lemma CharMapMatches(c: Byte, d: Byte)
    ensures CharMap(c) == CharMap(d) <==> c == d || CType.ToUpper(c) == d || CType.ToUpper(d) == c
    ensures CharMap(c) == 0 <==> c == 0
  {
  }

  /** A byte string with every byte passed through the charmap. */
  function Fold(s: seq<Byte>): (r: seq<Byte>)
    ensures |r| == |s|
    ensures forall k :: 0 <= k < |s| ==> r[k] == CharMap(s[k])
  {
    seq(|s|, k requires 0 <= k < |s| => CharMap(s[k]))
  }

  /** The first n bytes of s, or all of s when it is shorter. */
  function Take(s: seq<Byte>, n: nat): (r: seq<Byte>)
    ensures |r| == if n <= |s| then n else |s|
    ensures r == s[..|r|]
  {
    if n <= |s| then s[..n] else s
  }

  /** The folded string at a: NUL-free, and byte k (the terminator at k = Len) read through the charmap. */
  lemma FoldedStr(m: seq<Byte>, a: nat, k: nat)
    requires Terminated(m, a) && k <= Len(m, a)
    ensures NoNul(Fold(Str(m, a)))
    ensures At(Fold(Str(m, a)), k) == CharMap(m[a + k])
  {
  }

  /**
   * Two folded strings agreeing before k, at which they differ or one ends,
   * compare as their folded bytes at k compare.
   */
  lemma FoldedCompare(m: seq<Byte>, a: nat, b: nat, k: nat)
    requires Terminated(m, a) && Terminated(m, b)
    requires k <= Len(m, a) && k <= Len(m, b)
    requires forall j :: 0 <= j < k ==> FoldSameAt(m, a, b, j)
    ensures Fold(Str(m, a))[..k] == Fold(Str(m, b))[..k]
    ensures At(Fold(Str(m, a)), k) == CharMap(m[a + k]) && At(Fold(Str(m, b)), k) == CharMap(m[b + k])
    ensures NoNul(Fold(Str(m, a))) && NoNul(Fold(Str(m, b)))
  {
    var x, y := Fold(Str(m, a)), Fold(Str(m, b));
    forall j | 0 <= j < k ensures x[j] == y[j] {
      assert FoldSameAt(m, a, b, j);
    }
    FoldedStr(m, a, k);
    FoldedStr(m, b, k);
  }

  /**
   * `strcasecmp`: compares through the charmap; 0 exactly when the strings
   * are equal ignoring ASCII case, otherwise the difference of the first
   * mapped bytes that differ.
   */
  method Strcasecmp(m: seq<Byte>, s1: nat, s2: nat) returns (r: int)
    requires Terminated(m, s1) && Terminated(m, s2)
    ensures r == 0 <==> Fold(Str(m, s1)) == Fold(Str(m, s2))
    ensures r < 0 <==> Below(Fold(Str(m, s1)), Fold(Str(m, s2)))
    ensures r > 0 <==> Below(Fold(Str(m, s2)), Fold(Str(m, s1)))
  {
    var i := 0;
    while CharMap(m[s1 + i]) == CharMap(m[s2 + i])
      invariant i <= Len(m, s1) && i <= Len(m, s2)
      invariant forall j :: 0 <= j < i ==> FoldSameAt(m, s1, s2, j)
      decreases Len(m, s1) - i
    {
      if m[s1 + i] == 0 {
        CaseMismatch(m, s1, s2, i);
        return 0;
      }
      i := i + 1;
    }
    r := CharMap(m[s1 + i]) as int - CharMap(m[s2 + i]) as int;
    CaseMismatch(m, s1, s2, i);
  }

  /** The strings at a and b agree ignoring case before k and part (or end) at k. */
  lemma CaseMismatch(m: seq<Byte>, a: nat, b: nat, k: nat)
    requires Terminated(m, a) && Terminated(m, b)
    requires k <= Len(m, a) && k <= Len(m, b)
    requires forall j :: 0 <= j < k ==> FoldSameAt(m, a, b, j)
    requires m[a + k] == 0 || CharMap(m[a + k]) != CharMap(m[b + k])
    ensures Fold(Str(m, a)) == Fold(Str(m, b)) <==> CharMap(m[a + k]) == CharMap(m[b + k])
    ensures Below(Fold(Str(m, a)), Fold(Str(m, b))) <==> CharMap(m[a + k]) < CharMap(m[b + k])
    ensures Below(Fold(Str(m, b)), Fold(Str(m, a))) <==> CharMap(m[b + k]) < CharMap(m[a + k])
  {
    FoldedCompare(m, a, b, k);
    var x, y := Fold(Str(m, a)), Fold(Str(m, b));
    if m[a + k] == 0 && CharMap(m[a + k]) == CharMap(m[b + k]) {
      assert m[b + k] == 0;
      assert k == |x| && k == |y|;
    }
    CompareAt(x, y, k);
  }

  /**
   * NUL-free strings agreeing before k, with k < n a position where they
   * differ or one ends, or k == n: their first n bytes compare as their
   * bytes at k compare, and are equal when k == n.
   */
  lemma TakeCompare(x: seq<Byte>, y: seq<Byte>, n: nat, k: nat)
    requires NoNul(x) && NoNul(y)
    requires k <= n && k <= |x| && k <= |y| && x[..k] == y[..k]
    requires k < n ==> k == |x| || k == |y| || x[k] != y[k]
    ensures var cx, cy := (if k < n then At(x, k) else 0), (if k < n then At(y, k) else 0);
      (Take(x, n) == Take(y, n) <==> cx == cy) && (Below(Take(x, n), Take(y, n)) <==> cx < cy)
      && (Below(Take(y, n), Take(x, n)) <==> cy < cx)
  {
    var x', y' := Take(x, n), Take(y, n);
    assert x'[..k] == x[..k] && y'[..k] == y[..k];
    if k < n {
      assert At(x', k) == At(x, k) && At(y', k) == At(y, k);
    } else {
      assert |x'| == k && |y'| == k;
    }
    CompareAt(x', y', k);
  }

  /**
   * `strncasecmp`: like `strcasecmp` but looks at no more than n bytes; 0
   * exactly when the first n bytes of the two folded strings (the whole
   * string when shorter) are equal.
   */
  method Strncasecmp(m: seq<Byte>, s1: nat, s2: nat, n: nat) returns (r: int)
    requires Terminated(m, s1) && Terminated(m, s2)
    ensures Orders(r, Take(Fold(Str(m, s1)), n), Take(Fold(Str(m, s2)), n))
  {
    var k := CaseScan(m, s1, s2, n);
    r := if k < n then CharMap(m[s1 + k]) as int - CharMap(m[s2 + k]) as int else 0;
    CaseMismatchN(m, s1, s2, n, k);
  }

  /**
   * The `do … while (--n != 0)` loop of `strncasecmp`: the position k at
   * which it stops, either a mapped mismatch, the end of the string at s1,
   * or n when all n positions agree.
   */
  method CaseScan(m: seq<Byte>, s1: nat, s2: nat, n: nat) returns (k: nat)
    requires Terminated(m, s1) && Terminated(m, s2)
    ensures k <= n && k <= Len(m, s1) && k <= Len(m, s2)
    ensures forall j :: 0 <= j < k ==> FoldSameAt(m, s1, s2, j)
    ensures k < n ==> m[s1 + k] == 0 || CharMap(m[s1 + k]) != CharMap(m[s2 + k])
  {
    if n == 0 {
      return 0;
    }
    k := 0;
    while true
      invariant k < n && k <= Len(m, s1) && k <= Len(m, s2)
      invariant forall j :: 0 <= j < k ==> FoldSameAt(m, s1, s2, j)
      decreases n - k
    {
      if CharMap(m[s1 + k]) != CharMap(m[s2 + k]) || m[s1 + k] == 0 {
        return;
      }
      if k + 1 == n {
        return n;
      }
      k := k + 1;
    }
  }

  /**
   * The strings at a and b agree ignoring case before k; at k < n they
   * part or both end, or k == n. Their first n folded bytes compare as the
   * folded bytes at k (both 0 when k == n).
   */
  lemma CaseMismatchN(m: seq<Byte>, a: nat, b: nat, n: nat, k: nat)
    requires Terminated(m, a) && Terminated(m, b)
    requires k <= n && k <= Len(m, a) && k <= Len(m, b)
    requires forall j :: 0 <= j < k ==> FoldSameAt(m, a, b, j)
    requires k < n ==> m[a + k] == 0 || CharMap(m[a + k]) != CharMap(m[b + k])
    ensures k < n ==> Orders(CharMap(m[a + k]) as int - CharMap(m[b + k]) as int, Take(Fold(Str(m, a)), n), Take(Fold(Str(m, b)), n))
    ensures k == n ==> Orders(0, Take(Fold(Str(m, a)), n), Take(Fold(Str(m, b)), n))
  {
    FoldedCompare(m, a, b, k);
    var x, y := Fold(Str(m, a)), Fold(Str(m, b));
    if k < n && m[a + k] == 0 && CharMap(m[a + k]) == CharMap(m[b + k]) {
      assert m[b + k] == 0;
      assert k == |x| && k == |y|;
    }
    TakeCompare(x, y, n, k);
  }

  // ---------------------------------------------------------------------
  // memchr, memcmp
  // ---------------------------------------------------------------------

  /** `memchr`: the first of the num bytes at ptr equal to value, or None. */
  method Memchr(m: seq<Byte>, ptr: nat, value: Byte, num: nat) returns (r: Option<nat>)
    requires ptr + num <= |m|
    ensures r.Some? ==> ptr <= r.value < ptr + num && m[r.value] == value
    ensures r.Some? ==> forall k :: ptr <= k < r.value ==> m[k] != value
    ensures r.None? <==> forall k :: ptr <= k < ptr + num ==> m[k] != value
  {
    var i := 0;
    while i < num
      invariant i <= num
      invariant forall k :: ptr <= k < ptr + i ==> m[k] != value
    {
      if m[ptr + i] == value {
        return Some(ptr + i);
      }
      i := i + 1;
    }
    r := None;
  }

  /**
   * `memcmp`: exactly -1, 0 or 1 according to the first differing unsigned
   * byte of the two blocks of num bytes.
   */
  method Memcmp(m: seq<Byte>, ptr1: nat, ptr2: nat, num: nat) returns (r: int)
    requires ptr1 + num <= |m| && ptr2 + num <= |m|
    ensures r == -1 || r == 0 || r == 1
    ensures r == 0 <==> m[ptr1..ptr1 + num] == m[ptr2..ptr2 + num]
    ensures r == -1 <==> Below(m[ptr1..ptr1 + num], m[ptr2..ptr2 + num])
    ensures r == 1 <==> Below(m[ptr2..ptr2 + num], m[ptr1..ptr1 + num])
  {
    var i := 0;
    while i < num
      invariant i <= num
      invariant m[ptr1..ptr1 + i] == m[ptr2..ptr2 + i]
    {
      if m[ptr1 + i] != m[ptr2 + i] {
        BlocksCompare(m, ptr1, ptr2, num, i);
        if m[ptr1 + i] > m[ptr2 + i] {
          return 1;
        } else {
          return -1;
        }
      }
      assert m[ptr1..ptr1 + i + 1] == m[ptr1..ptr1 + i] + [m[ptr1 + i]];
      assert m[ptr2..ptr2 + i + 1] == m[ptr2..ptr2 + i] + [m[ptr2 + i]];
      i := i + 1;
    }
    BlocksCompare(m, ptr1, ptr2, num, num);
    r := 0;
  }

  // ---------------------------------------------------------------------
  // std_strcnt
  // ---------------------------------------------------------------------

  /**
   * `std_strcnt`: the number of occurrences of ch in the string at str,
   * its terminator included, so a NUL character is counted once.
   */
  method Strcnt(m: seq<Byte>, str: nat, ch: Byte) returns (count: nat)
    requires Terminated(m, str)
    ensures count == multiset(m[str..str + Len(m, str) + 1])[ch]
    ensures ch == 0 ==> count == 1
  {
    var p := str;
    count := 0;
    LenNoNul(m, str);
    while true
      invariant str <= p <= str + Len(m, str)
      invariant count == multiset(m[str..p])[ch]
      decreases str + Len(m, str) - p
    {
      assert m[str..p + 1] == m[str..p] + [m[p]];
      if m[p] == ch {
        count := count + 1;
      }
      if m[p] == 0 {
        break;
      }
      p := p + 1;
    }
    if ch == 0 {
      assert 0 !in m[str..p] by {
        forall k | 0 <= k < p - str ensures m[str..p][k] != 0 {
          assert m[str..p][k] == m[str + k];
        }
      }
    }
  }
}
