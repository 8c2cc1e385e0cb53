/**
 * The frame bitmap shared by kern/vm/physical.c, kern/vm/kheap.c and
 * kern/scheduler/scheduler.c: frame g is bit g % 32 (INDEX/OFFSET_FROM_BIT)
 * of 32-bit word g / 32, and a set bit means "in use".
 *
 * The specification works on the sequence of words; the methods work in
 * place on the array each allocator owns.
 */
module Bitmap {

  const FULL: bv32 := 0xFFFF_FFFF

  /** INDEX_FROM_BIT(nframes): the number of 32-bit words every scan covers. */
  function WordsScanned(nframes: nat): (r: nat)
    ensures r * 32 <= nframes < (r + 1) * 32
  {
    nframes / 32
  }

  /**
   * The size of the bitmap buffer as written: kmalloc(INDEX_FROM_BIT(nframes))
   * requests INDEX_FROM_BIT(nframes) BYTES for a buffer scanned as that many
   * 32-bit words.
   */
  function BufferBytesAsWritten(nframes: nat): nat
  {
    nframes / 32
  }

  /** Whenever there is a word to scan, the buffer as written holds only a quarter of it. */
  lemma BufferTooSmall(nframes: nat)
    requires nframes >= 32
    ensures BufferBytesAsWritten(nframes) < WordsScanned(nframes) * 4
  {
  }

  /** Bit j of word w is set. */
  predicate Bit(w: bv32, j: bv5)
  {
    w & (1 << j) != 0
  }

  /** OFFSET_FROM_BIT as a shift amount. */
  function Off(g: nat): (r: bv5)
    ensures r as int == g % 32
  {
    (g % 32) as bv5
  }

  /** Frame g lies inside the bitmap and its bit is set. */
  predicate Used(words: seq<bv32>, g: nat)
  {
    g / 32 < |words| && Bit(words[g / 32], Off(g))
  }

  /** Frames s .. s+n-1 are all clear. */
  predicate FreeRun(words: seq<bv32>, s: nat, n: nat)
  {
    forall g :: s <= g < s + n ==> !Used(words, g)
  }

  /** Bit j of word w, with j as a natural number. */
  predicate BitAt(w: bv32, j: nat)
    requires j < 32
  {
    Bit(w, j as bv5)
  }

  lemma OrMask(w: bv32, a: bv5, b: bv5)
    ensures Bit(w | (1 << a), b) <==> a == b || Bit(w, b)
  {
  }

  lemma AndNotMask(w: bv32, a: bv5, b: bv5)
    ensures Bit(w & !(1 << a), b) <==> a != b && Bit(w, b)
  {
  }

  lemma FullBit(j: bv5)
    ensures Bit(FULL, j)
  {
  }

  /** Frame i*32+j is bit j of word i. */
  lemma UsedAt(words: seq<bv32>, i: nat, j: nat)
    requires i < |words| && j < 32
    ensures (i * 32 + j) / 32 == i && Off(i * 32 + j) == j as bv5
    ensures Used(words, i * 32 + j) <==> BitAt(words[i], j)
  {
  }

  /** Every frame in word i is set when the word is 0xFFFFFFFF. */
  lemma FullWordUsed(words: seq<bv32>, g: nat)
    requires g / 32 < |words| && words[g / 32] == FULL
    ensures Used(words, g)
  {
    FullBit(Off(g));
  }

  /** Word w with bit j set. */
  function SetWord(w: bv32, j: bv5): bv32
  {
    w | (1 << j)
  }

  /** Word w with bit j cleared. */
  function ClearWord(w: bv32, j: bv5): bv32
  {
    w & !(1 << j)
  }

  /** Setting bit a of a word changes bit a only. */
  lemma BitOr(w: bv32, a: bv5, b: bv5)
    ensures Bit(SetWord(w, a), b) <==> a == b || Bit(w, b)
  {
    OrMask(w, a, b);
  }

  /** Clearing bit a of a word changes bit a only. */
  lemma BitAndNot(w: bv32, a: bv5, b: bv5)
    ensures Bit(ClearWord(w, a), b) <==> a != b && Bit(w, b)
  {
    AndNotMask(w, a, b);
  }

  /** Two frames of the same word at the same offset are the same frame. */
  lemma SameFrame(g: nat, h: nat)
    requires g / 32 == h / 32 && g % 32 == h % 32
    ensures g == h
  {
  }

  lemma SetFrameAt(words: seq<bv32>, g: nat, h: nat)
    requires g / 32 < |words|
    ensures Used(words[g / 32 := SetWord(words[g / 32], Off(g))], h) <==> h == g || Used(words, h)
  {
    if h / 32 == g / 32 {
      BitOr(words[g / 32], Off(g), Off(h));
      if Off(g) == Off(h) {
        SameFrame(g, h);
      }
    }
  }

  lemma ClearFrameAt(words: seq<bv32>, g: nat, h: nat)
    requires g / 32 < |words|
    ensures Used(words[g / 32 := ClearWord(words[g / 32], Off(g))], h) <==> h != g && Used(words, h)
  {
    if h / 32 == g / 32 {
      BitAndNot(words[g / 32], Off(g), Off(h));
      if Off(g) == Off(h) {
        SameFrame(g, h);
      }
    }
  }

  /** `set_frame`: the words with exactly frame g additionally marked. */
  function SetFrame(words: seq<bv32>, g: nat): (r: seq<bv32>)
    requires g / 32 < |words|
    ensures |r| == |words|
    ensures forall h: nat :: Used(r, h) <==> h == g || Used(words, h)
  {
    var r := words[g / 32 := SetWord(words[g / 32], Off(g))];
    assert forall h: nat :: Used(r, h) <==> h == g || Used(words, h) by {
      forall h: nat
        ensures Used(r, h) <==> h == g || Used(words, h)
      {
        SetFrameAt(words, g, h);
      }
    }
    r
  }

  /** `clear_frame`: the words with exactly frame g unmarked. */
  function ClearFrame(words: seq<bv32>, g: nat): (r: seq<bv32>)
    requires g / 32 < |words|
    ensures |r| == |words|
    ensures forall h: nat :: Used(r, h) <==> h != g && Used(words, h)
  {
    var r := words[g / 32 := ClearWord(words[g / 32], Off(g))];
    assert forall h: nat :: Used(r, h) <==> h != g && Used(words, h) by {
      forall h: nat
        ensures Used(r, h) <==> h != g && Used(words, h)
      {
        ClearFrameAt(words, g, h);
      }
    }
    r
  }

  /** `frames[idx] |= (0x1 << off)` on the array itself. */
  method SetBit(a: array<bv32>, g: nat)
    requires g / 32 < a.Length
    modifies a
    ensures a[..] == SetFrame(old(a[..]), g)
  {
    a[g / 32] := SetWord(a[g / 32], Off(g));
  }

  /** `frames[idx] &= ~(0x1 << off)` on the array itself. */
  method ClearBit(a: array<bv32>, g: nat)
    requires g / 32 < a.Length
    modifies a
    ensures a[..] == ClearFrame(old(a[..]), g)
  {
    a[g / 32] := ClearWord(a[g / 32], Off(g));
  }

  /**
   * r is what a scan of the first nwords words for a clear frame finds: the
   * lowest clear frame, or -1 when every frame of those words is set.
   */
  predicate IsFirstClear(words: seq<bv32>, nwords: nat, r: int)
  {
    (r == -1 && forall g: nat :: g < nwords * 32 ==> Used(words, g))
    || (0 <= r < nwords * 32 && !Used(words, r) && forall g: nat :: g < r ==> Used(words, g))
  }

  /** At most one result fits the description, so the scan is deterministic. */
  lemma FirstClearUnique(words: seq<bv32>, nwords: nat, r1: int, r2: int)
    requires IsFirstClear(words, nwords, r1) && IsFirstClear(words, nwords, r2)
    ensures r1 == r2
  {
  }

  /** Once frames 0..k-1 are all set, a scan finds nothing below k. */
  lemma FirstClearAbove(words: seq<bv32>, nwords: nat, r: int, k: nat)
    requires IsFirstClear(words, nwords, r)
    requires forall g: nat :: g < k ==> Used(words, g)
    ensures r == -1 || r >= k
  {
  }

  /**
   * `find_free_frame`: scans the first nwords words, skipping full ones,
   * and returns the lowest clear frame, or -1 when all frames of those
   * words are set. Frames past nwords*32 are never considered.
   */
  method FindFirstClear(a: array<bv32>, nwords: nat) returns (r: int)
    requires nwords <= a.Length
    ensures IsFirstClear(a[..], nwords, r)
  {
    var i := 0;
    while i < nwords
      invariant 0 <= i <= nwords
      invariant forall g: nat :: g < i * 32 ==> Used(a[..], g)
    {
      if a[i] != FULL {
        var j := 0;
        while j < 32
          invariant j <= 32
          invariant forall g: nat :: g < i * 32 + j ==> Used(a[..], g)
        {
          UsedAt(a[..], i, j);
          if !BitAt(a[i], j) {
            return i * 32 + j;
          }
          j := j + 1;
        }
      } else {
        forall g: nat | g < (i + 1) * 32
          ensures Used(a[..], g)
        {
          if g >= i * 32 {
            FullWordUsed(a[..], g);
          }
        }
      }
      i := i + 1;
    }
    return -1;
  }

  // ---------------------------------------------------------------------
  // Run search of allocator_alloc (kern/vm/kheap.c)
  // ---------------------------------------------------------------------

  /**
   * The run search as written, word by word: a full word is skipped but the
   * run length l is NOT reset, so a run may straddle a word of used frames.
   * The count is compared with pages only after an increment, so pages == 0
   * never matches. Yields the first frame of the run, or -1.
   */
  function ScanWordAsWritten(words: seq<bv32>, pages: nat, i: nat, l: nat, first: nat): int
    decreases |words| - i, 33
  {
    if i >= |words| then -1
    else if words[i] == FULL then ScanWordAsWritten(words, pages, i + 1, l, first)
    else ScanBitAsWritten(words, pages, i, 0, l, first)
  }

  function ScanBitAsWritten(words: seq<bv32>, pages: nat, i: nat, j: nat, l: nat, first: nat): int
    requires i < |words| && j <= 32
    decreases |words| - i, 32 - j
  {
    if j == 32 then ScanWordAsWritten(words, pages, i + 1, l, first)
    else if !BitAt(words[i], j) then
      var first' := if l == 0 then i * 32 + j else first;
      if l + 1 == pages then first' else ScanBitAsWritten(words, pages, i, j + 1, l + 1, first')
    else ScanBitAsWritten(words, pages, i, j + 1, 0, first)
  }

  /** Set bits j..k-1 of a word are passed over with the run count reset. */
  lemma {:induction false} SkipSetBits(words: seq<bv32>, pages: nat, i: nat, j: nat, k: nat, l: nat, first: nat)
    requires i < |words| && j < k <= 32
    requires forall b: nat :: j <= b < k ==> BitAt(words[i], b)
    ensures ScanBitAsWritten(words, pages, i, j, l, first) == ScanBitAsWritten(words, pages, i, k, 0, first)
    decreases k - j
  {
    if j + 1 < k {
      SkipSetBits(words, pages, i, j + 1, k, 0, first);
    }
  }

  /**
   * Frames 31 and 64 are the only free ones in words 0..2, with word 1 full,
   * yet a search for 2 pages reports frame 31, whose run includes the used
   * frame 32.
   */
  lemma RunStraddlesFullWord()
    ensures ScanWordAsWritten([0x7FFF_FFFF, FULL, 0xFFFF_FFFE], 2, 0, 0, 0) == 31
    ensures Used([0x7FFF_FFFF, FULL, 0xFFFF_FFFE], 32)
    ensures !FreeRun([0x7FFF_FFFF, FULL, 0xFFFF_FFFE], 31, 2)
  {
    var w: seq<bv32> := [0x7FFF_FFFF, FULL, 0xFFFF_FFFE];
    forall b: nat | b < 31
      ensures BitAt(w[0], b)
    {
    }
    SkipSetBits(w, 2, 0, 0, 31, 0, 0);
    assert ScanWordAsWritten(w, 2, 0, 0, 0) == ScanBitAsWritten(w, 2, 0, 0, 0, 0);
    assert !BitAt(w[0], 31);
    assert ScanBitAsWritten(w, 2, 0, 31, 0, 0) == ScanBitAsWritten(w, 2, 0, 32, 1, 31);
    assert ScanBitAsWritten(w, 2, 0, 32, 1, 31) == ScanWordAsWritten(w, 2, 1, 1, 31);
    assert ScanWordAsWritten(w, 2, 1, 1, 31) == ScanWordAsWritten(w, 2, 2, 1, 31);
    assert ScanWordAsWritten(w, 2, 2, 1, 31) == ScanBitAsWritten(w, 2, 2, 0, 1, 31);
    assert !BitAt(w[2], 0);
    FullWordUsed(w, 32);
  }

  // The corrected search is proved on a view of the bitmap as one Boolean
  // per frame, so that its loop reasons about frames rather than bits.

  /** The 32 bits of one word, lowest first. */
  function WordView(w: bv32): (r: seq<bool>)
    ensures |r| == 32
  {
    seq(32, j requires 0 <= j < 32 => BitAt(w, j))
  }

  /** One Boolean per frame, true when the frame is in use. */
  function View(words: seq<bv32>): (r: seq<bool>)
    ensures |r| == |words| * 32
  {
    if |words| == 0 then [] else View(words[..|words| - 1]) + WordView(words[|words| - 1])
  }

  /** The view agrees with the bitmap frame by frame. */
  lemma {:induction false} ViewAt(words: seq<bv32>, g: nat)
    requires g < |words| * 32
    ensures View(words)[g] == Used(words, g)
  {
    var n := |words| - 1;
    if g < n * 32 {
      ViewAt(words[..n], g);
      assert Used(words[..n], g) == Used(words, g);
    } else {
      UsedAt(words, n, g - n * 32);
    }
  }

  /** Frame i*32+j of the view is bit j of word i. */
  lemma ViewBit(words: seq<bv32>, i: nat, j: nat)
    requires i < |words| && j < 32
    ensures View(words)[i * 32 + j] == BitAt(words[i], j)
  {
    UsedAt(words, i, j);
    ViewAt(words, i * 32 + j);
  }

  /** Frames s .. s+n-1 are all in range of the view and clear. */
  predicate ClearRun(bits: seq<bool>, s: nat, n: nat)
  {
    s + n <= |bits| && forall g :: s <= g < s + n ==> !bits[g]
  }

  lemma ClearRunIsFreeRun(words: seq<bv32>, s: nat, n: nat)
    requires s + n <= |words| * 32
    ensures ClearRun(View(words), s, n) <==> FreeRun(words, s, n)
  {
    forall g | s <= g < s + n
      ensures View(words)[g] == Used(words, g)
    {
      ViewAt(words, g);
    }
  }

  /** No run of pages clear frames ends at or before frame g. */
  predicate NoRunBefore(bits: seq<bool>, g: nat, pages: nat)
  {
    pages == 0 || forall s: nat :: s + pages <= g ==> !ClearRun(bits, s, pages)
  }

  /**
   * The scan state after frames 0..g-1: the l frames just below g are clear,
   * the one below them (if any) is used, and no full run has been passed.
   */
  predicate RunState(bits: seq<bool>, g: nat, l: nat, pages: nat)
  {
    l <= g <= |bits| && ClearRun(bits, g - l, l) && (l < g ==> bits[g - l - 1])
    && NoRunBefore(bits, g, pages)
  }

  lemma StepClear(bits: seq<bool>, g: nat, l: nat, pages: nat)
    requires g < |bits| && RunState(bits, g, l, pages) && !bits[g] && (pages == 0 || l + 1 < pages)
    ensures RunState(bits, g + 1, l + 1, pages)
  {
    if pages > 0 {
      forall s: nat | s + pages == g + 1
        ensures !ClearRun(bits, s, pages)
      {
        assert s <= g - l - 1 < g + 1;
      }
    }
  }

  lemma StepUsed(bits: seq<bool>, g: nat, l: nat, pages: nat)
    requires g < |bits| && RunState(bits, g, l, pages) && bits[g]
    ensures RunState(bits, g + 1, 0, pages)
  {
    if pages > 0 {
      forall s: nat | s + pages == g + 1
        ensures !ClearRun(bits, s, pages)
      {
        assert s <= g < s + pages;
      }
    }
  }

  lemma StepFound(bits: seq<bool>, g: nat, l: nat, pages: nat)
    requires g < |bits| && RunState(bits, g, l, pages) && !bits[g] && l + 1 == pages
    ensures ClearRun(bits, g - l, pages)
    ensures forall s: nat :: s < g - l ==> !ClearRun(bits, s, pages)
  {
  }

  lemma StepFullWord(words: seq<bv32>, i: nat, l: nat, pages: nat)
    requires i < |words| && words[i] == FULL && RunState(View(words), i * 32, l, pages)
    ensures RunState(View(words), (i + 1) * 32, 0, pages)
  {
    var bits := View(words);
    forall g: nat | i * 32 <= g < (i + 1) * 32
      ensures bits[g]
    {
      FullWordUsed(words, g);
      ViewAt(words, g);
    }
    if pages > 0 {
      forall s: nat | i * 32 < s + pages <= (i + 1) * 32
        ensures !ClearRun(bits, s, pages)
      {
        assert bits[s + pages - 1];
      }
    }
  }

  /**
   * One word of the corrected run search: frames i*32 .. i*32+31 are
   * examined low bit first, extending or restarting the current run.
   */
  method ScanRunWord(a: array<bv32>, ghost bits: seq<bv32>, i: nat, l0: nat, first0: nat, pages: nat)
    returns (found: bool, l: nat, first: nat)
    requires bits == a[..] && i < a.Length
    requires pages == 0 || l0 < pages
    requires l0 > 0 ==> first0 == i * 32 - l0
    requires RunState(View(bits), i * 32, l0, pages)
    ensures found ==> pages > 0 && ClearRun(View(bits), first, pages) && first + pages <= (i + 1) * 32
    ensures found ==> forall s: nat :: s < first ==> !ClearRun(View(bits), s, pages)
    ensures !found ==> (pages == 0 || l < pages) && (l > 0 ==> first == (i + 1) * 32 - l)
    ensures !found ==> RunState(View(bits), (i + 1) * 32, l, pages)
  {
    ghost var v := View(bits);
    l, first := l0, first0;
    var j: nat := 0;
    ghost var g := i * 32;
    while j < 32
      invariant 0 <= j <= 32 && g == i * 32 + j
      invariant pages == 0 || l < pages
      invariant l > 0 ==> first == g - l
      invariant RunState(v, g, l, pages)
    {
      ViewBit(bits, i, j);
      if !BitAt(a[i], j) {
        if l == 0 {
          first := i * 32 + j;
        }
        if l + 1 == pages {
          StepFound(v, g, l, pages);
          return true, l, first;
        }
        StepClear(v, g, l, pages);
        l := l + 1;
      } else {
        StepUsed(v, g, l, pages);
        l := 0;
      }
      j := j + 1;
      g := g + 1;
    }
    return false, l, first;
  }

  /**
   * The run search with the run count reset on a full word, which is what
   * the search is meant to do: the lowest frame s within the first nwords
   * words such that s .. s+pages-1 are all clear, or -1 when there is none
   * (always for pages == 0, as in the original).
   */
  method FindRun(a: array<bv32>, nwords: nat, pages: nat) returns (r: int)
    requires nwords <= a.Length
    ensures -1 <= r
    ensures pages == 0 ==> r == -1
    ensures r >= 0 ==> r + pages <= nwords * 32 && FreeRun(a[..], r, pages)
    ensures r >= 0 ==> forall s: nat :: s < r ==> !FreeRun(a[..], s, pages)
    ensures r == -1 && pages > 0 ==> forall s: nat :: s + pages <= nwords * 32 ==> !FreeRun(a[..], s, pages)
  {
    ghost var w := a[..];
    var l: nat := 0;
    var first: nat := 0;
    var i := 0;
    while i < nwords
      invariant 0 <= i <= nwords
      invariant pages == 0 || l < pages
      invariant l > 0 ==> first == i * 32 - l
      invariant RunState(View(w), i * 32, l, pages)
    {
      if a[i] != FULL {
        var found;
        found, l, first := ScanRunWord(a, w, i, l, first, pages);
        if found {
          RunsBefore(w, first, pages);
          ClearRunIsFreeRun(w, first, pages);
          return first;
        }
      } else {
        StepFullWord(w, i, l, pages);
        l := 0;
      }
      i := i + 1;
    }
    if pages > 0 {
      RunsBefore(w, nwords * 32 - pages + 1, pages);
    }
    return -1;
  }

  /** Translates "no clear run starts below r" from the view to the bitmap. */
  lemma RunsBefore(words: seq<bv32>, r: int, pages: nat)
    requires r + pages <= |words| * 32 + 1
    requires forall s: nat :: s < r ==> !ClearRun(View(words), s, pages)
    ensures forall s: nat :: s < r ==> !FreeRun(words, s, pages)
  {
    forall s: nat | s < r
      ensures !FreeRun(words, s, pages)
    {
      ClearRunIsFreeRun(words, s, pages);
    }
  }
}
