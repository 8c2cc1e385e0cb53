/**
 * The whole kernel heap of kern/vm/kheap.c as a value: the list of major
 * blocks from `l_memRoot` in list order, the heap page bitmap
 * `heap_frames`, and the heap's page mappings. The invariant ties them
 * together: every major is well formed, no two majors share a frame, and
 * every frame of a major is marked in the bitmap and mapped.
 */
module HeapState {
  import opened Types
  import opened HeapAlign
  import opened HeapLayout
  import opened Bitmap

  /** The bitmap words scanned: `INDEX_FROM_BIT(nframes)`. */
  const NWORDS: nat := NFRAMES / 32

  /** The page mappings the heap made: heap frame number to the physical address mapped there. */
  type PageMap = map<nat, U32>

  /**
   * The heap invariant: each major is well formed and inside the heap
   * range, majors share no frame, and each frame of a major is marked in
   * the bitmap and mapped.
   */
  ghost predicate Inv(ms: seq<Major>, words: seq<bv32>, mapped: PageMap)
  {
    (forall i {:trigger WellFormed(ms[i])} :: 0 <= i < |ms| ==> WellFormed(ms[i]) && ms[i].frame + ms[i].pages <= NFRAMES)
    && (forall i, j {:trigger Apart(ms[i], ms[j])} :: 0 <= i < j < |ms| ==> Apart(ms[i], ms[j]))
    && (forall i, g :: 0 <= i < |ms| && ms[i].frame <= g < ms[i].frame + ms[i].pages ==> Used(words, g) && g in mapped)
  }

  /** No major is kept without records: `lalloc_free` releases a major when its last record goes. */
  ghost predicate NoEmpty(ms: seq<Major>)
  {
    forall i :: 0 <= i < |ms| ==> |ms[i].minors| > 0
  }

  /** `l_bestBet` is NULL or one of the majors on the list. */
  ghost predicate BetOk(ms: seq<Major>, bet: Option<nat>)
  {
    bet.Some? ==> exists i :: 0 <= i < |ms| && ms[i].frame == bet.value
  }

  /** The position on the list of the major that starts at the given frame. */
  function IndexOfFrame(ms: seq<Major>, frame: nat): (i: nat)
    requires exists i :: 0 <= i < |ms| && ms[i].frame == frame
    ensures i < |ms| && ms[i].frame == frame
  {
    if ms[|ms| - 1].frame == frame then |ms| - 1 else IndexOfFrame(ms[..|ms| - 1], frame)
  }

  // Totals kept by `kernel_heap->size`, `l_allocated` and `l_inuse`

  function PagesOf(m: Major): nat { m.pages }
  function SizeOf(m: Major): nat { m.size }
  function InUseOf(m: Major): nat { Weight(m.minors, 0) }

  /** The sum of f over the majors. */
  function Total(ms: seq<Major>, f: Major -> nat): nat
  {
    if |ms| == 0 then 0 else Total(ms[..|ms| - 1], f) + f(ms[|ms| - 1])
  }

  lemma {:induction false} TotalUpdate(ms: seq<Major>, i: nat, m: Major, f: Major -> nat)
    requires i < |ms|
    ensures Total(ms[i := m], f) + f(ms[i]) == Total(ms, f) + f(m)
  {
    var n := |ms| - 1;
    if i < n {
      assert ms[i := m][..n] == ms[..n][i := m];
      TotalUpdate(ms[..n], i, m, f);
    } else {
      assert ms[i := m][..n] == ms[..n];
    }
  }

  lemma TotalAppend(ms: seq<Major>, m: Major, f: Major -> nat)
    ensures Total(ms + [m], f) == Total(ms, f) + f(m)
  {
    assert (ms + [m])[..|ms|] == ms;
  }

  lemma {:induction false} TotalDelete(ms: seq<Major>, i: nat, f: Major -> nat)
    requires i < |ms|
    ensures Total(ms[..i] + ms[i + 1..], f) + f(ms[i]) == Total(ms, f)
  {
    var n := |ms| - 1;
    if i == n {
      assert ms[..i] + ms[i + 1..] == ms[..n];
    } else {
      var r := ms[..i] + ms[i + 1..];
      assert r[..|r| - 1] == ms[..n][..i] + ms[..n][i + 1..];
      assert r[|r| - 1] == ms[n];
      TotalDelete(ms[..n], i, f);
    }
  }

  // Finding the record of a pointer

  /** The position of the record with user pointer p in m, searching from k, or -1. */
  function FindMinor(m: Major, p: nat, k: nat): (r: int)
    requires k <= |m.minors|
    ensures r == -1 ==> forall j :: k <= j < |m.minors| ==> Ptr(m, j) != p
    ensures r != -1 ==> k <= r < |m.minors| && Ptr(m, r) == p
    decreases |m.minors| - k
  {
    if k == |m.minors| then -1 else if Ptr(m, k) == p then k else FindMinor(m, p, k + 1)
  }

  /**
   * The major and record behind user pointer p, or None. The allocator
   * reaches the record directly, by `UNALIGN` and the record's `block`
   * field; the model finds it by this search.
   */
  function Locate(ms: seq<Major>, p: nat): (r: Option<(nat, nat)>)
    ensures r.None? ==> p !in LiveAll(ms)
    ensures r.Some? ==> r.value.0 < |ms| && r.value.1 < |ms[r.value.0].minors|
    ensures r.Some? ==> Ptr(ms[r.value.0], r.value.1) == p && p in LiveAll(ms)
  {
    if |ms| == 0 then None
    else
      var n := |ms| - 1;
      var k := FindMinor(ms[n], p, 0);
      if k >= 0 then
        assert p in LiveOf(ms[n]) by {
          assert ms[n].minors[k] in ms[n].minors;
        }
        Some((n, k))
      else
        NotInMajor(ms[n], p);
        var r := Locate(ms[..n], p);
        LiveAllPrefix(ms, p);
        if r.Some? then
          assert ms[..n][r.value.0] == ms[r.value.0];
          Some(r.value)
        else
          None
  }

  lemma NotInMajor(m: Major, p: nat)
    requires forall j :: 0 <= j < |m.minors| ==> Ptr(m, j) != p
    ensures p !in LiveOf(m)
  {
    forall x | x in m.minors
      ensures PtrOf(Base(m), x) != p
    {
      var j :| 0 <= j < |m.minors| && m.minors[j] == x;
      assert Ptr(m, j) != p;
    }
  }

  /** The heap's pointers are those of the majors but the last, and the last one's. */
  lemma LiveAllPrefix(ms: seq<Major>, p: nat)
    requires |ms| > 0
    ensures p in LiveAll(ms) <==> p in LiveAll(ms[..|ms| - 1]) || p in LiveOf(ms[|ms| - 1])
  {
    var n := |ms| - 1;
    if p in LiveAll(ms) {
      var j :| 0 <= j < |ms| && p in LiveOf(ms[j]);
      if j < n {
        assert p in LiveOf(ms[..n][j]);
      }
    }
    if p in LiveAll(ms[..n]) {
      var j :| 0 <= j < n && p in LiveOf(ms[..n][j]);
      assert p in LiveOf(ms[j]);
    }
  }

  /** The `req_size` recorded for a live pointer. */
  ghost function ReqOf(ms: seq<Major>, p: nat): nat
    requires p in LiveAll(ms)
  {
    var r := Locate(ms, p);
    ms[r.value.0].minors[r.value.1].reqSize
  }

  // Transitions of the invariant

  /** The record at (i, k) is the one its pointer reports. */
  lemma ReqAt(ms: seq<Major>, i: nat, k: nat, words: seq<bv32>, mapped: PageMap)
    requires Inv(ms, words, mapped) && i < |ms| && k < |ms[i].minors|
    ensures Ptr(ms[i], k) in LiveAll(ms) && ReqOf(ms, Ptr(ms[i], k)) == ms[i].minors[k].reqSize
  {
    LocateUnique(ms, i, k, words, mapped);
  }

  /** Unlinking the record at (i, k) leaves every other pointer live, with its `req_size`. */
  lemma ReqKeptRemove(ms: seq<Major>, i: nat, k: nat, y: nat, words: seq<bv32>, mapped: PageMap)
    requires Inv(ms, words, mapped) && i < |ms| && k < |ms[i].minors|
    requires y in LiveAll(ms) && y != Ptr(ms[i], k)
    ensures y in LiveAll(ms[i := Remove(ms[i], k)])
    ensures ReqOf(ms[i := Remove(ms[i], k)], y) == ReqOf(ms, y)
  {
    var m := Remove(ms[i], k);
    var ms' := ms[i := m];
    RemoveWellFormed(ms[i], k);
    InvUpdate(ms, i, m, words, mapped);
    var at := Locate(ms, y).value;
    var a, b := at.0, at.1;
    assert y == Ptr(ms[a], b) && ReqOf(ms, y) == ms[a].minors[b].reqSize;
    if a != i {
      assert ms'[a] == ms[a];
      ReqAt(ms', a, b, words, mapped);
    } else {
      assert b != k;
      var b' := if b < k then b else b - 1;
      assert m.minors[b'] == ms[i].minors[b] && Base(m) == Base(ms[i]);
      assert Ptr(m, b') == y;
      ReqAt(ms', i, b', words, mapped);
    }
  }

  /** Unlinking a major without records leaves every pointer with its `req_size`. */
  lemma ReqKeptDelete(ms: seq<Major>, i: nat, y: nat, words: seq<bv32>, words': seq<bv32>, mapped: PageMap)
    requires Inv(ms, words, mapped) && i < |ms| && |ms[i].minors| == 0
    requires forall h: nat :: Used(words', h) <==> Used(words, h) && !(ms[i].frame <= h < ms[i].frame + ms[i].pages)
    requires y in LiveAll(ms)
    ensures y in LiveAll(ms[..i] + ms[i + 1..])
    ensures ReqOf(ms[..i] + ms[i + 1..], y) == ReqOf(ms, y)
  {
    var ms' := ms[..i] + ms[i + 1..];
    InvDelete(ms, i, words, words', mapped);
    var at := Locate(ms, y).value;
    var a, b := at.0, at.1;
    assert y == Ptr(ms[a], b) && ReqOf(ms, y) == ms[a].minors[b].reqSize;
    var a' := if a < i then a else a - 1;
    assert ms'[a'] == ms[a];
    ReqAt(ms', a', b, words', mapped);
  }

  /** `ReqKeptRemove` for all the other pointers at once. */
  lemma ReqsKeptRemove(ms: seq<Major>, i: nat, k: nat, words: seq<bv32>, mapped: PageMap)
    requires Inv(ms, words, mapped) && i < |ms| && k < |ms[i].minors|
    ensures forall y :: y in LiveAll(ms) && y != Ptr(ms[i], k) ==>
              y in LiveAll(ms[i := Remove(ms[i], k)]) && ReqOf(ms[i := Remove(ms[i], k)], y) == ReqOf(ms, y)
  {
    forall y | y in LiveAll(ms) && y != Ptr(ms[i], k)
      ensures y in LiveAll(ms[i := Remove(ms[i], k)]) && ReqOf(ms[i := Remove(ms[i], k)], y) == ReqOf(ms, y)
    {
      ReqKeptRemove(ms, i, k, y, words, mapped);
    }
  }

  /** `ReqKeptDelete` for all pointers at once. */
  lemma ReqsKeptDelete(ms: seq<Major>, i: nat, words: seq<bv32>, words': seq<bv32>, mapped: PageMap)
    requires Inv(ms, words, mapped) && i < |ms| && |ms[i].minors| == 0
    requires forall h: nat :: Used(words', h) <==> Used(words, h) && !(ms[i].frame <= h < ms[i].frame + ms[i].pages)
    ensures forall y :: y in LiveAll(ms) ==> y in LiveAll(ms[..i] + ms[i + 1..]) && ReqOf(ms[..i] + ms[i + 1..], y) == ReqOf(ms, y)
  {
    forall y | y in LiveAll(ms)
      ensures y in LiveAll(ms[..i] + ms[i + 1..]) && ReqOf(ms[..i] + ms[i + 1..], y) == ReqOf(ms, y)
    {
      ReqKeptDelete(ms, i, y, words, words', mapped);
    }
  }

  /** A major replaced by one with the same frames, well formed, keeps the invariant. */
  lemma InvUpdate(ms: seq<Major>, i: nat, m: Major, words: seq<bv32>, mapped: PageMap)
    requires Inv(ms, words, mapped) && i < |ms|
    requires m.frame == ms[i].frame && m.pages == ms[i].pages && WellFormed(m)
    ensures Inv(ms[i := m], words, mapped)
  {
    var ms' := ms[i := m];
    forall a | 0 <= a < |ms'|
      ensures WellFormed(ms'[a]) && ms'[a].frame + ms'[a].pages <= NFRAMES
    {
      assert WellFormed(ms[a]);
    }
    forall a, b | 0 <= a < b < |ms'|
      ensures Apart(ms'[a], ms'[b])
    {
      assert Apart(ms[a], ms[b]);
    }
    forall a, g | 0 <= a < |ms'| && ms'[a].frame <= g < ms'[a].frame + ms'[a].pages
      ensures Used(words, g) && g in mapped
    {
      assert ms[a].frame <= g < ms[a].frame + ms[a].pages;
    }
  }

  /** Frames s .. s+n-1, which were clear, are now marked and mapped, and nothing else changed: the new major may join. */
  lemma InvAppend(ms: seq<Major>, m: Major, words: seq<bv32>, words': seq<bv32>, mapped: PageMap, mapped': PageMap)
    requires Inv(ms, words, mapped) && WellFormed(m) && m.frame + m.pages <= NFRAMES
    requires FreeRun(words, m.frame, m.pages)
    requires forall h: nat :: Used(words', h) <==> Used(words, h) || m.frame <= h < m.frame + m.pages
    requires forall g :: g in mapped ==> g in mapped'
    requires forall g :: m.frame <= g < m.frame + m.pages ==> g in mapped'
    ensures Inv(ms + [m], words', mapped')
  {
    var ms' := ms + [m];
    forall a | 0 <= a < |ms'|
      ensures WellFormed(ms'[a]) && ms'[a].frame + ms'[a].pages <= NFRAMES
    {
      if a < |ms| {
        assert WellFormed(ms[a]);
      }
    }
    forall a, b | 0 <= a < b < |ms'|
      ensures Apart(ms'[a], ms'[b])
    {
      if b == |ms| {
        assert WellFormed(ms[a]);
        ApartFromFree(ms[a], m, words);
      } else {
        assert Apart(ms[a], ms[b]);
      }
    }
    forall a, g | 0 <= a < |ms'| && ms'[a].frame <= g < ms'[a].frame + ms'[a].pages
      ensures Used(words', g) && g in mapped'
    {
      if a < |ms| {
        assert ms[a].frame <= g < ms[a].frame + ms[a].pages;
      }
    }
  }

  /** A major whose frames are all marked lies apart from one whose frames are all clear. */
  lemma ApartFromFree(e: Major, m: Major, words: seq<bv32>)
    requires WellFormed(e) && WellFormed(m) && FreeRun(words, m.frame, m.pages)
    requires forall g :: e.frame <= g < e.frame + e.pages ==> Used(words, g)
    ensures Apart(e, m)
  {
    var g := if e.frame < m.frame then m.frame else e.frame;
    assert e.frame <= g < e.frame + e.pages ==> Used(words, g);
    assert m.frame <= g < m.frame + m.pages ==> !Used(words, g);
  }

  /** Major i unlinked and its frames cleared: the rest keep the invariant. */
  lemma InvDelete(ms: seq<Major>, i: nat, words: seq<bv32>, words': seq<bv32>, mapped: PageMap)
    requires Inv(ms, words, mapped) && i < |ms|
    requires forall h: nat :: Used(words', h) <==> Used(words, h) && !(ms[i].frame <= h < ms[i].frame + ms[i].pages)
    ensures Inv(ms[..i] + ms[i + 1..], words', mapped)
  {
    var ms' := ms[..i] + ms[i + 1..];
    forall a | 0 <= a < |ms'|
      ensures ms'[a] == ms[Skip(a, i)]
    {
    }
    forall a | 0 <= a < |ms'|
      ensures WellFormed(ms'[a]) && ms'[a].frame + ms'[a].pages <= NFRAMES
    {
      assert WellFormed(ms[Skip(a, i)]);
    }
    forall a, b | 0 <= a < b < |ms'|
      ensures Apart(ms'[a], ms'[b])
    {
      assert Apart(ms[Skip(a, i)], ms[Skip(b, i)]);
    }
    forall a | 0 <= a < |ms'|
      ensures forall g :: ms'[a].frame <= g < ms'[a].frame + ms'[a].pages ==> Used(words', g) && g in mapped
    {
      KeptFrames(ms, i, Skip(a, i), words, words', mapped);
    }
  }

  /** The position in the old list of entry a after entry i is unlinked. */
  function Skip(a: nat, i: nat): nat
  {
    if a < i then a else a + 1
  }

  /** The frames of a major other than the unlinked one i stay marked and mapped. */
  lemma KeptFrames(ms: seq<Major>, i: nat, a: nat, words: seq<bv32>, words': seq<bv32>, mapped: PageMap)
    requires Inv(ms, words, mapped) && i < |ms| && a < |ms| && a != i
    requires forall h: nat :: Used(words', h) <==> Used(words, h) && !(ms[i].frame <= h < ms[i].frame + ms[i].pages)
    ensures forall g :: ms[a].frame <= g < ms[a].frame + ms[a].pages ==> Used(words', g) && g in mapped
  {
    assert Apart(ms[a], ms[i]) by {
      if a < i {
        assert Apart(ms[a], ms[i]);
      } else {
        assert Apart(ms[i], ms[a]);
      }
    }
  }

  /** A pointer of major i belongs to no other major. */
  lemma PtrOwned(ms: seq<Major>, i: nat, y: nat, words: seq<bv32>, mapped: PageMap)
    requires Inv(ms, words, mapped) && i < |ms| && y in LiveOf(ms[i])
    ensures forall j :: 0 <= j < |ms| && j != i ==> y !in LiveOf(ms[j])
  {
    forall j | 0 <= j < |ms| && j != i
      ensures y !in LiveOf(ms[j])
    {
      if j < i {
        assert Apart(ms[j], ms[i]);
      } else {
        assert Apart(ms[i], ms[j]);
      }
      ApartPtrs(ms[i], ms[j], y);
    }
  }

  /** A pointer of the heap is found at its own position: the search cannot stop at another record. */
  lemma LocateUnique(ms: seq<Major>, i: nat, k: nat, words: seq<bv32>, mapped: PageMap)
    requires Inv(ms, words, mapped) && i < |ms| && k < |ms[i].minors|
    ensures Locate(ms, Ptr(ms[i], k)) == Some((i, k))
  {
    var p := Ptr(ms[i], k);
    assert ms[i].minors[k] in ms[i].minors;
    assert p in LiveOf(ms[i]);
    assert p in LiveAll(ms);
    var r := Locate(ms, p);
    PtrOwned(ms, i, p, words, mapped);
    var i', k' := r.value.0, r.value.1;
    assert ms[i'].minors[k'] in ms[i'].minors;
    assert p in LiveOf(ms[i']);
    PtrDistinct(ms[i]);
  }

  /** Every pointer of the heap lies inside the heap's address range, so none is 0 and all fit in 32 bits. */
  lemma LiveAllInHeap(ms: seq<Major>, words: seq<bv32>, mapped: PageMap)
    requires Inv(ms, words, mapped)
    ensures forall y :: y in LiveAll(ms) ==> HEAP_START + 64 <= y < HEAP_START + NFRAMES * PAGE_SIZE + RESERVE
  {
    forall y | y in LiveAll(ms)
      ensures HEAP_START + 64 <= y < HEAP_START + NFRAMES * PAGE_SIZE + RESERVE
    {
      var j :| 0 <= j < |ms| && y in LiveOf(ms[j]);
      LiveSpan(ms[j], y);
    }
  }

  // Search outcomes

  /** `lalloc_malloc` passes over a major that lacks the free bytes or any gap of `need` bytes. */
  predicate NoFit(m: Major, need: nat)
  {
    FreeBytes(m) < need || FirstFit(m, need) == -1
  }

  predicate AllNoFit(ms: seq<Major>, need: nat)
  {
    forall j {:trigger NoFit(ms[j], need)} :: 0 <= j < |ms| ==> NoFit(ms[j], need)
  }

  /** No run of `pages` clear frames in the heap bitmap. */
  predicate NoRun(words: seq<bv32>, pages: nat)
  {
    forall t: nat :: t + pages <= NFRAMES ==> !FreeRun(words, t, pages)
  }

  // Steps of the invariant for each change of the major list

  /** A record placed in gap k of major i: the invariant holds and `l_inuse` grows by its size. */
  lemma PlaceStep(ms: seq<Major>, i: nat, k: nat, size: nat, req: nat, words: seq<bv32>, mapped: PageMap)
    requires Inv(ms, words, mapped) && i < |ms| && k <= |ms[i].minors| && Room(ms[i], k, size + MINOR_HEADER)
    ensures var ms' := ms[i := Place(ms[i], k, size, req)];
      Inv(ms', words, mapped)
      && Total(ms', PagesOf) == Total(ms, PagesOf) && Total(ms', SizeOf) == Total(ms, SizeOf)
      && Total(ms', InUseOf) == Total(ms, InUseOf) + size
  {
    var m := ms[i];
    var m' := Place(m, k, size, req);
    PlaceWellFormed(m, k, size, req);
    InvUpdate(ms, i, m', words, mapped);
    TotalUpdate(ms, i, m', PagesOf);
    TotalUpdate(ms, i, m', SizeOf);
    TotalUpdate(ms, i, m', InUseOf);
    WeightInsert(m.minors, k, NewMinor(m, k, size, req), 0);
  }

  /** The placed record's pointer is aligned, was not in use, is the one pointer added, and reports `req`. */
  lemma PlacePtr(ms: seq<Major>, i: nat, k: nat, size: nat, req: nat, words: seq<bv32>, mapped: PageMap)
    requires Inv(ms, words, mapped) && i < |ms| && k <= |ms[i].minors| && Room(ms[i], k, size + MINOR_HEADER)
    requires Inv(ms[i := Place(ms[i], k, size, req)], words, mapped)
    ensures var ms' := ms[i := Place(ms[i], k, size, req)];
      Ptr(ms'[i], k) !in LiveAll(ms) && LiveAll(ms') == LiveAll(ms) + {Ptr(ms'[i], k)}
      && ReqOf(ms', Ptr(ms'[i], k)) == req
      && Ptr(ms'[i], k) % ALIGNMENT == 0 && Ptr(ms'[i], k) < WORD_MOD
  {
    var m := ms[i];
    var m' := Place(m, k, size, req);
    var ms' := ms[i := m'];
    LivePlace(m, k, size, req);
    var p := Ptr(m', k);
    assert p == PtrOf(Base(m), NewMinor(m, k, size, req));
    LiveAllAdd(ms, i, m', p);
    PtrOwned(ms', i, p, words, mapped);
    assert forall j :: 0 <= j < |ms| && j != i ==> ms'[j] == ms[j];
    LocateUnique(ms', i, k, words, mapped);
    LiveAllInHeap(ms', words, mapped);
  }

  /** Record k of major i unlinked: the invariant holds, `l_inuse` shrinks by its size, and its pointer is gone. */
  lemma RemoveStep(ms: seq<Major>, i: nat, k: nat, words: seq<bv32>, mapped: PageMap)
    requires Inv(ms, words, mapped) && i < |ms| && k < |ms[i].minors|
    ensures var ms' := ms[i := Remove(ms[i], k)];
      Inv(ms', words, mapped)
      && Total(ms', PagesOf) == Total(ms, PagesOf) && Total(ms', SizeOf) == Total(ms, SizeOf)
      && Total(ms', InUseOf) + ms[i].minors[k].size == Total(ms, InUseOf)
      && LiveAll(ms') == LiveAll(ms) - {Ptr(ms[i], k)}
  {
    var m := ms[i];
    var m' := Remove(m, k);
    RemoveWellFormed(m, k);
    InvUpdate(ms, i, m', words, mapped);
    TotalUpdate(ms, i, m', PagesOf);
    TotalUpdate(ms, i, m', SizeOf);
    TotalUpdate(ms, i, m', InUseOf);
    WeightDelete(m.minors, k, 0);
    LiveRemove(m, k);
    assert m.minors[k] in m.minors;
    PtrOwned(ms, i, Ptr(m, k), words, mapped);
    LiveAllDrop(ms, i, m', Ptr(m, k));
  }

  /** An empty major unlinked and its frames cleared: the invariant holds, the totals lose its pages and bytes, no pointer changes. */
  lemma DeleteStep(ms: seq<Major>, i: nat, words: seq<bv32>, words': seq<bv32>, mapped: PageMap)
    requires Inv(ms, words, mapped) && i < |ms| && |ms[i].minors| == 0
    requires forall h: nat :: Used(words', h) <==> Used(words, h) && !(ms[i].frame <= h < ms[i].frame + ms[i].pages)
    ensures var ms' := ms[..i] + ms[i + 1..];
      Inv(ms', words', mapped)
      && Total(ms', PagesOf) + ms[i].pages == Total(ms, PagesOf)
      && Total(ms', SizeOf) + ms[i].size == Total(ms, SizeOf)
      && Total(ms', InUseOf) == Total(ms, InUseOf)
      && LiveAll(ms') == LiveAll(ms)
  {
    InvDelete(ms, i, words, words', mapped);
    TotalDelete(ms, i, PagesOf);
    TotalDelete(ms, i, SizeOf);
    TotalDelete(ms, i, InUseOf);
    LiveAllRemoveEmpty(ms, i);
  }

  /** A new empty major joins the end of the list: totals grow by its pages and bytes, no pointer changes. */
  lemma AppendStep(ms: seq<Major>, m: Major)
    requires |m.minors| == 0
    ensures Total(ms + [m], PagesOf) == Total(ms, PagesOf) + m.pages
    ensures Total(ms + [m], SizeOf) == Total(ms, SizeOf) + m.size
    ensures Total(ms + [m], InUseOf) == Total(ms, InUseOf)
    ensures LiveAll(ms + [m]) == LiveAll(ms)
  {
    TotalAppend(ms, m, PagesOf);
    TotalAppend(ms, m, SizeOf);
    TotalAppend(ms, m, InUseOf);
    LiveAllAppendEmpty(ms, m);
  }

  /** Record k of major i given `req_size` r: the invariant, totals and pointers hold. */
  lemma SetReqStep(ms: seq<Major>, i: nat, k: nat, r: nat, words: seq<bv32>, mapped: PageMap)
    requires Inv(ms, words, mapped) && i < |ms| && k < |ms[i].minors|
    ensures var ms' := ms[i := SetReq(ms[i], k, r)];
      Inv(ms', words, mapped)
      && Total(ms', PagesOf) == Total(ms, PagesOf) && Total(ms', SizeOf) == Total(ms, SizeOf)
      && Total(ms', InUseOf) == Total(ms, InUseOf)
      && LiveAll(ms') == LiveAll(ms)
  {
    var m := ms[i];
    var m' := SetReq(m, k, r);
    SetReqWellFormed(m, k, r);
    SetReqPtrs(m, k, r);
    InvUpdate(ms, i, m', words, mapped);
    TotalUpdate(ms, i, m', PagesOf);
    TotalUpdate(ms, i, m', SizeOf);
    TotalUpdate(ms, i, m', InUseOf);
    LiveAllSame(ms, i, m');
  }

  /** After the change, the record's pointer is the same and reports r. */
  lemma SetReqPtr(ms: seq<Major>, i: nat, k: nat, r: nat, words: seq<bv32>, mapped: PageMap)
    requires i < |ms| && k < |ms[i].minors| && Inv(ms[i := SetReq(ms[i], k, r)], words, mapped)
    ensures Ptr(ms[i := SetReq(ms[i], k, r)][i], k) == Ptr(ms[i], k)
    ensures Ptr(ms[i], k) in LiveAll(ms[i := SetReq(ms[i], k, r)])
    ensures ReqOf(ms[i := SetReq(ms[i], k, r)], Ptr(ms[i], k)) == r
  {
    SetReqPtrs(ms[i], k, r);
    LocateUnique(ms[i := SetReq(ms[i], k, r)], i, k, words, mapped);
  }

  /** Replacing a major by one with the same pointers keeps the heap's pointers. */
  lemma LiveAllSame(ms: seq<Major>, i: nat, m: Major)
    requires i < |ms| && LiveOf(m) == LiveOf(ms[i])
    ensures LiveAll(ms[i := m]) == LiveAll(ms)
  {
    var ms' := ms[i := m];
    forall z | z in LiveAll(ms')
      ensures z in LiveAll(ms)
    {
      var j :| 0 <= j < |ms'| && z in LiveOf(ms'[j]);
      assert z in LiveOf(ms[j]);
    }
    forall z | z in LiveAll(ms)
      ensures z in LiveAll(ms')
    {
      var j :| 0 <= j < |ms| && z in LiveOf(ms[j]);
      assert z in LiveOf(ms'[j]);
    }
  }

  // `l_bestBet` through the changes

  lemma BetOkUpdate(ms: seq<Major>, i: nat, m: Major, bet: Option<nat>)
    requires BetOk(ms, bet) && i < |ms| && m.frame == ms[i].frame
    ensures BetOk(ms[i := m], bet)
  {
    if bet.Some? {
      var j :| 0 <= j < |ms| && ms[j].frame == bet.value;
      assert ms[i := m][j].frame == bet.value;
    }
  }

  lemma BetOkAppend(ms: seq<Major>, m: Major, bet: Option<nat>)
    requires BetOk(ms, bet)
    ensures BetOk(ms + [m], bet)
  {
    if bet.Some? {
      var j :| 0 <= j < |ms| && ms[j].frame == bet.value;
      assert (ms + [m])[j].frame == bet.value;
    }
  }

  /** A major other than the best bet leaves the list: the best bet is still on it. */
  lemma BetOkDelete(ms: seq<Major>, i: nat, bet: Option<nat>)
    requires BetOk(ms, bet) && i < |ms| && bet != Some(ms[i].frame)
    ensures BetOk(ms[..i] + ms[i + 1..], bet)
  {
    if bet.Some? {
      var j :| 0 <= j < |ms| && ms[j].frame == bet.value;
      var ms' := ms[..i] + ms[i + 1..];
      if j < i {
        assert ms'[j].frame == bet.value;
      } else {
        assert ms'[j - 1].frame == bet.value;
      }
    }
  }
}
