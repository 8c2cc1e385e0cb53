/**
 * The block structure of the kernel heap in kern/vm/kheap.c, as values.
 * A major block is a run of heap pages that starts with a 24-byte header;
 * the minor records inside it, each a 24-byte header followed by its
 * payload, form a list in increasing address order. The model keeps a
 * major's minors as a sequence in list order and each minor's offset from
 * the major's address. Every minor on a list carries the `MEMB` tag; the
 * tag is therefore not stored.
 */
module HeapLayout {
  import opened Types
  import opened HeapAlign

  /** The heap's first virtual address, `kernel_heap->start_address`. */
  const HEAP_START: nat := 0xE000_0000
  /** `nframes`: 0x10000000 bytes of heap in 4096-byte frames. */
  const NFRAMES: nat := 0x1_0000

  /** One `allocator_minor`: where it starts in its major, its reserved `size` and the `req_size` asked for. */
  datatype Minor = Minor(offset: nat, size: nat, reqSize: nat)

  /** One `allocator_major`, identified by its first heap frame, with its minors in list order. */
  datatype Major = Major(frame: nat, pages: nat, size: nat, usage: int, minors: seq<Minor>)

  /** The address of a major block: heap start plus its first frame. */
  function Base(m: Major): nat
  {
    HEAP_START + m.frame * PAGE_SIZE
  }

  /** The first byte after a minor's payload, as an offset in its major. */
  function End(x: Minor): nat
  {
    x.offset + MINOR_HEADER + x.size
  }

  /** Each minor lies between the major header and the major's end, and follows the previous one without overlap. */
  predicate Ordered(ms: seq<Minor>, size: nat)
  {
    (forall k :: 0 <= k < |ms| ==> MAJOR_HEADER <= ms[k].offset && End(ms[k]) <= size)
    && (forall k :: 0 < k < |ms| ==> End(ms[k - 1]) <= ms[k].offset)
  }

  /** The bytes the minors take, counting `header` bytes for each besides its size. */
  function Weight(ms: seq<Minor>, header: nat): nat
  {
    if |ms| == 0 then 0 else header + ms[0].size + Weight(ms[1..], header)
  }

  /**
   * The invariant of a major: it has at least 16 pages, its size is its page count in bytes, its
   * minors are in address order without overlap, and `usage` counts the
   * major header and every minor with its header.
   */
  predicate WellFormed(m: Major)
  {
    m.pages >= PAGE_COUNT && m.size == m.pages * PAGE_SIZE
    && Ordered(m.minors, m.size)
    && m.usage == MAJOR_HEADER + Weight(m.minors, MINOR_HEADER)
  }

  lemma {:induction false} WeightAppend(a: seq<Minor>, b: seq<Minor>, h: nat)
    ensures Weight(a + b, h) == Weight(a, h) + Weight(b, h)
  {
    if |a| > 0 {
      assert (a + b)[1..] == a[1..] + b;
      WeightAppend(a[1..], b, h);
    } else {
      assert a + b == b;
    }
  }

  /** Earlier minors end before later ones begin, however far apart. */
  lemma {:induction false} OrderedApart(ms: seq<Minor>, size: nat, j: nat, k: nat)
    requires Ordered(ms, size) && j < k < |ms|
    ensures End(ms[j]) <= ms[k].offset
    decreases k - j
  {
    if j + 1 < k {
      OrderedApart(ms, size, j + 1, k);
    }
  }

  /** Minors that follow each other without overlap from offset lo on take at most the bytes up to the last one's end. */
  lemma {:induction false} WeightBound(ms: seq<Minor>, size: nat, lo: nat)
    requires Ordered(ms, size) && |ms| > 0 && lo <= ms[0].offset
    ensures Weight(ms, MINOR_HEADER) + lo <= End(ms[|ms| - 1])
  {
    if |ms| == 1 {
      assert ms[1..] == [];
    } else {
      var rest := ms[1..];
      assert Ordered(rest, size) by {
        forall k | 0 < k < |rest|
          ensures End(rest[k - 1]) <= rest[k].offset
        {
          assert rest[k - 1] == ms[k] && rest[k] == ms[k + 1];
        }
      }
      WeightBound(rest, size, End(ms[0]));
    }
  }

  /** A well-formed major never uses more than its size. */
  lemma UsageWithin(m: Major)
    requires WellFormed(m)
    ensures m.usage <= m.size
  {
    if |m.minors| > 0 {
      WeightBound(m.minors, m.size, MAJOR_HEADER);
    }
  }

  /** The free bytes of a major, `maj->size - maj->usage`. */
  function FreeBytes(m: Major): int
  {
    m.size - m.usage
  }

  /** Where gap k starts: after the major header for k = 0, otherwise after minor k-1. */
  function GapStart(m: Major, k: nat): nat
    requires k <= |m.minors|
  {
    if k == 0 then MAJOR_HEADER else End(m.minors[k - 1])
  }

  /** Where gap k ends: at minor k, or at the major's end after the last minor. */
  function GapEnd(m: Major, k: nat): nat
    requires k <= |m.minors|
  {
    if k == |m.minors| then m.size else m.minors[k].offset
  }

  /** Gap k holds a record needing `need` bytes, header included. */
  predicate Room(m: Major, k: nat, need: nat)
    requires k <= |m.minors|
  {
    GapStart(m, k) + need <= GapEnd(m, k)
  }

  /** The lowest gap at or after k with room for `need` bytes, or -1. */
  function FirstFitFrom(m: Major, need: nat, k: nat): (r: int)
    requires k <= |m.minors| + 1
    ensures r == -1 || (k <= r <= |m.minors| && Room(m, r, need))
    ensures forall j :: k <= j <= |m.minors| && (r == -1 || j < r) ==> !Room(m, j, need)
    decreases |m.minors| + 1 - k
  {
    if k > |m.minors| then -1
    else if Room(m, k, need) then k
    else FirstFitFrom(m, need, k + 1)
  }

  /** First fit: the lowest gap in address order with room for `need` bytes, or -1. */
  function FirstFit(m: Major, need: nat): int
  {
    FirstFitFrom(m, need, 0)
  }

  /** A major with no minors is one gap, from its header to its end. */
  lemma EmptyFirstFit(m: Major, need: nat)
    requires |m.minors| == 0 && MAJOR_HEADER + need <= m.size
    ensures FirstFit(m, need) == 0
  {
  }

  /** The sequence with x inserted at position k. */
  function Insert(s: seq<Minor>, k: nat, x: Minor): (r: seq<Minor>)
    requires k <= |s|
    ensures |r| == |s| + 1 && r[k] == x
    ensures forall j :: 0 <= j < k ==> r[j] == s[j]
    ensures forall j :: k < j < |r| ==> r[j] == s[j - 1]
  {
    s[..k] + [x] + s[k..]
  }

  /** The sequence without its element at position k. */
  function Delete(s: seq<Minor>, k: nat): (r: seq<Minor>)
    requires k < |s|
    ensures |r| == |s| - 1
    ensures forall j :: 0 <= j < k ==> r[j] == s[j]
    ensures forall j :: k <= j < |r| ==> r[j] == s[j + 1]
  {
    s[..k] + s[k + 1..]
  }

  lemma WeightInsert(s: seq<Minor>, k: nat, x: Minor, h: nat)
    requires k <= |s|
    ensures Weight(Insert(s, k, x), h) == Weight(s, h) + h + x.size
  {
    var a, b := s[..k], s[k..];
    assert s == a + b;
    WeightAppend(a, b, h);
    WeightAppend(a + [x], b, h);
    WeightAppend(a, [x], h);
    assert [x][1..] == [];
  }

  lemma WeightDelete(s: seq<Minor>, k: nat, h: nat)
    requires k < |s|
    ensures Weight(Delete(s, k), h) + h + s[k].size == Weight(s, h)
  {
    var a, b := s[..k], s[k + 1..];
    assert s == a + [s[k]] + b;
    WeightAppend(a + [s[k]], b, h);
    WeightAppend(a, [s[k]], h);
    WeightAppend(a, b, h);
    assert [s[k]][1..] == [];
  }

  /** A record that fits between its neighbours keeps the order when inserted. */
  lemma OrderedInsert(s: seq<Minor>, size: nat, k: nat, x: Minor)
    requires Ordered(s, size) && k <= |s|
    requires MAJOR_HEADER <= x.offset && End(x) <= size
    requires k > 0 ==> End(s[k - 1]) <= x.offset
    requires k < |s| ==> End(x) <= s[k].offset
    ensures Ordered(Insert(s, k, x), size)
  {
    var r := Insert(s, k, x);
    forall j | 0 < j < |r|
      ensures End(r[j - 1]) <= r[j].offset
    {
      if j == k + 1 {
        assert r[j] == s[k];
      } else if j > k + 1 {
        assert r[j - 1] == s[j - 2] && r[j] == s[j - 1];
      }
    }
  }

  lemma OrderedDelete(s: seq<Minor>, size: nat, k: nat)
    requires Ordered(s, size) && k < |s|
    ensures Ordered(Delete(s, k), size)
  {
    var r := Delete(s, k);
    forall j | 0 < j < |r|
      ensures End(r[j - 1]) <= r[j].offset
    {
      if j == k {
        OrderedApart(s, size, k - 1, k + 1);
      } else if j > k {
        assert r[j - 1] == s[j] && r[j] == s[j + 1];
      }
    }
  }

  /** The minor a request of reserved size `size` gets in gap k. */
  function NewMinor(m: Major, k: nat, size: nat, req: nat): Minor
    requires k <= |m.minors|
  {
    Minor(GapStart(m, k), size, req)
  }

  /** A record placed in gap k: linked in at position k, its bytes added to `usage`. */
  function Place(m: Major, k: nat, size: nat, req: nat): Major
    requires k <= |m.minors|
  {
    m.(usage := m.usage + MINOR_HEADER + size, minors := Insert(m.minors, k, NewMinor(m, k, size, req)))
  }

  /** Placing a record in a gap with room keeps the major well formed and takes `size + 24` of its free bytes. */
  lemma PlaceWellFormed(m: Major, k: nat, size: nat, req: nat)
    requires WellFormed(m) && k <= |m.minors| && Room(m, k, size + MINOR_HEADER)
    ensures WellFormed(Place(m, k, size, req))
    ensures FreeBytes(Place(m, k, size, req)) == FreeBytes(m) - (size + MINOR_HEADER)
    ensures |Place(m, k, size, req).minors| == |m.minors| + 1
  {
    var x := NewMinor(m, k, size, req);
    WeightInsert(m.minors, k, x, MINOR_HEADER);
    OrderedInsert(m.minors, m.size, k, x);
  }

  /** The record at position k unlinked and its bytes taken out of `usage`. */
  function Remove(m: Major, k: nat): Major
    requires k < |m.minors|
  {
    m.(usage := m.usage - (MINOR_HEADER + m.minors[k].size), minors := Delete(m.minors, k))
  }

  /** Unlinking a record keeps the major well formed and gives back `size + 24` bytes. */
  lemma RemoveWellFormed(m: Major, k: nat)
    requires WellFormed(m) && k < |m.minors|
    ensures WellFormed(Remove(m, k))
    ensures FreeBytes(Remove(m, k)) == FreeBytes(m) + MINOR_HEADER + m.minors[k].size
    ensures |Remove(m, k).minors| == |m.minors| - 1
  {
    WeightDelete(m.minors, k, MINOR_HEADER);
    OrderedDelete(m.minors, m.size, k);
  }

  // User pointers

  /** The pointer handed out for a minor of the major at `base`: its payload, aligned. */
  function PtrOf(base: nat, x: Minor): nat
  {
    Align(base + x.offset + MINOR_HEADER).ptr
  }

  /** The user pointer of the minor at position k. */
  function Ptr(m: Major, k: nat): nat
    requires k < |m.minors|
  {
    PtrOf(Base(m), m.minors[k])
  }

  /** The pointers of a major's live records. */
  function LiveOf(m: Major): set<nat>
  {
    set x | x in m.minors :: PtrOf(Base(m), x)
  }

  /** Every pointer of a well-formed major lies at least 64 bytes past its address and less than 32 past its end. */
  lemma PtrSpan(m: Major, x: Minor)
    requires WellFormed(m) && x in m.minors
    ensures Base(m) + 64 <= PtrOf(Base(m), x) < Base(m) + m.size + 32
  {
  }

  /** Records at different positions of a well-formed major have different pointers. */
  lemma PtrInjective(m: Major, j: nat, k: nat)
    requires WellFormed(m) && j < |m.minors| && k < |m.minors| && j != k
    ensures Ptr(m, j) != Ptr(m, k) && m.minors[j] != m.minors[k]
  {
    if j < k {
      OrderedApart(m.minors, m.size, j, k);
    } else {
      OrderedApart(m.minors, m.size, k, j);
    }
  }

  /** Placing a record adds exactly its pointer, which no record of the major had. */
  lemma LivePlace(m: Major, k: nat, size: nat, req: nat)
    requires WellFormed(m) && k <= |m.minors| && Room(m, k, size + MINOR_HEADER)
    ensures PtrOf(Base(m), NewMinor(m, k, size, req)) !in LiveOf(m)
    ensures LiveOf(Place(m, k, size, req)) == LiveOf(m) + {PtrOf(Base(m), NewMinor(m, k, size, req))}
  {
    PlacedPtrFresh(m, k, size, req);
    LiveInsert(m, k, size, req);
  }

  /** The pointer of a record placed in a gap with room differs from every pointer of the major. */
  lemma PlacedPtrFresh(m: Major, k: nat, size: nat, req: nat)
    requires WellFormed(m) && k <= |m.minors| && Room(m, k, size + MINOR_HEADER)
    ensures PtrOf(Base(m), NewMinor(m, k, size, req)) !in LiveOf(m)
  {
    var p := PtrOf(Base(m), NewMinor(m, k, size, req));
    forall j | 0 <= j < |m.minors|
      ensures PtrOf(Base(m), m.minors[j]) != p
    {
      if j < k - 1 {
        OrderedApart(m.minors, m.size, j, k - 1);
      } else if j > k {
        OrderedApart(m.minors, m.size, k, j);
      }
    }
  }

  /** Inserting a record at position k adds its pointer to the major's pointers and nothing else. */
  lemma LiveInsert(m: Major, k: nat, size: nat, req: nat)
    requires k <= |m.minors|
    ensures LiveOf(Place(m, k, size, req)) == LiveOf(m) + {PtrOf(Base(m), NewMinor(m, k, size, req))}
  {
    var x := NewMinor(m, k, size, req);
    var m' := Place(m, k, size, req);
    var p := PtrOf(Base(m), x);
    assert Base(m') == Base(m);
    forall z | z in LiveOf(m')
      ensures z in LiveOf(m) + {p}
    {
      var y :| y in m'.minors && z == PtrOf(Base(m), y);
      var j :| 0 <= j < |m'.minors| && m'.minors[j] == y;
      if j < k {
        assert y == m.minors[j];
      } else if j > k {
        assert y == m.minors[j - 1];
      }
    }
    forall z | z in LiveOf(m) + {p}
      ensures z in LiveOf(m')
    {
      if z == p {
        assert m'.minors[k] == x;
      } else {
        var y :| y in m.minors && z == PtrOf(Base(m), y);
        var j :| 0 <= j < |m.minors| && m.minors[j] == y;
        if j < k {
          assert m'.minors[j] == y;
        } else {
          assert m'.minors[j + 1] == y;
        }
      }
    }
  }

  /** Unlinking the record at position k removes exactly its pointer. */
  lemma LiveRemove(m: Major, k: nat)
    requires WellFormed(m) && k < |m.minors|
    ensures LiveOf(Remove(m, k)) == LiveOf(m) - {Ptr(m, k)}
  {
    forall z | z in LiveOf(Remove(m, k))
      ensures z in LiveOf(m) - {Ptr(m, k)}
    {
      RemovedLive(m, k, z);
    }
    forall z | z in LiveOf(m) - {Ptr(m, k)}
      ensures z in LiveOf(Remove(m, k))
    {
      KeptLive(m, k, z);
    }
  }

  lemma RemovedLive(m: Major, k: nat, z: nat)
    requires WellFormed(m) && k < |m.minors| && z in LiveOf(Remove(m, k))
    ensures z in LiveOf(m) && z != Ptr(m, k)
  {
    var m' := Remove(m, k);
    var y :| y in m'.minors && z == PtrOf(Base(m'), y);
    var j :| 0 <= j < |m'.minors| && m'.minors[j] == y;
    var i := if j < k then j else j + 1;
    assert y == m.minors[i];
    PtrInjective(m, i, k);
    assert y in m.minors && Base(m') == Base(m);
  }

  lemma KeptLive(m: Major, k: nat, z: nat)
    requires WellFormed(m) && k < |m.minors| && z in LiveOf(m) && z != Ptr(m, k)
    ensures z in LiveOf(Remove(m, k))
  {
    var m' := Remove(m, k);
    var y :| y in m.minors && z == PtrOf(Base(m), y);
    var j :| 0 <= j < |m.minors| && m.minors[j] == y;
    var i := if j < k then j else j - 1;
    assert m'.minors[i] == y;
    assert y in m'.minors && Base(m') == Base(m);
  }

  /** Different positions of a well-formed major have different pointers, stated for all positions at once. */
  lemma PtrDistinct(m: Major)
    requires WellFormed(m)
    ensures forall j, k :: 0 <= j < |m.minors| && 0 <= k < |m.minors| && j != k ==> Ptr(m, j) != Ptr(m, k)
  {
    forall j, k | 0 <= j < |m.minors| && 0 <= k < |m.minors| && j != k
      ensures Ptr(m, j) != Ptr(m, k)
    {
      PtrInjective(m, j, k);
    }
  }

  // Shrinking a record in place

  /** The record at position k with its `req_size` replaced by r. */
  function SetReq(m: Major, k: nat, r: nat): Major
    requires k < |m.minors|
  {
    m.(minors := m.minors[k := m.minors[k].(reqSize := r)])
  }

  lemma {:induction false} WeightSetReq(s: seq<Minor>, k: nat, r: nat, h: nat)
    requires k < |s|
    ensures Weight(s[k := s[k].(reqSize := r)], h) == Weight(s, h)
  {
    var s' := s[k := s[k].(reqSize := r)];
    if k == 0 {
      assert s'[1..] == s[1..];
    } else {
      assert s'[1..] == s[1..][k - 1 := s[k].(reqSize := r)];
      WeightSetReq(s[1..], k - 1, r, h);
    }
  }

  /** Changing a record's `req_size` moves nothing: the major stays well formed and keeps its usage. */
  lemma SetReqWellFormed(m: Major, k: nat, r: nat)
    requires WellFormed(m) && k < |m.minors|
    ensures WellFormed(SetReq(m, k, r)) && FreeBytes(SetReq(m, k, r)) == FreeBytes(m)
    ensures Weight(SetReq(m, k, r).minors, 0) == Weight(m.minors, 0)
  {
    var m' := SetReq(m, k, r);
    WeightSetReq(m.minors, k, r, MINOR_HEADER);
    WeightSetReq(m.minors, k, r, 0);
    forall j | 0 <= j < |m.minors|
      ensures m'.minors[j].offset == m.minors[j].offset && End(m'.minors[j]) == End(m.minors[j])
    {
    }
  }

  /** Changing a record's `req_size` keeps every pointer of the major. */
  lemma SetReqPtrs(m: Major, k: nat, r: nat)
    requires k < |m.minors|
    ensures forall j :: 0 <= j < |m.minors| ==> Ptr(SetReq(m, k, r), j) == Ptr(m, j)
    ensures LiveOf(SetReq(m, k, r)) == LiveOf(m)
  {
    var m' := SetReq(m, k, r);
    forall j | 0 <= j < |m.minors|
      ensures Ptr(m', j) == Ptr(m, j)
    {
      assert m'.minors[j].offset == m.minors[j].offset;
    }
    forall z | z in LiveOf(m')
      ensures z in LiveOf(m)
    {
      var y :| y in m'.minors && z == PtrOf(Base(m), y);
      var j :| 0 <= j < |m'.minors| && m'.minors[j] == y;
      assert Ptr(m', j) == Ptr(m, j);
      assert m.minors[j] in m.minors;
    }
    forall z | z in LiveOf(m)
      ensures z in LiveOf(m')
    {
      var y :| y in m.minors && z == PtrOf(Base(m), y);
      var j :| 0 <= j < |m.minors| && m.minors[j] == y;
      assert Ptr(m', j) == Ptr(m, j);
      assert m'.minors[j] in m'.minors;
    }
  }

  // The list of majors

  /** Two majors share no heap frame. */
  predicate Apart(a: Major, b: Major)
  {
    a.frame + a.pages <= b.frame || b.frame + b.pages <= a.frame
  }

  /** Every pointer of a well-formed major lies in the window PtrSpan gives. */
  lemma LiveSpan(m: Major, y: nat)
    requires WellFormed(m) && y in LiveOf(m)
    ensures Base(m) + 64 <= y < Base(m) + m.size + 32
  {
    var x :| x in m.minors && PtrOf(Base(m), x) == y;
    PtrSpan(m, x);
  }

  /** Majors that share no frame hand out different pointers. */
  lemma ApartPtrs(a: Major, b: Major, y: nat)
    requires WellFormed(a) && WellFormed(b) && Apart(a, b)
    requires y in LiveOf(a)
    ensures y !in LiveOf(b)
  {
    LiveSpan(a, y);
    if y in LiveOf(b) {
      LiveSpan(b, y);
    }
  }

  /** The pointers of every live record in the heap. */
  function LiveAll(ms: seq<Major>): set<nat>
  {
    set j, y | 0 <= j < |ms| && y in LiveOf(ms[j]) :: y
  }

  /** A major whose pointers grew by one pointer grows the heap's pointers by that one. */
  lemma LiveAllAdd(ms: seq<Major>, i: nat, m: Major, y: nat)
    requires i < |ms| && LiveOf(m) == LiveOf(ms[i]) + {y}
    ensures LiveAll(ms[i := m]) == LiveAll(ms) + {y}
  {
    var ms' := ms[i := m];
    forall z | z in LiveAll(ms) + {y}
      ensures z in LiveAll(ms')
    {
      if z == y {
        assert y in LiveOf(ms'[i]);
      } else {
        var j :| 0 <= j < |ms| && z in LiveOf(ms[j]);
        assert z in LiveOf(ms'[j]);
      }
    }
    forall z | z in LiveAll(ms')
      ensures z in LiveAll(ms) + {y}
    {
      var j :| 0 <= j < |ms'| && z in LiveOf(ms'[j]);
      if j != i || z != y {
        assert z in LiveOf(ms[j]);
      }
    }
  }

  /** A major that lost one pointer no other major has loses the heap that pointer. */
  lemma LiveAllDrop(ms: seq<Major>, i: nat, m: Major, y: nat)
    requires i < |ms| && LiveOf(m) == LiveOf(ms[i]) - {y}
    requires forall j :: 0 <= j < |ms| && j != i ==> y !in LiveOf(ms[j])
    ensures LiveAll(ms[i := m]) == LiveAll(ms) - {y}
  {
    var ms' := ms[i := m];
    forall z | z in LiveAll(ms) - {y}
      ensures z in LiveAll(ms')
    {
      var j :| 0 <= j < |ms| && z in LiveOf(ms[j]);
      assert z in LiveOf(ms'[j]);
    }
    forall z | z in LiveAll(ms')
      ensures z in LiveAll(ms) - {y}
    {
      var j :| 0 <= j < |ms'| && z in LiveOf(ms'[j]);
      assert z in LiveOf(ms[j]);
    }
  }

  /** Adding a major without records leaves the heap's pointers as they were. */
  lemma LiveAllAppendEmpty(ms: seq<Major>, m: Major)
    requires |m.minors| == 0
    ensures LiveAll(ms + [m]) == LiveAll(ms)
  {
    var ms' := ms + [m];
    forall z | z in LiveAll(ms')
      ensures z in LiveAll(ms)
    {
      var j :| 0 <= j < |ms'| && z in LiveOf(ms'[j]);
      assert z in LiveOf(ms[j]);
    }
    forall z | z in LiveAll(ms)
      ensures z in LiveAll(ms')
    {
      var j :| 0 <= j < |ms| && z in LiveOf(ms[j]);
      assert z in LiveOf(ms'[j]);
    }
  }

  /** Unlinking a major without records leaves the heap's pointers as they were. */
  lemma LiveAllRemoveEmpty(ms: seq<Major>, i: nat)
    requires i < |ms| && |ms[i].minors| == 0
    ensures LiveAll(ms[..i] + ms[i + 1..]) == LiveAll(ms)
  {
    var ms' := ms[..i] + ms[i + 1..];
    forall z | z in LiveAll(ms')
      ensures z in LiveAll(ms)
    {
      var j :| 0 <= j < |ms'| && z in LiveOf(ms'[j]);
      if j < i {
        assert z in LiveOf(ms[j]);
      } else {
        assert z in LiveOf(ms[j + 1]);
      }
    }
    forall z | z in LiveAll(ms)
      ensures z in LiveAll(ms')
    {
      var j :| 0 <= j < |ms| && z in LiveOf(ms[j]);
      if j < i {
        assert z in LiveOf(ms'[j]);
      } else {
        assert j != i;
        assert z in LiveOf(ms'[j - 1]);
      }
    }
  }
}
