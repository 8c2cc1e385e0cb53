/**
 * The structure allocator of kern/scheduler/scheduler.c: process and thread
 * control blocks live one per 4 KiB frame from TCB_START upward, frames are
 * taken from a bitmap, IDs come from two counters, and each new thread is
 * appended to its process's singly linked thread list.
 *
 * Memory at a structure address is modelled as two maps from address to
 * record, holding the fields the allocator reads and writes.
 */
module Scheduler {
  import opened Types
  import opened Bitmap

  const TCB_START: nat := 0xC400_0000
  const TCB_END: nat := 0xCFFF_FFFF
  const FRAME_SIZE: nat := 0x1000

  /** The number of structure frames, (TCB_END + 1 - TCB_START) / FRAME_SIZE. */
  const STRUCT_FRAMES: nat := 0xC000

  /** A process control block: its ID and the head of its thread list (0 = NULL). */
  datatype Pcb = Pcb(processId: U32, thread: U32)

  /** A thread control block: its ID and the next thread of the list (0 = NULL). */
  datatype Tcb = Tcb(threadId: U32, next: U32)

  /** The address of the structure in frame `frame`. */
  function SlotAddress(frame: nat): (r: nat)
    ensures r % FRAME_SIZE == 0 && r >= TCB_START
    ensures frame < STRUCT_FRAMES ==> r <= TCB_END
  {
    frame * FRAME_SIZE + TCB_START
  }

  /** a is the address of one of the first n structure frames. */
  predicate InSlots(a: int, n: nat)
  {
    a >= TCB_START && (a - TCB_START) % FRAME_SIZE == 0 && (a - TCB_START) / FRAME_SIZE < n
  }

  /** Every link points to a later TCB, so each list ends in NULL. */
  predicate Linked(tcbs: map<U32, Tcb>)
  {
    forall a {:trigger tcbs[a]} | a in tcbs :: tcbs[a].next == 0 || (tcbs[a].next in tcbs && tcbs[a].next > a)
  }

  /** The addresses of the list that starts at a, in link order. */
  function List(tcbs: map<U32, Tcb>, a: U32): (r: seq<U32>)
    requires Linked(tcbs) && (a == 0 || a in tcbs)
    ensures a == 0 <==> r == []
    ensures forall k :: 0 <= k < |r| ==> r[k] in tcbs && r[k] >= a
    decreases WORD_MOD - a
  {
    if a == 0 then []
    else if tcbs[a].next == 0 then [a]
    else [a] + List(tcbs, tcbs[a].next)
  }

  /** The last TCB of the list that starts at a. */
  function Last(tcbs: map<U32, Tcb>, a: U32): (r: U32)
    requires Linked(tcbs) && a in tcbs
    ensures r in tcbs && tcbs[r].next == 0 && r >= a
    decreases WORD_MOD - a
  {
    if tcbs[a].next == 0 then a else Last(tcbs, tcbs[a].next)
  }

  /**
   * tcbs with a TCB t (ID id, no successor) added and, unless a is NULL,
   * linked after the last node of the list at a.
   */
  function Appended(tcbs: map<U32, Tcb>, a: U32, t: U32, id: U32): map<U32, Tcb>
    requires Linked(tcbs) && (a == 0 || a in tcbs)
  {
    if a == 0 then tcbs[t := Tcb(id, 0)]
    else
      var last := Last(tcbs, a);
      tcbs[last := tcbs[last].(next := t)][t := Tcb(id, 0)]
  }

  /**
   * tcbs after `scheduler_new_tcb` as written. The source never writes the
   * new TCB's `next`, so it keeps whatever value `stale` its freshly mapped
   * page held, and the walk starts from `a`, which for a new process is its
   * PCB's `thread` field read before anything was stored there.
   */
  function AppendedAsWritten(tcbs: map<U32, Tcb>, a: U32, t: U32, id: U32, stale: U32): (r: map<U32, Tcb>)
    requires Linked(tcbs) && (a == 0 || a in tcbs)
    ensures t in r && r[t] == Tcb(id, stale)
    ensures r.Keys == tcbs.Keys + {t}
    ensures stale == 0 ==> r == Appended(tcbs, a, t, id)
  {
    if a == 0 then tcbs[t := Tcb(id, stale)]
    else
      var last := Last(tcbs, a);
      tcbs[last := tcbs[last].(next := t)][t := Tcb(id, stale)]
  }

  /**
   * A new TCB whose page still holds the address of the head of the list
   * it joins: the head and the new TCB point at each other, so the list no
   * longer ends and the next append never leaves its walk.
   */
  lemma StaleNextCycles()
    ensures var n := AppendedAsWritten(map[TCB_START := Tcb(1, 0)], TCB_START, TCB_START + FRAME_SIZE, 2, TCB_START);
      n[TCB_START].next == TCB_START + FRAME_SIZE && n[TCB_START + FRAME_SIZE].next == TCB_START && !Linked(n)
  {
    var n := AppendedAsWritten(map[TCB_START := Tcb(1, 0)], TCB_START, TCB_START + FRAME_SIZE, 2, TCB_START);
    assert n[TCB_START + FRAME_SIZE].next < TCB_START + FRAME_SIZE;
  }

  /**
   * A new process whose PCB page still holds the address of another
   * process's only thread, at TCB_START + 0x1000: the new process's first
   * thread, at TCB_START + 0x3000, is appended to that other list.
   */
  lemma StaleThreadJoinsOtherList()
    ensures var other := TCB_START + FRAME_SIZE;
      var n := AppendedAsWritten(map[other := Tcb(1, 0)], other, TCB_START + 3 * FRAME_SIZE, 2, 0);
      Linked(n) && List(n, other) == [other, TCB_START + 3 * FRAME_SIZE]
  {
    var other := TCB_START + FRAME_SIZE;
    var t := TCB_START + 3 * FRAME_SIZE;
    var n := AppendedAsWritten(map[other := Tcb(1, 0)], other, t, 2, 0);
    assert n == map[other := Tcb(1, t), t := Tcb(2, 0)];
    assert List(n, t) == [t];
  }

  /**
   * Linking a new TCB t, above every existing address, after the last node
   * of a list extends that list by exactly t and keeps every list finite.
   */
  lemma {:induction false} AppendExtendsList(tcbs: map<U32, Tcb>, a: U32, t: U32, id: U32)
    requires Linked(tcbs) && a in tcbs && a != 0 && t != 0
    requires forall k | k in tcbs :: k < t
    ensures Linked(Appended(tcbs, a, t, id))
    ensures List(Appended(tcbs, a, t, id), a) == List(tcbs, a) + [t]
    decreases WORD_MOD - a
  {
    var n := Appended(tcbs, a, t, id);
    var last := Last(tcbs, a);
    assert Linked(n) by {
      forall k | k in n
        ensures n[k].next == 0 || (n[k].next in n && n[k].next > k)
      {
        if k != t && k != last {
          assert n[k] == tcbs[k];
        }
      }
    }
    if tcbs[a].next != 0 {
      AppendExtendsList(tcbs, tcbs[a].next, t, id);
      assert n == Appended(tcbs, tcbs[a].next, t, id);
      assert Last(tcbs, a) == Last(tcbs, tcbs[a].next);
      assert n[a] == tcbs[a];
    } else {
      assert last == a && n[a].next == t && n[t].next == 0;
      assert List(n, t) == [t];
    }
  }

  /**
   * The TCBs sit in handed-out frames, their lists end, and thread IDs run
   * from 1 to the counter; `tidAt` maps each ID back to its TCB, so no two
   * TCBs share an ID.
   */
  predicate TcbsOk(tcbs: map<U32, Tcb>, nextTid: nat, count: nat, tidAt: map<nat, U32>)
  {
    (forall a | a in tcbs :: InSlots(a, count))
    && Linked(tcbs)
    && (forall a | a in tcbs ::
          1 <= tcbs[a].threadId <= nextTid && tcbs[a].threadId in tidAt && tidAt[tcbs[a].threadId] == a)
  }

  /**
   * The PCBs sit in handed-out frames no TCB uses, each thread list starts
   * at NULL or a TCB, and process IDs run from 1 to the counter; `pidAt`
   * maps each ID back to its PCB, so no two PCBs share an ID.
   */
  predicate PcbsOk(pcbs: map<U32, Pcb>, tcbs: map<U32, Tcb>, nextPid: nat, count: nat, pidAt: map<nat, U32>)
  {
    (forall a | a in pcbs :: InSlots(a, count))
    && pcbs.Keys !! tcbs.Keys
    && (forall p | p in pcbs :: pcbs[p].thread == 0 || pcbs[p].thread in tcbs)
    && (forall a | a in pcbs ::
          1 <= pcbs[a].processId <= nextPid && pcbs[a].processId in pidAt && pidAt[pcbs[a].processId] == a)
  }

  /** No two TCBs share a thread ID, and no two PCBs a process ID. */
  lemma IdsDistinct(tcbs: map<U32, Tcb>, nextTid: nat, count: nat, tidAt: map<nat, U32>,
                    pcbs: map<U32, Pcb>, nextPid: nat, pidAt: map<nat, U32>, a: U32, b: U32)
    requires TcbsOk(tcbs, nextTid, count, tidAt) && PcbsOk(pcbs, tcbs, nextPid, count, pidAt)
    ensures a in tcbs && b in tcbs && a != b ==> tcbs[a].threadId != tcbs[b].threadId
    ensures a in pcbs && b in pcbs && a != b ==> pcbs[a].processId != pcbs[b].processId
  {
  }

  /**
   * The allocator's invariant apart from the bitmap: the scan bound fits
   * the structure area, the frames handed out fit the scan, each ID handed
   * out used one frame, and the two kinds of control block are consistent.
   */
  ghost predicate Inv(nframes: nat, count: nat, nextPid: nat, nextTid: nat,
                      pcbs: map<U32, Pcb>, tcbs: map<U32, Tcb>, pidAt: map<nat, U32>, tidAt: map<nat, U32>)
  {
    nframes <= STRUCT_FRAMES && count <= WordsScanned(nframes) * 32
    && nextPid + nextTid <= count
    && TcbsOk(tcbs, nextTid, count, tidAt)
    && PcbsOk(pcbs, tcbs, nextPid, count, pidAt)
  }

  /** Taking the next frame for an unlinked TCB with the next thread ID keeps the invariant. */
  lemma InvAddTcb(nframes: nat, count: nat, nextPid: nat, nextTid: nat,
                  pcbs: map<U32, Pcb>, tcbs: map<U32, Tcb>, pidAt: map<nat, U32>, tidAt: map<nat, U32>)
    requires Inv(nframes, count, nextPid, nextTid, pcbs, tcbs, pidAt, tidAt)
    requires count < WordsScanned(nframes) * 32
    ensures SlotAddress(count) < WORD_MOD && nextTid + 1 < WORD_MOD
    ensures SlotAddress(count) !in tcbs && SlotAddress(count) !in pcbs
    ensures forall k | k in tcbs :: k < SlotAddress(count) && tcbs[k].threadId < nextTid + 1
    ensures Inv(nframes, count + 1, nextPid, nextTid + 1, pcbs,
                tcbs[SlotAddress(count) := Tcb(nextTid + 1, 0)], pidAt, tidAt[nextTid + 1 := SlotAddress(count)])
  {
    var t := SlotAddress(count);
    AddTcb(tcbs, nextTid, count, tidAt, t);
    PcbsGrow(pcbs, tcbs, tcbs[t := Tcb(nextTid + 1, 0)], nextPid, count, pidAt, t);
  }

  /** Taking the next frame for a PCB with the next process ID and no thread keeps the invariant. */
  lemma InvAddPcb(nframes: nat, count: nat, nextPid: nat, nextTid: nat,
                  pcbs: map<U32, Pcb>, tcbs: map<U32, Tcb>, pidAt: map<nat, U32>, tidAt: map<nat, U32>)
    requires Inv(nframes, count, nextPid, nextTid, pcbs, tcbs, pidAt, tidAt)
    requires count < WordsScanned(nframes) * 32
    ensures SlotAddress(count) < WORD_MOD && nextPid + 1 < WORD_MOD
    ensures SlotAddress(count) !in tcbs && SlotAddress(count) !in pcbs
    ensures forall a | a in pcbs :: pcbs[a].processId < nextPid + 1
    ensures Inv(nframes, count + 1, nextPid + 1, nextTid, pcbs[SlotAddress(count) := Pcb(nextPid + 1, 0)],
                tcbs, pidAt[nextPid + 1 := SlotAddress(count)], tidAt)
  {
    var t := SlotAddress(count);
    SlotNext(count);
    forall a | a in tcbs
      ensures a < t && InSlots(a, count + 1)
    {
      SlotBelow(a, count);
    }
    forall a | a in pcbs
      ensures a < t && InSlots(a, count + 1)
    {
      SlotBelow(a, count);
    }
    var n := pcbs[t := Pcb(nextPid + 1, 0)];
    forall a | a in n
      ensures n[a].processId == if a == t then nextPid + 1 else pcbs[a].processId
    {
    }
  }

  /** Pointing a PCB at NULL or at an existing TCB keeps the invariant. */
  lemma InvSetThread(nframes: nat, count: nat, nextPid: nat, nextTid: nat,
                     pcbs: map<U32, Pcb>, tcbs: map<U32, Tcb>, pidAt: map<nat, U32>, tidAt: map<nat, U32>,
                     a: U32, thread: U32)
    requires Inv(nframes, count, nextPid, nextTid, pcbs, tcbs, pidAt, tidAt) && a in pcbs
    requires thread == 0 || thread in tcbs
    ensures Inv(nframes, count, nextPid, nextTid, pcbs[a := pcbs[a].(thread := thread)], tcbs, pidAt, tidAt)
  {
    var n := pcbs[a := pcbs[a].(thread := thread)];
    forall k | k in n
      ensures n[k].processId == pcbs[k].processId
    {
    }
  }

  /** The frames set in the bitmap are exactly 0..n-1. */
  ghost predicate SetPrefix(a: array<bv32>, n: nat)
    reads a
  {
    forall g: nat :: Used(a[..], g) <==> g < n
  }

  /** Every handed-out slot lies below the next one. */
  lemma SlotBelow(a: int, c: nat)
    requires InSlots(a, c)
    ensures a < SlotAddress(c) && InSlots(a, c + 1)
  {
    var f := (a - TCB_START) / FRAME_SIZE;
    assert a == SlotAddress(f);
  }

  /** The next slot is handed out once the count grows past it. */
  lemma SlotNext(c: nat)
    ensures InSlots(SlotAddress(c), c + 1)
  {
    assert (SlotAddress(c) - TCB_START) / FRAME_SIZE == c;
  }

  /** A new unlinked TCB in the next slot, with the next thread ID, keeps the TCB invariant. */
  lemma AddTcb(tcbs: map<U32, Tcb>, nextTid: nat, count: nat, tidAt: map<nat, U32>, t: U32)
    requires TcbsOk(tcbs, nextTid, count, tidAt) && t == SlotAddress(count) && nextTid + 1 < WORD_MOD
    ensures t !in tcbs && t != 0
    ensures forall k | k in tcbs :: k < t
    ensures TcbsOk(tcbs[t := Tcb(nextTid + 1, 0)], nextTid + 1, count + 1, tidAt[nextTid + 1 := t])
  {
    forall a | a in tcbs
      ensures a < t && InSlots(a, count + 1)
    {
      SlotBelow(a, count);
    }
    SlotNext(count);
    var n := tcbs[t := Tcb(nextTid + 1, 0)];
    assert Linked(n) by {
      forall k | k in n
        ensures n[k].next == 0 || (n[k].next in n && n[k].next > k)
      {
        if k != t {
          assert n[k] == tcbs[k];
        }
      }
    }
  }

  /** Inserting an unlinked TCB changes no list: the last node of each stays the same. */
  lemma {:induction false} InsertKeepsLast(tcbs: map<U32, Tcb>, a: U32, t: U32, x: Tcb)
    requires Linked(tcbs) && a in tcbs && t !in tcbs && x.next == 0
    ensures Linked(tcbs[t := x]) && Last(tcbs[t := x], a) == Last(tcbs, a)
    decreases WORD_MOD - a
  {
    var m := tcbs[t := x];
    assert Linked(m) by {
      forall k | k in m
        ensures m[k].next == 0 || (m[k].next in m && m[k].next > k)
      {
        if k != t {
          assert m[k] == tcbs[k];
        }
      }
    }
    assert m[a] == tcbs[a];
    if tcbs[a].next != 0 {
      InsertKeepsLast(tcbs, tcbs[a].next, t, x);
    }
  }

  /**
   * Inserting the unlinked TCB t first and then linking it after the last
   * node of the list at a yields Appended, which extends that list by t.
   */
  lemma InsertThenLink(tcbs: map<U32, Tcb>, a: U32, t: U32, id: U32)
    requires Linked(tcbs) && a in tcbs && a != 0 && t !in tcbs
    requires forall k | k in tcbs :: k < t
    ensures Linked(tcbs[t := Tcb(id, 0)])
    ensures Last(tcbs[t := Tcb(id, 0)], a) == Last(tcbs, a) < t
    ensures var m := tcbs[t := Tcb(id, 0)]; var last := Last(m, a);
      m[last := m[last].(next := t)] == Appended(tcbs, a, t, id)
    ensures List(Appended(tcbs, a, t, id), a) == List(tcbs, a) + [t]
  {
    InsertKeepsLast(tcbs, a, t, Tcb(id, 0));
    AppendExtendsList(tcbs, a, t, id);
  }

  /** Pointing a node at a later TCB keeps every list finite. */
  lemma LinkKeepsLinked(m: map<U32, Tcb>, last: U32, t: U32)
    requires Linked(m) && last in m && t in m && t > last
    ensures Linked(m[last := m[last].(next := t)])
  {
    var n := m[last := m[last].(next := t)];
    forall k | k in n
      ensures n[k].next == 0 || (n[k].next in n && n[k].next > k)
    {
      if k != last {
        assert n[k] == m[k];
      }
    }
  }

  /** The PCB invariant survives new TCBs and a larger count. */
  lemma PcbsGrow(pcbs: map<U32, Pcb>, tcbs: map<U32, Tcb>, tcbs': map<U32, Tcb>, nextPid: nat, count: nat,
                 pidAt: map<nat, U32>, t: U32)
    requires PcbsOk(pcbs, tcbs, nextPid, count, pidAt) && t == SlotAddress(count)
    requires tcbs'.Keys == tcbs.Keys + {t}
    ensures PcbsOk(pcbs, tcbs', nextPid, count + 1, pidAt)
    ensures t !in pcbs
  {
    forall a | a in pcbs
      ensures a < t && InSlots(a, count + 1)
    {
      SlotBelow(a, count);
    }
  }

  class Scheduler {
    /** The structure-frame bitmap. */
    var frames: array<bv32>
    /** The file-scope frame count that bounds every scan. */
    var nframes: nat
    var nextPid: U32
    var nextTid: U32
    /** Process control blocks by address. */
    var pcbs: map<U32, Pcb>
    /** Thread control blocks by address. */
    var tcbs: map<U32, Tcb>
    /** Number of structure frames handed out so far. */
    ghost var count: nat
    /** The PCB holding each process ID handed out. */
    ghost var pidAt: map<nat, U32>
    /** The TCB holding each thread ID handed out. */
    ghost var tidAt: map<nat, U32>

    ghost predicate Valid()
      reads this, frames
    {
      frames.Length == WordsScanned(STRUCT_FRAMES)
      && SetPrefix(frames, count)
      && Inv(nframes, count, nextPid, nextTid, pcbs, tcbs, pidAt, tidAt)
    }

    /**
     * `scheduler_init` as written: the frame count is stored in a local that
     * shadows the file-scope `nframes`, which therefore stays 0.
     */
    constructor InitAsWritten()
      ensures Valid() && fresh(frames)
      ensures nframes == 0 && count == 0 && pcbs == map[] && tcbs == map[]
    {
      nframes := 0;
      frames := new bv32[WordsScanned(STRUCT_FRAMES)](i => 0);
      nextPid, nextTid := 0, 0;
      pcbs, tcbs := map[], map[];
      count := 0;
      pidAt, tidAt := map[], map[];
      new;
      ClearedWords(frames[..]);
    }

    /** `scheduler_init` with the frame count stored in the file-scope variable. */
    constructor Init()
      ensures Valid() && fresh(frames)
      ensures nframes == STRUCT_FRAMES && count == 0 && pcbs == map[] && tcbs == map[]
    {
      nframes := STRUCT_FRAMES;
      frames := new bv32[WordsScanned(STRUCT_FRAMES)](i => 0);
      nextPid, nextTid := 0, 0;
      pcbs, tcbs := map[], map[];
      count := 0;
      pidAt, tidAt := map[], map[];
      new;
      ClearedWords(frames[..]);
    }

    /** `find_free_frame`: the lowest clear frame of the scanned words, or -1. */
    method FindFreeFrame() returns (r: int)
      requires Valid()
      ensures IsFirstClear(frames[..], WordsScanned(nframes), r)
    {
      r := FindFirstClear(frames, WordsScanned(nframes));
    }

    /** `set_frame`: marks exactly frame `frame`. */
    method SetFrame(frame: nat)
      requires frame / 32 < frames.Length
      modifies frames
      ensures frames[..] == Bitmap.SetFrame(old(frames[..]), frame)
    {
      SetBit(frames, frame);
    }

    /** `scheduler_new_pid`: the counter is incremented and its new value returned. */
    method NewPid() returns (pid: U32)
      modifies this`nextPid
      ensures nextPid == (old(nextPid) + 1) % WORD_MOD && pid == nextPid
      ensures old(nextPid) + 1 < WORD_MOD ==> nextPid == old(nextPid) + 1
    {
      nextPid := (nextPid + 1) % WORD_MOD;
      pid := nextPid;
    }

    /** `scheduler_new_tid`: the counter is incremented and its new value returned. */
    method NewTid() returns (tid: U32)
      modifies this`nextTid
      ensures nextTid == (old(nextTid) + 1) % WORD_MOD && tid == nextTid
      ensures old(nextTid) + 1 < WORD_MOD ==> nextTid == old(nextTid) + 1
    {
      nextTid := (nextTid + 1) % WORD_MOD;
      tid := nextTid;
    }

    /** Takes the next structure frame: the bitmap's set frames stay a prefix. */
    method TakeFrame() returns (frame: int)
      requires Valid()
      modifies frames, this`count
      ensures Valid() && pcbs == old(pcbs) && tcbs == old(tcbs)
      ensures nextPid == old(nextPid) && nextTid == old(nextTid) && pidAt == old(pidAt) && tidAt == old(tidAt)
      ensures frame >= -1
      ensures frame == -1 <==> old(count) == WordsScanned(nframes) * 32
      ensures frame == -1 ==> count == old(count) && frames[..] == old(frames[..])
      ensures frame >= 0 ==> frame == old(count) && count == old(count) + 1
    {
      frame := FindFreeFrame();
      PrefixFirstClear(frames[..], WordsScanned(nframes), count, frame);
      if frame >= 0 {
        SetFrame(frame);
        count := count + 1;
      }
    }

    /**
     * The allocation half of `scheduler_new_tcb`: a TCB in the next free
     * frame with a new thread ID and no successor, above every existing
     * TCB. When no frame is free, 0 is returned and nothing changes.
     */
    method AllocTcb() returns (tcb: U32)
      requires Valid()
      modifies frames, this`count, this`nextTid, this`tcbs, this`tidAt
      ensures Valid()
      ensures old(count) == WordsScanned(nframes) * 32 ==>
        tcb == 0 && tcbs == old(tcbs) && nextTid == old(nextTid) && count == old(count)
      ensures old(count) < WordsScanned(nframes) * 32 ==>
        tcb == SlotAddress(old(count)) && tcb !in old(tcbs) && tcb !in old(pcbs)
        && nextTid == old(nextTid) + 1 && count == old(count) + 1
        && tcbs == old(tcbs)[tcb := Tcb(nextTid, 0)]
        && (forall k | k in old(tcbs) :: k < tcb)
        && (forall k | k in old(tcbs) :: old(tcbs)[k].threadId < nextTid)
    {
      ghost var c := count;
      var frame := TakeFrame();
      if frame < 0 {
        return 0;
      }
      InvAddTcb(nframes, c, nextPid, nextTid, pcbs, tcbs, pidAt, tidAt);
      tcb := SlotAddress(frame);
      var tid := NewTid();
      assert tid == old(nextTid) + 1;
      tcbs := tcbs[tcb := Tcb(tid, 0)];
      tidAt := tidAt[tid := tcb];
      assert Inv(nframes, count, nextPid, nextTid, pcbs, tcbs, pidAt, tidAt);
    }

    /**
     * The walk of `scheduler_new_tcb`: follows the links from `head` to the
     * node without a successor and links `tcb`, which lies above it, there.
     */
    method LinkAfterLast(head: U32, tcb: U32)
      requires Valid() && head in tcbs && tcb in tcbs && tcb > Last(tcbs, head)
      modifies this`tcbs
      ensures Valid()
      ensures tcbs == old(tcbs)[Last(old(tcbs), head) := old(tcbs)[Last(old(tcbs), head)].(next := tcb)]
    {
      var thread := head;
      while true
        invariant thread in tcbs && Last(tcbs, thread) == Last(tcbs, head)
        invariant tcbs == old(tcbs)
        decreases WORD_MOD - thread
      {
        if tcbs[thread].next == 0 {
          LinkKeepsLinked(tcbs, thread, tcb);
          tcbs := tcbs[thread := tcbs[thread].(next := tcb)];
          return;
        }
        thread := tcbs[thread].next;
      }
    }

    /**
     * `scheduler_new_tcb`: a TCB in the next free frame with a new thread ID
     * and no successor. With a process whose thread list is not empty, it
     * is linked after the last thread and no other link changes; with NULL
     * or an empty list no list changes. When no frame is free, 0 is
     * returned and nothing changes.
     */
    method NewTcb(process: U32) returns (tcb: U32)
      requires Valid() && (process == 0 || process in pcbs)
      modifies frames, this`count, this`nextTid, this`tcbs, this`tidAt
      ensures Valid()
      ensures old(count) == WordsScanned(nframes) * 32 ==>
        tcb == 0 && tcbs == old(tcbs) && nextTid == old(nextTid) && count == old(count)
      ensures old(count) < WordsScanned(nframes) * 32 ==>
        tcb == SlotAddress(old(count)) && tcb !in old(tcbs) && tcb !in pcbs
        && nextTid == old(nextTid) + 1 && count == old(count) + 1
        && tcbs == Appended(old(tcbs), Head(old(pcbs), process), tcb, nextTid)
        && (forall k | k in old(tcbs) :: old(tcbs)[k].threadId < nextTid)
      ensures old(count) < WordsScanned(nframes) * 32 && Head(old(pcbs), process) != 0 ==>
        List(tcbs, Head(pcbs, process)) == List(old(tcbs), Head(old(pcbs), process)) + [tcb]
    {
      ghost var t0 := tcbs;
      var head := if process == 0 then 0 else pcbs[process].thread;
      tcb := AllocTcb();
      if tcb == 0 {
        return;
      }
      if head != 0 {
        LinkNew(head, tcb, t0, nextTid);
      }
    }

    /**
     * `scheduler_new_process`: a PCB in the next free frame with a new
     * process ID, whose thread list holds exactly one new TCB, placed in the
     * frame after it. With one frame left the PCB gets no thread; with none,
     * 0 is returned and nothing changes.
     */
    method NewProcess() returns (pcb: U32)
      requires Valid()
      modifies frames, this`count, this`nextPid, this`nextTid, this`pcbs, this`tcbs, this`pidAt, this`tidAt
      ensures Valid()
      ensures old(count) == WordsScanned(nframes) * 32 ==>
        pcb == 0 && pcbs == old(pcbs) && tcbs == old(tcbs) && count == old(count)
      ensures old(count) < WordsScanned(nframes) * 32 ==>
        pcb == SlotAddress(old(count)) && pcb !in old(pcbs) && pcb !in old(tcbs)
        && nextPid == old(nextPid) + 1 && pcb in pcbs && pcbs[pcb].processId == nextPid
        && (forall a | a in old(pcbs) :: old(pcbs)[a].processId < nextPid)
        && pcbs.Keys == old(pcbs).Keys + {pcb} && (forall a | a in old(pcbs) :: pcbs[a] == old(pcbs)[a])
      ensures old(count) + 1 == WordsScanned(nframes) * 32 ==>
        pcbs[pcb].thread == 0 && tcbs == old(tcbs) && nextTid == old(nextTid)
      ensures old(count) + 1 < WordsScanned(nframes) * 32 ==>
        var tcb := SlotAddress(old(count) + 1);
        pcbs[pcb].thread == tcb && nextTid == old(nextTid) + 1
        && tcbs == old(tcbs)[tcb := Tcb(nextTid, 0)] && List(tcbs, tcb) == [tcb]
        && (forall a | a in old(tcbs) :: old(tcbs)[a].threadId < nextTid)
    {
      pcb := AllocPcb();
      if pcb == 0 {
        return;
      }
      var tcb := NewTcb(pcb);
      SetThread(pcb, tcb);
    }

    /**
     * The allocation part of `scheduler_new_process`: a PCB in the next free
     * frame with a new process ID and, until its thread is set, no thread.
     */
    method AllocPcb() returns (pcb: U32)
      requires Valid()
      modifies frames, this`count, this`nextPid, this`pcbs, this`pidAt
      ensures Valid()
      ensures old(count) == WordsScanned(nframes) * 32 ==>
        pcb == 0 && pcbs == old(pcbs) && count == old(count) && nextPid == old(nextPid)
      ensures old(count) < WordsScanned(nframes) * 32 ==>
        pcb == SlotAddress(old(count)) && pcb !in old(pcbs) && pcb !in tcbs
        && nextPid == old(nextPid) + 1 && count == old(count) + 1
        && pcbs == old(pcbs)[pcb := Pcb(nextPid, 0)]
        && (forall a | a in old(pcbs) :: old(pcbs)[a].processId < nextPid)
        && pcbs.Keys == old(pcbs).Keys + {pcb} && (forall a | a in old(pcbs) :: pcbs[a] == old(pcbs)[a])
      ensures tcbs == old(tcbs) && nextTid == old(nextTid)
    {
      ghost var c := count;
      var frame := TakeFrame();
      if frame < 0 {
        return 0;
      }
      InvAddPcb(nframes, c, nextPid, nextTid, pcbs, tcbs, pidAt, tidAt);
      pcb := SlotAddress(frame);
      var pid := NewPid();
      assert pid == old(nextPid) + 1;
      pcbs := pcbs[pcb := Pcb(pid, 0)];
      pidAt := pidAt[pid := pcb];
      assert Inv(nframes, count, nextPid, nextTid, pcbs, tcbs, pidAt, tidAt);
    }

    /** `pcb->thread = tcb`: the head of a process's thread list is set to NULL or a TCB. */
    method SetThread(pcb: U32, tcb: U32)
      requires Valid() && pcb in pcbs && (tcb == 0 || tcb in tcbs)
      modifies this`pcbs
      ensures Valid()
      ensures pcbs == old(pcbs)[pcb := old(pcbs)[pcb].(thread := tcb)]
      ensures pcbs.Keys == old(pcbs).Keys && pcbs[pcb] == old(pcbs)[pcb].(thread := tcb)
      ensures forall a | a in old(pcbs) && a != pcb :: pcbs[a] == old(pcbs)[a]
      ensures tcbs == old(tcbs) && count == old(count) && nextPid == old(nextPid) && nextTid == old(nextTid)
    {
      InvSetThread(nframes, count, nextPid, nextTid, pcbs, tcbs, pidAt, tidAt, pcb, tcb);
      pcbs := pcbs[pcb := pcbs[pcb].(thread := tcb)];
    }

    /** The linking half of `scheduler_new_tcb`, stated against the TCBs before the allocation. */
    method LinkNew(head: U32, tcb: U32, ghost t0: map<U32, Tcb>, ghost id: U32)
      requires Valid() && Linked(t0) && head in t0 && head != 0 && tcb !in t0
      requires forall k | k in t0 :: k < tcb
      requires tcbs == t0[tcb := Tcb(id, 0)]
      modifies this`tcbs
      ensures Valid()
      ensures tcbs == Appended(t0, head, tcb, id)
      ensures List(tcbs, head) == List(t0, head) + [tcb]
    {
      InsertThenLink(t0, head, tcb, id);
      LinkAfterLast(head, tcb);
    }
  }

  /** The head of the thread list of `process`, NULL for no process. */
  function Head(pcbs: map<U32, Pcb>, process: U32): U32
    requires process == 0 || process in pcbs
  {
    if process == 0 then 0 else pcbs[process].thread
  }

  /** A zeroed bitmap has no frame set. */
  lemma ClearedWords(words: seq<bv32>)
    requires forall i :: 0 <= i < |words| ==> words[i] == 0
    ensures forall g: nat :: !Used(words, g)
  {
    forall g: nat | g / 32 < |words|
      ensures !Used(words, g)
    {
      assert words[g / 32] == 0;
    }
  }

  /** When the set frames are exactly a prefix, the scan finds the first frame past it. */
  lemma PrefixFirstClear(words: seq<bv32>, nwords: nat, n: nat, r: int)
    requires n <= nwords * 32
    requires forall g: nat :: Used(words, g) <==> g < n
    requires IsFirstClear(words, nwords, r)
    ensures r == -1 <==> n == nwords * 32
    ensures r >= 0 ==> r == n
  {
    var c := if n < nwords * 32 then n else -1;
    assert IsFirstClear(words, nwords, c);
    FirstClearUnique(words, nwords, r, c);
  }

  /** As written, the scan bound stays 0 and no structure frame is ever found. */
  lemma NoFrameAsWritten(words: seq<bv32>, r: int)
    requires IsFirstClear(words, WordsScanned(0), r)
    ensures r == -1
  {
  }
}
