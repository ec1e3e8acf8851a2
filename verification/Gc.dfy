/** The mark and sweep collector: object space, marking with a bounded stack, sweeping, allocation. */
module Gc {
  import opened GcGraph
  import opened GcFreeList
  import opened GcRun

  const MARK_STACK_MAX: nat := 1024
  const GC_LEVEL_MAX: nat := 250
  const HEAP_MIN_SLOTS: nat := 10000
  const HEAPS_INCREMENT: nat := 10

  ghost function Objects(cells: seq<RValue>): set<int> {
    set p | 0 <= p < |cells| && cells[p].Object?
  }

  class ObjSpace {
    var cells: seq<RValue>          // all memory the pages are made of
    var marked: set<int>            // cells whose FL_MARK bit is set
    var heaps: array<Page>
    var heapsUsed: nat
    var heapSlots: nat              // size of the next page
    var freelist: int               // first free cell, or -1
    var roots: seq<int>             // what the machine stack, registers and globals hold
    var dontGc: bool
    ghost var free: seq<int>        // the free list
    const markStack: array<int>
    var sp: nat                     // mark_stack_ptr - mark_stack
    var overflow: bool              // mark_stack_overflow

    ghost predicate StackOk()
      reads this`sp
    {
      sp <= markStack.Length == MARK_STACK_MAX
    }

    ghost function Stack(): seq<int>
      requires StackOk()
      reads this`sp, markStack
    {
      markStack[..sp]
    }

    /** ruby_stack_check: is the machine stack nearly used up? */
    method StackCheck() returns (deep: bool) {
      deep := *;
    }

    /** gc_mark: mark one object, now with everything below it or later from the mark stack. */
    method GcMark(ptr: int, lev: nat, ghost reach: set<int>, ghost pending: set<int>)
      requires StackOk() && Closed(cells, reach) && (IsObject(cells, ptr) ==> ptr in reach)
      requires Tricolor(cells, marked, pending, Stack(), overflow)
      modifies this`marked, this`sp, this`overflow, markStack
      ensures StackOk()
      ensures Marks(cells, reach, old(marked), old(Stack()), old(overflow), marked, Stack(), overflow, MARK_STACK_MAX)
      ensures Tricolor(cells, marked, pending, Stack(), overflow)
      ensures IsObject(cells, ptr) ==> ptr in marked
      decreases Objects(cells) - marked, 0
    {
      MarksNothing(cells, reach, marked, Stack(), overflow, MARK_STACK_MAX);
      if !IsObject(cells, ptr) { return; }
      if ptr in marked { return; }
      ghost var m0 := marked;
      marked := marked + {ptr};
      NewMark(cells, m0, pending, Stack(), overflow, ptr);
      assert ptr in Objects(cells) - m0;
      var deep := lev > GC_LEVEL_MAX;
      if lev == 0 { deep := StackCheck(); }
      if deep {
        if !overflow {
          if sp < MARK_STACK_MAX {
            ghost var s := Stack();
            markStack[sp] := ptr;
            sp := sp + 1;
            assert Stack() == s + [ptr];
          } else {
            overflow := true;
          }
        }
        return;
      }
      ghost var s1, o1 := Stack(), overflow;
      GcMarkChildren(ptr, lev + 1, reach, pending);
      AfterOneMark(cells, reach, m0, s1, o1, ptr, marked, Stack(), overflow);
    }

    /** gc_mark_children: mark all references of a marked object, going on with the last one. */
    method GcMarkChildren(ptr0: int, lev: nat, ghost reach: set<int>, ghost pending: set<int>)
      requires StackOk() && Closed(cells, reach) && ptr0 in reach && IsObject(cells, ptr0) && ptr0 in marked
      requires Tricolor(cells, marked, pending + {ptr0}, Stack(), overflow)
      modifies this`marked, this`sp, this`overflow, markStack
      ensures StackOk()
      ensures Marks(cells, reach, old(marked), old(Stack()), old(overflow), marked, Stack(), overflow, MARK_STACK_MAX)
      ensures Tricolor(cells, marked, pending, Stack(), overflow)
      decreases Objects(cells) - marked, 2
    {
      hide Marks, Tricolor, Finished, Edge, Closed;
      ghost var m0, s0, o0 := marked, Stack(), overflow;
      MarksNothing(cells, reach, marked, Stack(), overflow, MARK_STACK_MAX);
      var ptr := ptr0;
      while true
        invariant StackOk() && ptr in reach && IsObject(cells, ptr) && ptr in marked
        invariant Marks(cells, reach, m0, s0, o0, marked, Stack(), overflow, MARK_STACK_MAX)
        invariant Tricolor(cells, marked, pending + {ptr}, Stack(), overflow)
        decreases Objects(cells) - marked
      {
        ghost var m1, s1, o1 := marked, Stack(), overflow;
        MarksGrow(cells, reach, m0, s0, o0, m1, s1, o1);
        MarkSlots(ptr, lev, reach, pending);
        MarksTwice(cells, reach, m0, s0, o0, m1, s1, o1, marked, Stack(), overflow, MARK_STACK_MAX);
        MarksGrow(cells, reach, m1, s1, o1, marked, Stack(), overflow);
        var tail := cells[ptr].body.tail;
        if !IsObject(cells, tail) || tail in marked {
          LastMarked(cells, marked, pending, Stack(), overflow, ptr);
          return;
        }
        ghost var m2 := marked;
        marked := marked + {tail};
        assert tail in Objects(cells) - m2;
        GoOn(cells, reach, m2, pending, Stack(), overflow, ptr, tail);
        MarksTwice(cells, reach, m0, s0, o0, m2, Stack(), overflow, marked, Stack(), overflow, MARK_STACK_MAX);
        ptr := tail;
      }
    }

    /** The references gc_mark_children passes to gc_mark. */
    method MarkSlots(ptr: int, lev: nat, ghost reach: set<int>, ghost pending: set<int>)
      requires StackOk() && Closed(cells, reach) && ptr in reach && IsObject(cells, ptr) && ptr in marked
      requires Tricolor(cells, marked, pending + {ptr}, Stack(), overflow)
      modifies this`marked, this`sp, this`overflow, markStack
      ensures StackOk()
      ensures Marks(cells, reach, old(marked), old(Stack()), old(overflow), marked, Stack(), overflow, MARK_STACK_MAX)
      ensures Tricolor(cells, marked, pending + {ptr}, Stack(), overflow)
      ensures SlotsMarked(cells, marked, ptr, |cells[ptr].body.slots|)
      decreases Objects(cells) - marked, 1
    {
      hide Marks, Tricolor, Finished, Closed;
      ghost var m0, s0, o0 := marked, Stack(), overflow;
      MarksNothing(cells, reach, marked, Stack(), overflow, MARK_STACK_MAX);
      var slots, i := cells[ptr].body.slots, 0;
      while i < |slots|
        invariant StackOk() && 0 <= i <= |slots|
        invariant Marks(cells, reach, m0, s0, o0, marked, Stack(), overflow, MARK_STACK_MAX)
        invariant Tricolor(cells, marked, pending + {ptr}, Stack(), overflow)
        invariant SlotsMarked(cells, marked, ptr, i)
      {
        ghost var m1, s1, o1 := marked, Stack(), overflow;
        MarksGrow(cells, reach, m0, s0, o0, m1, s1, o1);
        SlotInReach(cells, reach, ptr, i);
        GcMark(slots[i].ref, if slots[i].top then 0 else lev, reach, pending + {ptr});
        MarksGrow(cells, reach, m1, s1, o1, marked, Stack(), overflow);
        MarksTwice(cells, reach, m0, s0, o0, m1, s1, o1, marked, Stack(), overflow, MARK_STACK_MAX);
        i := i + 1;
      }
    }

    ghost function Pages(): seq<Page>
      requires heapsUsed <= heaps.Length
      reads this`heaps, this`heapsUsed, heaps
    {
      heaps[..heapsUsed]
    }

    /** gc_mark_all: forget the mark stack and scan the whole heap for marked objects. */
    method GcMarkAll(ghost reach: set<int>)
      requires StackOk() && Closed(cells, reach) && marked <= Objects(cells) && marked <= reach
      requires heapsUsed <= heaps.Length && Covered(cells, Pages())
      modifies this`marked, this`sp, this`overflow, markStack
      ensures StackOk()
      ensures Marks(cells, reach, old(marked), [], false, marked, Stack(), overflow, MARK_STACK_MAX)
      ensures Tricolor(cells, marked, {}, Stack(), overflow)
    {
      hide Marks, Tricolor, Finished, Closed, Covered;
      ghost var m0, scanned: set<int> := marked, {};
      sp, overflow := 0, false;
      assert Stack() == [];
      MarksNothing(cells, reach, marked, [], false, MARK_STACK_MAX);
      AllPending(cells, marked, reach, [], false);
      var i := 0;
      while i < heapsUsed
        invariant 0 <= i <= heapsUsed && StackOk()
        invariant Marks(cells, reach, m0, [], false, marked, Stack(), overflow, MARK_STACK_MAX)
        invariant Tricolor(cells, marked, Objects(cells) - scanned, Stack(), overflow)
        invariant forall k, p :: 0 <= k < i && InPage(heaps[k], p) ==> p in scanned
      {
        scanned := ScanPage(heaps[i], reach, m0, scanned);
        i := i + 1;
      }
      NoneUnscanned(cells, Pages(), scanned);
    }

    /** One page of gc_mark_all. */
    method ScanPage(pg: Page, ghost reach: set<int>, ghost m0: set<int>,
          ghost before: set<int>) returns (ghost scanned: set<int>)
      requires StackOk() && Closed(cells, reach) && m0 <= Objects(cells) && m0 <= reach
      requires Marks(cells, reach, m0, [], false, marked, Stack(), overflow, MARK_STACK_MAX)
      requires Tricolor(cells, marked, Objects(cells) - before, Stack(), overflow)
      modifies this`marked, this`sp, this`overflow, markStack
      ensures StackOk() && before <= scanned && forall p :: InPage(pg, p) ==> p in scanned
      ensures Marks(cells, reach, m0, [], false, marked, Stack(), overflow, MARK_STACK_MAX)
      ensures Tricolor(cells, marked, Objects(cells) - scanned, Stack(), overflow)
    {
      hide Marks, Tricolor, Finished, Closed;
      scanned := before;
      var p, pend := pg.slot, pg.slot + pg.limit;
      while p < pend
        invariant pg.slot <= p <= pend && StackOk() && before <= scanned
        invariant forall k :: pg.slot <= k < p ==> k in scanned
        invariant Marks(cells, reach, m0, [], false, marked, Stack(), overflow, MARK_STACK_MAX)
        invariant Tricolor(cells, marked, Objects(cells) - scanned, Stack(), overflow)
      {
        ghost var rest := Objects(cells) - (scanned + {p});
        ScanStep(cells, marked, scanned, Stack(), overflow, p);
        if p in marked {
          ghost var m1, s1, o1 := marked, Stack(), overflow;
          MarkedInReach(cells, reach, m0, [], false, m1, s1, o1);
          GcMarkChildren(p, 0, reach, rest);
          MarksTwice(cells, reach, m0, [], false, m1, s1, o1, marked, Stack(), overflow, MARK_STACK_MAX);
        }
        scanned := scanned + {p};
        p := p + 1;
      }
    }

    /** gc_mark_rest: process what was on the mark stack from a copy of it. */
    method GcMarkRest(ghost reach: set<int>)
      requires StackOk() && Closed(cells, reach) && marked <= Objects(cells) && marked <= reach
      requires !overflow && (forall i :: 0 <= i < sp ==> Stack()[i] in marked)
      requires Tricolor(cells, marked, {}, Stack(), overflow)
      modifies this`marked, this`sp, this`overflow, markStack
      ensures StackOk()
      ensures Marks(cells, reach, old(marked), [], false, marked, Stack(), overflow, MARK_STACK_MAX)
      ensures Tricolor(cells, marked, {}, Stack(), overflow)
    {
      hide Marks, Tricolor, Finished, Closed;
      ghost var m0, copy := marked, Stack();
      var tmp := new int[MARK_STACK_MAX](
        i requires 0 <= i < MARK_STACK_MAX reads this, markStack requires StackOk() => markStack[i]);
      var p := sp;
      assert tmp[..p] == copy;
      StackPending(cells, marked, copy, overflow);
      sp, overflow := 0, false;
      assert Stack() == [];
      MarksNothing(cells, reach, marked, [], false, MARK_STACK_MAX);
      while p != 0
        invariant 0 <= p <= MARK_STACK_MAX && StackOk() && tmp[..p] == copy[..p]
        invariant forall i :: 0 <= i < |copy| ==> copy[i] in m0
        invariant Marks(cells, reach, m0, [], false, marked, Stack(), overflow, MARK_STACK_MAX)
        invariant Tricolor(cells, marked, Elements(copy[..p]), Stack(), overflow)
        decreases p
      {
        p := p - 1;
        assert tmp[p] == tmp[..p + 1][p] == copy[p];
        assert copy[..p + 1] == copy[..p] + [copy[p]];
        ElementsOf(copy[..p], copy[p]);
        ghost var m1, s1, o1 := marked, Stack(), overflow;
        MarksGrow(cells, reach, m0, [], false, m1, s1, o1);
        GcMarkChildren(tmp[p], 0, reach, Elements(copy[..p]));
        MarksTwice(cells, reach, m0, [], false, m1, s1, o1, marked, Stack(), overflow, MARK_STACK_MAX);
        assert tmp[..p] == copy[..p];
      }
      assert copy[..0] == [];
      assert Elements(copy[..0]) == {};
    }

    /** The invariant of the whole mark phase. */
    ghost predicate Marking(reach: set<int>)
      requires StackOk()
      reads this`cells, this`marked, this`sp, this`overflow, markStack
    {
      && marked <= Objects(cells) && marked <= reach
      && (forall i :: 0 <= i < sp ==> Stack()[i] in marked)
      && (overflow ==> sp == MARK_STACK_MAX)
      && Tricolor(cells, marked, {}, Stack(), overflow)
    }

    ghost function RootSet(): set<int>
      reads this`roots
    {
      Elements(roots)
    }

    /** Mark from the roots. */
    method MarkRoots(ghost reach: set<int>)
      requires StackOk() && Closed(cells, reach) && marked == {} && sp == 0 && !overflow
      requires forall r :: r in RootSet() && IsObject(cells, r) ==> r in reach
      modifies this`marked, this`sp, this`overflow, markStack
      ensures StackOk() && Marking(reach)
      ensures forall r :: r in RootSet() && IsObject(cells, r) ==> r in marked
    {
      hide Marks, Finished, Closed;
      var i := 0;
      while i < |roots|
        invariant 0 <= i <= |roots| && StackOk() && Marking(reach)
        invariant forall k :: 0 <= k < i && IsObject(cells, roots[k]) ==> roots[k] in marked
      {
        assert roots[i] in RootSet();
        ghost var m1, s1, o1 := marked, Stack(), overflow;
        GcMark(roots[i], 0, reach, {});
        StillMarking(cells, reach, m1, s1, o1, marked, Stack(), overflow);
        i := i + 1;
      }
    }

    /**
     * The mark phase of garbage_collect: exactly the reachable objects end up marked, however small
     * the stacks are. Every round marks something new or leaves the mark stack empty.
     */
    method MarkPhase()
      requires StackOk() && marked == {} && heapsUsed <= heaps.Length && Covered(cells, Pages())
      modifies this`marked, this`sp, this`overflow, markStack
      ensures StackOk() && marked == Live(cells, RootSet())
    {
      hide Marks, Finished, Closed, Covered, Live;
      ghost var reach := Live(cells, RootSet());
      LiveIsClosed(cells, RootSet());
      sp, overflow := 0, false;
      MarkRoots(reach);
      ghost var m := marked;
      while sp != 0
        invariant StackOk() && Marking(reach) && m <= marked
        decreases Objects(cells) - marked, sp
      {
        ghost var m1 := marked;
        if overflow {
          GcMarkAll(reach);
        } else {
          GcMarkRest(reach);
        }
        StillMarking(cells, reach, m1, [], false, marked, Stack(), overflow);
        RoundShrinks(cells, reach, m1, marked, Stack(), overflow);
      }
      AllMarked(cells, marked, RootSet(), Stack(), overflow);
    }

    // ---------- sweeping ----------

    /** The cell loop of gc_sweep: free the unmarked cells of a page, unmark the others. */
    method SweepPage(pg: Page) returns (n: nat)
      requires pg.slot + pg.limit <= |cells| && Chain(cells, freelist, free) && Distinct(free)
      requires forall p :: p in free ==> !InPage(pg, p)
      modifies this`cells, this`marked, this`freelist, this`free
      ensures Swept(old(cells), cells, old(marked), pg.slot, pg.slot + pg.limit)
      ensures Pushed(free, old(free), old(marked), pg.slot, pg.slot + pg.limit) && n == |free| - |old(free)|
      ensures n == UnmarkedOn(pg, old(marked))
      ensures Chain(cells, freelist, free) && Distinct(free)
      ensures forall p :: p in marked <==> p in old(marked) && !InPage(pg, p)
    {
      hide Chain, Pushed, Distinct;
      ghost var m0, f0 := marked, free;
      n := 0;
      var p, pend := pg.slot, pg.slot + pg.limit;
      PushedNothing(free, m0, p);
      while p < pend
        invariant pg.slot <= p <= pend && |cells| == |old(cells)|
        invariant Swept(old(cells), cells, m0, pg.slot, p)
        invariant Pushed(free, f0, m0, pg.slot, p) && n == |free| - |f0| == UnmarkedIn(m0, pg.slot, p)
        invariant Chain(cells, freelist, free) && Distinct(free)
        invariant forall q :: q in marked <==> q in m0 && !(pg.slot <= q < p)
      {
        PushedStep(free, f0, m0, pg.slot, p);
        if p !in marked {
          PushedFresh(free, f0, m0, pg.slot, p);
          ChainPush(cells, freelist, free, p);
          cells := cells[p := Free(freelist)];
          freelist := p;
          free := [p] + free;
          n := n + 1;
        } else {
          marked := marked - {p};
        }
        p := p + 1;
      }
    }

    /** The page loop of gc_sweep. */
    method SweepHeap() returns (freed: nat)
      requires heapsUsed <= heaps.Length && PagesOk(cells, Pages())
      modifies this`cells, this`marked, this`freelist, this`free, heaps
      ensures SweptPages(old(cells), old(Pages()), old(marked), heapsUsed, cells, Pages(), marked, free)
      ensures Chain(cells, freelist, free) && Distinct(free) && freed == |free|
      ensures freed == FreedBefore(old(Pages()), old(marked), heapsUsed)
      ensures PagesAfter(old(Pages()), old(marked), heapsUsed, Pages())
    {
      hide Chain, Distinct, Swept, SweptPages, PagesOk, OnPages, UnmarkedOn, GivenUp;
      ghost var c0, pages0, m0 := cells, Pages(), marked;
      NoneSwept(pages0, m0);
      hide FreedBefore, PagesAfter;
      freelist, free, freed := -1, [], 0;
      EmptyChain(cells);
      SweptNoPages(c0, pages0, m0);
      var i := 0;
      while i < heapsUsed
        invariant 0 <= i <= heapsUsed <= heaps.Length
        invariant SweptPages(c0, pages0, m0, i, cells, Pages(), marked, free)
        invariant Chain(cells, freelist, free) && Distinct(free) && freed == |free|
        invariant freed == FreedBefore(pages0, m0, i) && PagesAfter(pages0, m0, i, Pages())
      {
        var last := freelist;
        ghost var c1, p1, m1, f1 := cells, Pages(), marked, free;
        ListElsewhere(c0, pages0, m0, i, c1, p1, m1, f1);
        NextPage(c0, pages0, m0, i, c1, p1, m1, f1);
        NextUnmarked(c0, pages0, m0, i, c1, p1, m1, f1);
        var n := SweepPage(heaps[i]);
        PolicyStep(pages0, m0, i, p1, n, freed);
        if n == heaps[i].limit && freed > FREE_MIN {
          heaps[i] := heaps[i].(limit := 0);
          ListUntouched(c1, cells, m1, pages0[i], last, f1);
          freelist, free := last, f1;
        } else {
          freed := freed + n;
        }
        SweptOneMore(c0, pages0, m0, i, c1, p1, m1, f1, cells, Pages(), marked, free);
        i := i + 1;
      }
    }

    // ---------- pages ----------

    /** malloc: room for n cells that no page in use covers, new or given back before. */
    method Malloc(n: nat) returns (slot: nat)
      requires heapsUsed <= heaps.Length && PagesApart(cells, Pages())
      modifies this`cells
      ensures slot + n <= |cells| && forall p :: slot <= p < slot + n ==> !OnPages(Pages(), p)
      ensures |old(cells)| <= |cells| && cells[..|old(cells)|] == old(cells)
      ensures forall p :: |old(cells)| <= p < |cells| ==> cells[p].Free?
    {
      slot := *;
      if !(forall i :: 0 <= i < heapsUsed ==> slot + n <= heaps[i].slot || heaps[i].slot + heaps[i].limit <= slot) {
        slot := |cells|;
      }
      if |cells| < slot + n {
        cells := cells + seq(slot + n - |cells|, _ => Free(-1));
      }
    }

    /** add_heap: one more page, larger than the one before, all its cells on the free list. */
    method AddHeap()
      requires heapsUsed <= heaps.Length && 0 < heapSlots
      requires PagesApart(cells, Pages()) && Covered(cells, Pages()) && FreeListOk(cells, Pages(), freelist, free)
      modifies this`heaps, this`heapsUsed, this`heapSlots, this`cells, this`freelist, this`free, heaps
      ensures heapsUsed == old(heapsUsed) + 1 <= heaps.Length && (heaps == old(heaps) || fresh(heaps))
      ensures Pages()[..old(heapsUsed)] == old(Pages()) && Pages()[old(heapsUsed)].limit == old(heapSlots)
      ensures heapSlots == old(heapSlots) * 18 / 10
      ensures heaps.Length == old(heaps.Length) + if old(heapsUsed) == old(heaps.Length) then HEAPS_INCREMENT else 0
      ensures SameObjects(old(cells), cells)
      ensures PagesApart(cells, Pages()) && Covered(cells, Pages()) && FreeListOk(cells, Pages(), freelist, free)
      ensures |free| == |old(free)| + old(heapSlots) && freelist >= 0
    {
      hide PagesApart, Covered, Chain, Distinct, OnPages;
      ghost var c0, pages0, f0 := cells, Pages(), free;
      if heapsUsed == heaps.Length {
        var more := new Page[heaps.Length + HEAPS_INCREMENT];
        forall i | 0 <= i < heapsUsed { more[i] := heaps[i]; }
        heaps := more;
      }
      assert Pages() == pages0;
      var slot := Malloc(heapSlots);
      var pg := Page(slot, heapSlots);
      ghost var c1 := cells;
      assert Pages() == pages0;
      NewMemory(c0, c1, pages0, freelist, free, pg);
      heaps[heapsUsed] := pg;
      heapsUsed := heapsUsed + 1;
      assert Pages() == pages0 + [pg];
      heapSlots := heapSlots * 18 / 10;
      LinkPage(pg);
      NewPageListed(c1, cells, pages0, pg, f0, freelist, free);
    }

    /** Put all cells of a new page on the free list. */
    method LinkPage(pg: Page)
      requires pg.slot + pg.limit <= |cells| && 0 < pg.limit && Chain(cells, freelist, free) && Distinct(free)
      requires forall p :: InPage(pg, p) ==> p !in free
      modifies this`cells, this`freelist, this`free
      ensures Chain(cells, freelist, free) && Distinct(free) && freelist >= 0
      ensures |free| == |old(free)| + pg.limit && forall p :: p in free <==> p in old(free) || InPage(pg, p)
      ensures |cells| == |old(cells)|
      ensures forall p :: 0 <= p < |cells| ==> if InPage(pg, p) then cells[p].Free? else cells[p] == old(cells)[p]
    {
      hide Chain, Distinct;
      var p, pend := pg.slot, pg.slot + pg.limit;
      while p < pend
        invariant pg.slot <= p <= pend && |cells| == |old(cells)|
        invariant Chain(cells, freelist, free) && Distinct(free) && (p > pg.slot ==> freelist >= 0)
        invariant |free| == |old(free)| + (p - pg.slot)
        invariant forall q :: q in free <==> q in old(free) || pg.slot <= q < p
        invariant forall q :: 0 <= q < |cells| ==>
                    if pg.slot <= q < p then cells[q].Free? else cells[q] == old(cells)[q]
      {
        ChainPush(cells, freelist, free, p);
        cells := cells[p := Free(freelist)];
        freelist := p;
        free := [p] + free;
        p := p + 1;
      }
    }

    /** free_unused_heaps: drop the given up pages in place, keeping the others in order. */
    method FreeUnusedHeaps()
      requires 1 <= heapsUsed <= heaps.Length
      modifies this`heapsUsed, heaps
      ensures 1 <= heapsUsed <= heaps.Length && Pages() == Packed(old(Pages()), old(heapsUsed))
    {
      ghost var pages, n := Pages(), heapsUsed;
      var i, j := 1, 1;
      while j < heapsUsed
        invariant 1 <= j <= i && j <= heapsUsed <= n <= heaps.Length && i - j == n - heapsUsed
        invariant heaps[..j] == Packed(pages, i)
        invariant forall k :: i <= k < n ==> heaps[k] == pages[k]
        decreases n - i
      {
        if heaps[i].limit == 0 {
          heapsUsed := heapsUsed - 1;
        } else {
          if i != j {
            heaps[j] := heaps[i];
          }
          assert heaps[..j + 1] == heaps[..j] + [pages[i]];
          j := j + 1;
        }
        i := i + 1;
      }
    }

    /** gc_sweep: all marked objects stay, everything else on the kept pages goes to the free list. */
    method GcSweep()
      requires 1 <= heapsUsed <= heaps.Length && 0 < heapSlots
      requires PagesOk(cells, Pages()) && Covered(cells, Pages()) && marked <= Objects(cells)
      modifies this`cells, this`marked, this`freelist, this`free, this`heaps, this`heapsUsed, this`heapSlots, heaps
      ensures 1 <= heapsUsed <= heaps.Length && 0 < heapSlots && (heaps == old(heaps) || fresh(heaps))
      ensures PagesOk(cells, Pages()) && Covered(cells, Pages()) && FreeListOk(cells, Pages(), freelist, free)
      ensures marked == {} && freelist >= 0 && Pages()[0] == old(Pages())[0]
      ensures forall p :: IsObject(cells, p) <==> p in old(marked)
      ensures forall p :: p in old(marked) ==> p < |old(cells)| && cells[p] == old(cells)[p]
      ensures SweepPolicy(old(Pages()), old(marked), old(heapSlots), Pages())
    {
      hide PagesApart, Covered, Chain, Distinct, OnPages, SweptPages, Packed;
      ghost var c0, pages0, m0 := cells, Pages(), marked;
      var freed := SweepHeap();
      ghost var swept := Pages();
      SweptApart(c0, pages0, m0, cells, Pages(), marked, free);
      if freed < FREE_MIN {
        AddHeap();
      } else {
        NotEmpty(cells, freelist, free);
      }
      ghost var pages := Pages();
      FreeUnusedHeaps();
      Policy(pages0, m0, swept, old(heapSlots), pages);
      PackedApart(cells, pages, |pages|);
      PackedListed(cells, pages, freelist, free);
    }

    // ---------- collecting and allocating ----------

    /** What holds between operations. */
    ghost predicate Valid()
      reads this, heaps, markStack
    {
      && StackOk() && marked == {} && 1 <= heapsUsed <= heaps.Length && 0 < heapSlots
      && PagesOk(cells, Pages()) && Covered(cells, Pages()) && FreeListOk(cells, Pages(), freelist, free)
    }

    ghost function Memory(): Mem
      reads this`cells, this`roots
    {
      Mem(cells, RootSet())
    }

    /** Init_heap: one page. */
    constructor ()
      ensures Valid() && fresh(heaps) && fresh(markStack) && Safe(Memory())
      ensures cells[..] == cells && Objects(cells) == {} && roots == [] && !dontGc
    {
      cells, marked, roots, free, freelist := [], {}, [], [], -1;
      heapsUsed, heapSlots, sp, overflow, dontGc := 0, HEAP_MIN_SLOTS, 0, false, false;
      heaps := new Page[0];
      markStack := new int[MARK_STACK_MAX];
      new;
      AddHeap();
    }

    /** garbage_collect: exactly the reachable objects survive, unchanged, and some cell is free. */
    method GarbageCollect()
      requires Valid()
      modifies this`cells, this`marked, this`freelist, this`free, this`heaps, this`heapsUsed, this`heapSlots, heaps,
               this`sp, this`overflow, markStack
      ensures Valid() && (heaps == old(heaps) || fresh(heaps))
      ensures freelist >= 0
      ensures Next(old(Memory()), Collect, Memory())
      ensures !dontGc ==> Objects(cells) == Live(old(cells), RootSet())
    {
      hide PagesApart, Covered, FreeListOk, Live;
      ghost var s, pages := Memory(), Pages();
      LiveObjects(s);
      if dontGc {
        if freelist < 0 {
          AddHeap();
          assert forall i :: 0 <= i < |pages| ==> Pages()[i] == Pages()[..|pages|][i];
        }
        return;
      }
      MarkPhase();
      GcSweep();
    }

    /** rb_newobj: a cleared cell that is not in use. */
    method NewObj() returns (obj: int)
      requires Valid()
      modifies this`cells, this`marked, this`freelist, this`free, this`heaps, this`heapsUsed, this`heapSlots, heaps,
               this`sp, this`overflow, markStack, this`roots
      ensures Valid() && (heaps == old(heaps) || fresh(heaps))
      ensures Next(old(Memory()), New(obj), Memory()) && roots == old(roots) + [obj]
      ensures 0 <= obj < |cells| && cells[obj] == Object(Body([], -1, 0))
    {
      hide PagesOk, Covered, FreeListOk, Live, Next;
      ghost var s := Memory();
      CollectNothing(s);
      if freelist < 0 {
        GarbageCollect();
      }
      ghost var c1 := cells;
      Allocated(cells, Pages(), freelist, free, Object(BLANK));
      obj := freelist;
      freelist := cells[obj].next;
      free := free[1..];
      cells := cells[obj := Object(BLANK)];
      ElementsOf(roots, obj);
      roots := roots + [obj];
      TakeFree(s, c1, obj, Memory());
    }

    /** rb_gc_enable and rb_gc_disable. */
    method Switch(off: bool)
      requires Valid()
      modifies this`dontGc
      ensures Valid() && dontGc == off
    {
      dontGc := off;
    }

    /** The machine stack or a global holds something else. */
    method SetRoots(rs: seq<int>)
      requires Valid()
      modifies this`roots
      ensures Valid() && roots == rs
    {
      roots := rs;
    }

    /** A user stores into an object. */
    method Store(obj: int, body: Body)
      requires Valid() && obj in Live(cells, RootSet()) && forall r :: Refers(body, r) ==> Known(Memory(), r)
      modifies this`cells
      ensures Valid() && Next(old(Memory()), Write(obj, body), Memory())
      ensures cells == old(cells)[obj := Object(body)]
    {
      LiveObjects(Memory());
      Rewritten(cells, Pages(), freelist, free, obj, Object(body));
      cells := cells[obj := Object(body)];
    }
  }

  lemma MarksGrow(cells: seq<RValue>, reach: set<int>, m0: set<int>, s0: seq<int>, o0: bool, m1: set<int>,
        s1: seq<int>, o1: bool)
    requires Marks(cells, reach, m0, s0, o0, m1, s1, o1, MARK_STACK_MAX)
    ensures m0 <= m1 && Objects(cells) - m1 <= Objects(cells) - m0
  {
  }

  /** The references of p before position n are marked. */
  ghost predicate SlotsMarked(cells: seq<RValue>, marked: set<int>, p: int, n: nat)
    requires IsObject(cells, p) && n <= |cells[p].body.slots|
  {
    forall i :: 0 <= i < n && IsObject(cells, cells[p].body.slots[i].ref) ==> cells[p].body.slots[i].ref in marked
  }

  lemma SlotInReach(cells: seq<RValue>, reach: set<int>, p: int, i: nat)
    requires Closed(cells, reach) && p in reach && IsObject(cells, p) && i < |cells[p].body.slots|
    ensures IsObject(cells, cells[p].body.slots[i].ref) ==> cells[p].body.slots[i].ref in reach
  {
    if IsObject(cells, cells[p].body.slots[i].ref) { assert Edge(cells, p, cells[p].body.slots[i].ref); }
  }

  /** A new mark is pending until its references are done. */
  lemma NewMark(cells: seq<RValue>, m: set<int>, pending: set<int>, s: seq<int>, o: bool, p: int)
    requires Tricolor(cells, m, pending, s, o)
    ensures Tricolor(cells, m + {p}, pending + {p}, s, o)
    ensures Tricolor(cells, m + {p}, pending, s + [p], o)
  {
    if !o {
      forall q | q in m + {p} && q !in pending + {p} && q !in s ensures Finished(cells, m + {p}, q) {
        FinishedStays(cells, m, m + {p}, q);
      }
    }
  }

  /** Marks made below a new mark, seen from before it. */
  lemma AfterOneMark(cells: seq<RValue>, reach: set<int>, m0: set<int>, s: seq<int>, o: bool, p: int, m1: set<int>,
        s1: seq<int>, o1: bool)
    requires Marks(cells, reach, m0 + {p}, s, o, m1, s1, o1, MARK_STACK_MAX) && p !in m0 && p in reach
    requires IsObject(cells, p)
    ensures Marks(cells, reach, m0, s, o, m1, s1, o1, MARK_STACK_MAX)
  {
  }

  /** The last reference is no object or marked already: the object is finished. */
  lemma LastMarked(cells: seq<RValue>, m: set<int>, pending: set<int>, s: seq<int>, o: bool, p: int)
    requires IsObject(cells, p) && SlotsMarked(cells, m, p, |cells[p].body.slots|)
    requires IsObject(cells, cells[p].body.tail) ==> cells[p].body.tail in m
    requires Tricolor(cells, m, pending + {p}, s, o)
    ensures Finished(cells, m, p) && Tricolor(cells, m, pending, s, o)
  {
    forall q | Edge(cells, p, q) ensures q in m {
      if q != cells[p].body.tail {
        var i :| 0 <= i < |cells[p].body.slots| && cells[p].body.slots[i].ref == q;
      }
    }
  }

  /** The last reference is marked and gone on with: the object is finished, its tail pending. */
  lemma GoOn(cells: seq<RValue>, reach: set<int>, m: set<int>, pending: set<int>, s: seq<int>, o: bool, p: int,
        tail: int)
    requires IsObject(cells, p) && SlotsMarked(cells, m, p, |cells[p].body.slots|) && tail == cells[p].body.tail
    requires IsObject(cells, tail) && tail !in m && p in reach && Closed(cells, reach) && |s| <= MARK_STACK_MAX
    requires Tricolor(cells, m, pending + {p}, s, o)
    ensures tail in reach && Tricolor(cells, m + {tail}, pending + {tail}, s, o)
    ensures Marks(cells, reach, m, s, o, m + {tail}, s, o, MARK_STACK_MAX)
  {
    assert Edge(cells, p, tail);
    NewMark(cells, m, pending + {p}, s, o, tail);
    assert pending + {p} + {tail} == pending + {tail} + {p};
    LastMarked(cells, m + {tail}, pending + {tail}, s, o, p);
    assert s[..|s|] == s;
  }

  /** At the start of a scan everything marked is still to be scanned. */
  lemma AllPending(cells: seq<RValue>, m: set<int>, reach: set<int>, s: seq<int>, o: bool)
    requires m <= Objects(cells)
    ensures Tricolor(cells, m, Objects(cells) - {}, s, o)
  {
  }

  lemma NoneUnscanned(cells: seq<RValue>, pages: seq<Page>, scanned: set<int>)
    requires Covered(cells, pages)
    requires forall k, p :: 0 <= k < |pages| && InPage(pages[k], p) ==> p in scanned
    ensures Objects(cells) - scanned == {}
  {
    forall p | p in Objects(cells) ensures p in scanned {
      assert IsObject(cells, p);
    }
  }

  /** Passing over p: it is either marked, and then gone through, or not marked yet. */
  lemma ScanStep(cells: seq<RValue>, m: set<int>, scanned: set<int>, s: seq<int>, o: bool, p: int)
    requires Tricolor(cells, m, Objects(cells) - scanned, s, o)
    ensures Tricolor(cells, m, Objects(cells) - (scanned + {p}) + {p}, s, o)
    ensures p !in m ==> Tricolor(cells, m, Objects(cells) - (scanned + {p}), s, o)
  {
  }

  lemma MarkedInReach(cells: seq<RValue>, reach: set<int>, m0: set<int>, s0: seq<int>, o0: bool, m1: set<int>,
        s1: seq<int>, o1: bool)
    requires Marks(cells, reach, m0, s0, o0, m1, s1, o1, MARK_STACK_MAX) && m0 <= Objects(cells) && m0 <= reach
    ensures m1 <= Objects(cells) && m1 <= reach
  {
  }

  ghost function Elements(s: seq<int>): set<int> {
    set i | 0 <= i < |s| :: s[i]
  }

  lemma ElementsOf(s: seq<int>, x: int)
    ensures Elements(s + [x]) == Elements(s) + {x}
  {
    assert forall i :: 0 <= i < |s| ==> (s + [x])[i] == s[i];
    assert (s + [x])[|s|] == x;
    forall y | y in Elements(s) + {x} ensures y in Elements(s + [x]) {
      if y in Elements(s) {
        var i :| 0 <= i < |s| && s[i] == y;
        assert (s + [x])[i] == y;
      }
    }
  }

  /** Moving the stack's contents to the copy moves them from the stack to the pending objects. */
  lemma StackPending(cells: seq<RValue>, m: set<int>, s: seq<int>, o: bool)
    requires Tricolor(cells, m, {}, s, o) && !o
    ensures Tricolor(cells, m, Elements(s[..|s|]), [], o)
  {
    assert s[..|s|] == s;
  }

  lemma StillMarking(cells: seq<RValue>, reach: set<int>, m0: set<int>, s0: seq<int>, o0: bool, m1: set<int>,
        s1: seq<int>, o1: bool)
    requires Marks(cells, reach, m0, s0, o0, m1, s1, o1, MARK_STACK_MAX) && m0 <= Objects(cells) && m0 <= reach
    requires (forall i :: 0 <= i < |s0| ==> s0[i] in m0) && (o0 ==> |s0| == MARK_STACK_MAX)
    ensures m0 <= m1 <= Objects(cells) && m1 <= reach
    ensures (forall i :: 0 <= i < |s1| ==> s1[i] in m1) && (o1 ==> |s1| == MARK_STACK_MAX)
  {
    forall i | 0 <= i < |s1| ensures s1[i] in m1 {
      if i < |s0| { assert s1[i] == s1[..|s0|][i] == s0[i]; }
    }
  }

  /** A round that marks nothing pushes nothing. */
  lemma RoundShrinks(cells: seq<RValue>, reach: set<int>, m0: set<int>, m1: set<int>, s1: seq<int>, o1: bool)
    requires Marks(cells, reach, m0, [], false, m1, s1, o1, MARK_STACK_MAX) && m1 <= Objects(cells)
    ensures Objects(cells) - m1 <= Objects(cells) - m0
    ensures Objects(cells) - m1 == Objects(cells) - m0 ==> |s1| == 0
  {
    if Objects(cells) - m1 == Objects(cells) - m0 {
      assert forall p :: p in m1 && p !in m0 ==> p in Objects(cells) - m0;
    }
  }

  /** An empty mark stack without overflow: the marks are closed, hence hold everything reachable. */
  lemma AllMarked(cells: seq<RValue>, m: set<int>, roots: set<int>, s: seq<int>, o: bool)
    requires Tricolor(cells, m, {}, s, o) && s == [] && !o && m <= Live(cells, roots)
    requires forall r :: r in roots && IsObject(cells, r) ==> r in m
    ensures m == Live(cells, roots)
  {
    assert Closed(cells, m) by {
      forall p, q | p in m && Edge(cells, p, q) ensures q in m {
        assert Finished(cells, m, p);
      }
    }
    LiveIsLeast(cells, roots, m);
  }

  lemma PushedNothing(f: seq<int>, m: set<int>, p: nat)
    ensures Pushed(f, f, m, p, p)
  {
    assert f[0..] == f;
  }

  lemma PushedFresh(fs: seq<int>, f0: seq<int>, m: set<int>, lo: nat, hi: nat)
    requires Pushed(fs, f0, m, lo, hi) && hi !in f0
    ensures hi !in fs
  {
  }

  lemma EmptyChain(cells: seq<RValue>)
    ensures Chain(cells, -1, []) && Distinct([])
  {
  }

  lemma NextPage(c0: seq<RValue>, pages0: seq<Page>, m0: set<int>, i: nat,
                 cells: seq<RValue>, pages: seq<Page>, marked: set<int>, fs: seq<int>)
    requires SweptPages(c0, pages0, m0, i, cells, pages, marked, fs) && i < |pages| && PagesOk(c0, pages0)
    ensures pages[i] == pages0[i] && 0 < pages[i].limit && pages[i].slot + pages[i].limit <= |cells|
  {
  }

  /** Taking a page back from the free list: the list it was pushed on is still linked. */
  lemma ListUntouched(before: seq<RValue>, after: seq<RValue>, m: set<int>, pg: Page, head: int, fs: seq<int>)
    requires Swept(before, after, m, pg.slot, pg.slot + pg.limit) && Chain(before, head, fs)
    requires forall p :: p in fs ==> !InPage(pg, p)
    ensures Chain(after, head, fs)
  {
    ChainStays(before, after, head, fs);
  }

  /**
   * The pages after a sweep: what is left of the old ones when those to be given up are dropped, and a
   * new one when too few cells were freed.
   */
  ghost predicate SweepPolicy(pages0: seq<Page>, marked: set<int>, slots: nat, pages: seq<Page>) {
    exists swept: seq<Page> :: PagesAfter(pages0, marked, |pages0|, swept)
      && if FreedBefore(pages0, marked, |pages0|) >= FREE_MIN then pages == Packed(swept, |swept|)
         else exists pg: Page :: pg.limit == slots && pages == Packed(swept + [pg], |swept| + 1)
  }

  lemma Policy(pages0: seq<Page>, marked: set<int>, swept: seq<Page>, slots: nat, pages: seq<Page>)
    requires PagesAfter(pages0, marked, |pages0|, swept)
    requires if FreedBefore(pages0, marked, |pages0|) >= FREE_MIN then pages == swept
             else |pages| == |swept| + 1 && pages[..|swept|] == swept && pages[|swept|].limit == slots
    ensures SweepPolicy(pages0, marked, slots, Packed(pages, |pages|))
  {
    if FreedBefore(pages0, marked, |pages0|) < FREE_MIN {
      assert pages == swept + [pages[|swept|]];
    }
  }

  /** The objects of both memories are the same. */
  ghost predicate SameObjects(before: seq<RValue>, after: seq<RValue>) {
    forall p :: if IsObject(before, p) then IsObject(after, p) && after[p] == before[p] else !IsObject(after, p)
  }

  /** Memory from malloc does not disturb pages and list. */
  lemma NewMemory(c0: seq<RValue>, c1: seq<RValue>, pages: seq<Page>, head: int, fs: seq<int>, pg: Page)
    requires PagesApart(c0, pages) && Covered(c0, pages) && FreeListOk(c0, pages, head, fs)
    requires |c0| <= |c1| && c1[..|c0|] == c0 && forall p :: |c0| <= p < |c1| ==> c1[p].Free?
    requires pg.slot + pg.limit <= |c1| && forall p :: InPage(pg, p) ==> !OnPages(pages, p)
    ensures PagesApart(c1, pages) && Covered(c1, pages) && FreeListOk(c1, pages, head, fs) && SameObjects(c0, c1)
    ensures forall p :: InPage(pg, p) ==> p !in fs && !IsObject(c1, p)
  {
    forall p | 0 <= p < |c0| ensures c1[p] == c0[p] { assert c1[..|c0|][p] == c1[p]; }
    ChainStays(c0, c1, head, fs);
    assert forall p :: IsObject(c1, p) <==> IsObject(c0, p);
  }

  /** The linked page joins the others. */
  lemma NewPageListed(c1: seq<RValue>, c2: seq<RValue>, pages: seq<Page>, pg: Page, f0: seq<int>, head: int,
        fs: seq<int>)
    requires PagesApart(c1, pages) && Covered(c1, pages) && |c1| == |c2| && pg.slot + pg.limit <= |c1|
    requires forall p :: p in f0 <==> OnPages(pages, p) && !IsObject(c1, p)
    requires forall p :: InPage(pg, p) ==> !OnPages(pages, p) && !IsObject(c1, p)
    requires forall p :: 0 <= p < |c1| ==> if InPage(pg, p) then c2[p].Free? else c2[p] == c1[p]
    requires Chain(c2, head, fs) && Distinct(fs) && forall p :: p in fs <==> p in f0 || InPage(pg, p)
    ensures PagesApart(c2, pages + [pg]) && Covered(c2, pages + [pg]) && FreeListOk(c2, pages + [pg], head, fs)
    ensures SameObjects(c1, c2)
  {
    hide Chain, Distinct;
    OnNewPage(c1, pages, pg);
    assert forall p :: IsObject(c2, p) <==> IsObject(c1, p);
  }

  lemma NotEmpty(cells: seq<RValue>, head: int, fs: seq<int>)
    requires Chain(cells, head, fs) && fs != []
    ensures head >= 0
  {
  }

  /** Dropping the given up pages loses no cell. */
  lemma PackedListed(cells: seq<RValue>, pages: seq<Page>, head: int, fs: seq<int>)
    requires Covered(cells, pages) && FreeListOk(cells, pages, head, fs)
    ensures Covered(cells, Packed(pages, |pages|)) && FreeListOk(cells, Packed(pages, |pages|), head, fs)
  {
    hide Chain, Distinct, Packed;
    assert pages[..|pages|] == pages;
    forall p ensures OnPages(Packed(pages, |pages|), p) <==> OnPages(pages, p) {
      PackedCovers(pages, |pages|, p);
    }
  }

  /** A free cell taken after a collection, or right away, was not in use before it. */
  lemma TakeFree(s: Mem, c1: seq<RValue>, obj: int, t: Mem)
    requires Next(s, Collect, Mem(c1, s.roots)) && 0 <= obj < |c1| && c1[obj].Free?
    requires t == Mem(c1[obj := Object(BLANK)], s.roots + {obj})
    ensures Next(s, New(obj), t)
  {
  }

  lemma CollectNothing(s: Mem)
    ensures Next(s, Collect, s)
  {
    LiveObjects(s);
  }

  /** The first free cell becomes an object; pages and the rest of the list are as before. */
  lemma Allocated(cells: seq<RValue>, pages: seq<Page>, head: int, fs: seq<int>, v: RValue)
    requires PagesOk(cells, pages) && Covered(cells, pages) && FreeListOk(cells, pages, head, fs) && head >= 0
    requires v.Object?
    ensures 0 <= head < |cells| && cells[head].Free? && fs != []
    ensures PagesOk(cells[head := v], pages) && Covered(cells[head := v], pages)
    ensures FreeListOk(cells[head := v], pages, cells[head].next, fs[1..])
  {
    ChainPop(cells, head, fs, v);
    hide Chain, Distinct, OnPages;
    assert fs == [head] + fs[1..];
    assert head in fs;
  }

  /** Changing the body of an object changes nothing for pages and list. */
  lemma Rewritten(cells: seq<RValue>, pages: seq<Page>, head: int, fs: seq<int>, obj: int, v: RValue)
    requires PagesOk(cells, pages) && Covered(cells, pages) && FreeListOk(cells, pages, head, fs)
    requires IsObject(cells, obj) && v.Object?
    ensures PagesOk(cells[obj := v], pages) && Covered(cells[obj := v], pages)
    ensures FreeListOk(cells[obj := v], pages, head, fs)
  {
    assert forall p :: IsObject(cells[obj := v], p) <==> IsObject(cells, p);
    ChainStays(cells, cells[obj := v], head, fs);
  }
}
