/** The free list threaded through free cells, and the pages the cells live on. */
module GcFreeList {
  import opened GcGraph

  /** struct heaps_slot: limit cells starting at address slot. */
  datatype Page = Page(slot: nat, limit: nat)

  predicate InPage(pg: Page, p: int) {
    pg.slot <= p < pg.slot + pg.limit
  }

  ghost predicate OnPages(pages: seq<Page>, p: int) {
    exists i :: 0 <= i < |pages| && InPage(pages[i], p)
  }

  /** Every object lies in one of the pages. */
  ghost predicate Covered(cells: seq<RValue>, pages: seq<Page>) {
    forall p :: IsObject(cells, p) ==> OnPages(pages, p)
  }

  /** Pages are inside memory and disjoint. */
  ghost predicate PagesApart(cells: seq<RValue>, pages: seq<Page>) {
    && (forall i :: 0 <= i < |pages| ==> pages[i].slot + pages[i].limit <= |cells|)
    && (forall i, j, p :: 0 <= i < j < |pages| && InPage(pages[i], p) ==> !InPage(pages[j], p))
  }

  /** Pages are nonempty, inside memory and disjoint. */
  ghost predicate PagesOk(cells: seq<RValue>, pages: seq<Page>) {
    (forall i :: 0 <= i < |pages| ==> 0 < pages[i].limit) && PagesApart(cells, pages)
  }

  // ---------- the list ----------

  /** The cells fs, in this order, are linked from head on. */
  ghost predicate Chain(cells: seq<RValue>, head: int, fs: seq<int>)
    decreases |fs|
  {
    if fs == [] then head == -1
    else head == fs[0] && 0 <= head < |cells| && cells[head].Free? && Chain(cells, cells[head].next, fs[1..])
  }

  ghost predicate Distinct(fs: seq<int>) {
    forall i, j :: 0 <= i < j < |fs| ==> fs[i] != fs[j]
  }

  /** The list depends on its own cells only. */
  lemma {:induction false} ChainStays(cells: seq<RValue>, next: seq<RValue>, head: int, fs: seq<int>)
    requires Chain(cells, head, fs) && |cells| <= |next|
    requires forall p :: p in fs && 0 <= p < |cells| ==> next[p] == cells[p]
    ensures Chain(next, head, fs)
    decreases |fs|
  {
    if fs != [] { ChainStays(cells, next, cells[head].next, fs[1..]); }
  }

  /** Put a cell in front of the list. */
  lemma ChainPush(cells: seq<RValue>, head: int, fs: seq<int>, p: int)
    requires Chain(cells, head, fs) && Distinct(fs) && 0 <= p < |cells| && p !in fs
    ensures Chain(cells[p := Free(head)], p, [p] + fs) && Distinct([p] + fs)
  {
    ChainStays(cells, cells[p := Free(head)], head, fs);
    assert ([p] + fs)[1..] == fs;
  }

  /** Take the first cell off the list and use it for an object. */
  lemma ChainPop(cells: seq<RValue>, head: int, fs: seq<int>, v: RValue)
    requires Chain(cells, head, fs) && Distinct(fs) && fs != []
    ensures cells[head].Free? && Chain(cells[head := v], cells[head].next, fs[1..]) && Distinct(fs[1..])
    ensures head !in fs[1..]
  {
    forall i | 0 <= i < |fs[1..]| ensures fs[1..][i] != head { assert fs[1..][i] == fs[i + 1]; }
    forall i, j | 0 <= i < j < |fs[1..]| ensures fs[1..][i] != fs[1..][j] {
      assert fs[i + 1] != fs[j + 1];
    }
    ChainStays(cells, cells[head := v], cells[head].next, fs[1..]);
  }

  lemma {:induction false} ChainFree(cells: seq<RValue>, head: int, fs: seq<int>, p: int)
    requires Chain(cells, head, fs) && p in fs
    ensures 0 <= p < |cells| && cells[p].Free?
    decreases |fs|
  {
    if p != fs[0] { ChainFree(cells, cells[head].next, fs[1..], p); }
  }

  /** The free list is acyclic and holds each free cell of the pages exactly once. */
  ghost predicate FreeListOk(cells: seq<RValue>, pages: seq<Page>, head: int, fs: seq<int>) {
    && Chain(cells, head, fs) && Distinct(fs)
    && forall p :: p in fs <==> OnPages(pages, p) && !IsObject(cells, p)
  }

  // ---------- sweeping, as a relation on cells ----------

  /** Cells from lo to hi are swept: unmarked ones are free, marked ones untouched. Other cells are as before. */
  ghost predicate Swept(before: seq<RValue>, after: seq<RValue>, marked: set<int>, lo: nat, hi: nat) {
    && |before| == |after|
    && (forall p :: 0 <= p < |before| && !(lo <= p < hi) ==> after[p] == before[p])
    && (forall p :: lo <= p < hi && p < |before| ==> if p in marked then after[p] == before[p] else after[p].Free?)
  }

  /** The list fs is f0 with the unmarked cells from lo to hi pushed in front. */
  ghost predicate Pushed(fs: seq<int>, f0: seq<int>, marked: set<int>, lo: nat, hi: nat) {
    && (forall p :: p in fs <==> p in f0 || (lo <= p < hi && p !in marked))
    && |f0| <= |fs| <= |f0| + (hi - lo)
    && fs[|fs| - |f0|..] == f0
    && (|fs| == |f0| + (hi - lo) <==> forall p :: lo <= p < hi ==> p !in marked)
  }

  lemma PushedStep(fs: seq<int>, f0: seq<int>, marked: set<int>, lo: nat, hi: nat)
    requires lo <= hi && Pushed(fs, f0, marked, lo, hi)
    ensures Pushed(if hi in marked then fs else [hi] + fs, f0, marked, lo, hi + 1)
  {
    var next := if hi in marked then fs else [hi] + fs;
    forall p ensures p in next <==> p in f0 || (lo <= p < hi + 1 && p !in marked) {
      if hi !in marked {
        assert p in next <==> p == hi || p in fs by {
          assert next[0] == hi && next[1..] == fs;
        }
      }
    }
    assert next[|next| - |f0|..] == fs[|fs| - |f0|..];
    if |next| == |f0| + (hi + 1 - lo) {
      assert hi !in marked;
    }
  }

  // ---------- which pages are given up ----------

  const FREE_MIN: nat := 4096

  /** The number of unmarked cells from lo to hi. */
  function UnmarkedIn(marked: set<int>, lo: nat, hi: nat): (n: nat)
    requires lo <= hi
    ensures n <= hi - lo
    decreases hi
  {
    if lo == hi then 0 else UnmarkedIn(marked, lo, hi - 1) + if hi - 1 in marked then 0 else 1
  }

  /** The cells freed on the pages before i that are kept. */
  function FreedBefore(pages: seq<Page>, marked: set<int>, i: nat): nat
    requires i <= |pages|
    decreases i, 0
  {
    if i == 0 then 0
    else FreedBefore(pages, marked, i - 1)
         + if GivenUp(pages, marked, i - 1) then 0 else UnmarkedOn(pages[i - 1], marked)
  }

  function UnmarkedOn(pg: Page, marked: set<int>): nat {
    UnmarkedIn(marked, pg.slot, pg.slot + pg.limit)
  }

  /** A page without a marked cell is given up when enough cells were freed on the pages before it. */
  predicate GivenUp(pages: seq<Page>, marked: set<int>, i: nat)
    requires i < |pages|
    decreases i, 1
  {
    UnmarkedOn(pages[i], marked) == pages[i].limit && FreedBefore(pages, marked, i) > FREE_MIN
  }

  lemma {:induction false} UnmarkedFrame(m0: set<int>, m1: set<int>, lo: nat, hi: nat)
    requires lo <= hi && forall p :: lo <= p < hi ==> (p in m0 <==> p in m1)
    ensures UnmarkedIn(m0, lo, hi) == UnmarkedIn(m1, lo, hi)
    decreases hi
  {
    if lo < hi { UnmarkedFrame(m0, m1, lo, hi - 1); }
  }

  /** The marks on the next page are still those from before the sweep. */
  lemma NextUnmarked(c0: seq<RValue>, pages0: seq<Page>, m0: set<int>, i: nat,
                     cells: seq<RValue>, pages: seq<Page>, marked: set<int>, fs: seq<int>)
    requires SweptPages(c0, pages0, m0, i, cells, pages, marked, fs) && i < |pages| && PagesOk(c0, pages0)
    ensures UnmarkedOn(pages0[i], marked) == UnmarkedOn(pages0[i], m0)
  {
    PageNotSeen(c0, pages0, i);
    UnmarkedFrame(m0, marked, pages0[i].slot, pages0[i].slot + pages0[i].limit);
  }

  // ---------- sweeping page after page ----------

  /** A page is as it was, or given up: never page 0, and only without a marked cell. */
  ghost predicate KeptOrEmpty(pg0: Page, pg: Page, index: nat, marked: set<int>) {
    pg == pg0 || (0 < index && pg == Page(pg0.slot, 0) && forall p :: InPage(pg0, p) ==> p !in marked)
  }

  /** Of the pages before i, exactly those that are to be given up have no cells any more. */
  ghost predicate PagesAfter(pages0: seq<Page>, marked: set<int>, i: nat, pages: seq<Page>) {
    && i <= |pages0| == |pages|
    && forall j :: 0 <= j < i ==> pages[j] == if GivenUp(pages0, marked, j) then Page(pages0[j].slot, 0) else pages0[j]
  }

  lemma NoneSwept(pages0: seq<Page>, m0: set<int>)
    ensures FreedBefore(pages0, m0, 0) == 0 && PagesAfter(pages0, m0, 0, pages0)
  {
  }

  lemma PolicyStep(pages0: seq<Page>, m0: set<int>, i: nat, pages: seq<Page>, n: nat, freed: nat)
    requires i < |pages0| && PagesAfter(pages0, m0, i, pages) && freed == FreedBefore(pages0, m0, i)
    requires n == UnmarkedOn(pages0[i], m0) && pages[i] == pages0[i]
    ensures if n == pages0[i].limit && freed > FREE_MIN
            then FreedBefore(pages0, m0, i + 1) == freed
                 && PagesAfter(pages0, m0, i + 1, pages[i := Page(pages0[i].slot, 0)])
            else FreedBefore(pages0, m0, i + 1) == freed + n && PagesAfter(pages0, m0, i + 1, pages)
  {
  }

  /** The pages before i are swept. */
  ghost predicate SweptPages(c0: seq<RValue>, pages0: seq<Page>, m0: set<int>, i: nat,
                             cells: seq<RValue>, pages: seq<Page>, marked: set<int>, fs: seq<int>) {
    && |pages| == |pages0| && |cells| == |c0| && i <= |pages|
    && (forall j :: 0 <= j < i ==> KeptOrEmpty(pages0[j], pages[j], j, m0))
    && (forall j :: i <= j < |pages| ==> pages[j] == pages0[j])
    && (forall p :: p in fs <==> OnPages(pages[..i], p) && p !in m0)
    && (forall p :: 0 <= p < |cells| ==>
          if p !in m0 && OnPages(pages0[..i], p) then cells[p].Free? else cells[p] == c0[p])
    && (forall p :: p in marked <==> p in m0 && !OnPages(pages0[..i], p))
  }

  lemma OnOneMore(pages: seq<Page>, i: nat, p: int)
    requires i < |pages|
    ensures OnPages(pages[..i + 1], p) <==> OnPages(pages[..i], p) || InPage(pages[i], p)
  {
    if OnPages(pages[..i], p) {
      var j :| 0 <= j < i && InPage(pages[..i][j], p);
      assert InPage(pages[..i + 1][j], p);
    }
    if InPage(pages[i], p) { assert InPage(pages[..i + 1][i], p); }
  }

  lemma SweptNoPages(c0: seq<RValue>, pages: seq<Page>, m0: set<int>)
    ensures SweptPages(c0, pages, m0, 0, c0, pages, m0, [])
  {
  }

  /** The list so far does not touch the next page. */
  lemma ListElsewhere(c0: seq<RValue>, pages0: seq<Page>, m0: set<int>, i: nat,
                      cells: seq<RValue>, pages: seq<Page>, marked: set<int>, fs: seq<int>)
    requires SweptPages(c0, pages0, m0, i, cells, pages, marked, fs) && i < |pages| && PagesOk(c0, pages0)
    ensures forall p :: p in fs ==> !InPage(pages[i], p)
  {
    forall p | p in fs ensures !InPage(pages[i], p) {
      var j :| 0 <= j < i && InPage(pages[..i][j], p);
      assert KeptOrEmpty(pages0[j], pages[j], j, m0);
    }
  }

  /** One more page swept; it is kept with its free cells on the list, or given up with the list as before. */
  lemma SweptOneMore(c0: seq<RValue>, pages0: seq<Page>, m0: set<int>, i: nat,
                     c1: seq<RValue>, p1: seq<Page>, m1: set<int>, f1: seq<int>,
                     c2: seq<RValue>, p2: seq<Page>, m2: set<int>, f2: seq<int>)
    requires SweptPages(c0, pages0, m0, i, c1, p1, m1, f1) && i < |p1| && PagesOk(c0, pages0)
    requires var pg := pages0[i];
             Swept(c1, c2, m1, pg.slot, pg.slot + pg.limit)
             && (forall p :: p in m2 <==> p in m1 && !InPage(pg, p))
             && if |p2| == |p1| && p2[i] == pg then p2 == p1 && Pushed(f2, f1, m1, pg.slot, pg.slot + pg.limit)
                else 0 < i && p2 == p1[i := Page(pg.slot, 0)] && f2 == f1 && forall p :: InPage(pg, p) ==> p !in m1
    ensures SweptPages(c0, pages0, m0, i + 1, c2, p2, m2, f2)
  {
    var pg := pages0[i];
    assert p2[..i] == p1[..i];
    PageNotSeen(c0, pages0, i);
    forall p ensures p in m2 <==> p in m0 && !OnPages(pages0[..i + 1], p) { OnOneMore(pages0, i, p); }
    forall p ensures p in f2 <==> OnPages(p2[..i + 1], p) && p !in m0 {
      OnOneMore(p2, i, p);
      if InPage(pg, p) { assert p in m1 <==> p in m0; }
    }
    forall p | 0 <= p < |c2|
      ensures if p !in m0 && OnPages(pages0[..i + 1], p) then c2[p].Free? else c2[p] == c0[p]
    {
      OnOneMore(pages0, i, p);
    }
    forall j | 0 <= j < i + 1 ensures KeptOrEmpty(pages0[j], p2[j], j, m0) {
      if j < i { assert KeptOrEmpty(pages0[j], p1[j], j, m0); }
    }
  }

  lemma PageNotSeen(c0: seq<RValue>, pages: seq<Page>, i: nat)
    requires PagesOk(c0, pages) && i < |pages|
    ensures forall p :: OnPages(pages[..i], p) ==> !InPage(pages[i], p)
  {
    forall p | OnPages(pages[..i], p) ensures !InPage(pages[i], p) {
      var j :| 0 <= j < i && InPage(pages[..i][j], p);
      assert InPage(pages[j], p);
    }
  }

  // ---------- giving pages back, adding a page ----------

  /** The pages before n that free_unused_heaps keeps: page 0, and those not given up. */
  ghost function Packed(pages: seq<Page>, n: nat): seq<Page>
    requires n <= |pages|
  {
    if n == 0 then []
    else if n == 1 || pages[n - 1].limit != 0 then Packed(pages, n - 1) + [pages[n - 1]]
    else Packed(pages, n - 1)
  }

  lemma {:induction false} PackedCovers(pages: seq<Page>, n: nat, p: int)
    requires n <= |pages|
    ensures OnPages(Packed(pages, n), p) <==> OnPages(pages[..n], p)
  {
    if n > 0 {
      PackedCovers(pages, n - 1, p);
      OnOneMore(pages, n - 1, p);
      OnOneMore(Packed(pages, n - 1) + [pages[n - 1]], |Packed(pages, n - 1)|, p);
      assert (Packed(pages, n - 1) + [pages[n - 1]])[..|Packed(pages, n - 1)|] == Packed(pages, n - 1);
      assert Packed(pages, n) == Packed(pages, n)[..|Packed(pages, n)|];
    }
  }

  lemma {:induction false} PackedApart(cells: seq<RValue>, pages: seq<Page>, n: nat)
    requires 0 < n <= |pages| && PagesApart(cells, pages) && 0 < pages[0].limit
    ensures PagesOk(cells, Packed(pages, n))
    ensures Packed(pages, n) != [] && Packed(pages, n)[0] == pages[0]
  {
    if n > 1 {
      PackedApart(cells, pages, n - 1);
      var front, pg := Packed(pages, n - 1), pages[n - 1];
      forall i, p | 0 <= i < |front| && InPage(front[i], p) ensures !InPage(pg, p) {
        PackedCovers(pages, n - 1, p);
        assert OnPages(front, p);
        var j :| 0 <= j < n - 1 && InPage(pages[..n - 1][j], p);
        assert InPage(pages[j], p);
      }
    }
  }

  /** A new page somewhere else: the pages stay apart. */
  lemma OnNewPage(cells: seq<RValue>, pages: seq<Page>, pg: Page)
    requires PagesApart(cells, pages) && pg.slot + pg.limit <= |cells|
    requires forall p :: InPage(pg, p) ==> !OnPages(pages, p)
    ensures PagesApart(cells, pages + [pg])
    ensures forall p :: OnPages(pages + [pg], p) <==> OnPages(pages, p) || InPage(pg, p)
  {
    var all := pages + [pg];
    assert all[..|pages|] == pages && all[..|pages| + 1] == all;
    forall p ensures OnPages(all, p) <==> OnPages(pages, p) || InPage(pg, p) { OnOneMore(all, |pages|, p); }
    forall i, p | 0 <= i < |pages| && InPage(pages[i], p) ensures !InPage(pg, p) {
      assert OnPages(pages, p);
    }
  }

  /** The swept pages are still apart, and hold every cell that was marked. */
  lemma SweptApart(c0: seq<RValue>, pages0: seq<Page>, m0: set<int>,
                   cells: seq<RValue>, pages: seq<Page>, marked: set<int>, fs: seq<int>)
    requires SweptPages(c0, pages0, m0, |pages0|, cells, pages, marked, fs) && PagesOk(c0, pages0) && pages0 != []
    requires m0 <= (set p | 0 <= p < |c0| && c0[p].Object?) && Covered(c0, pages0)
    ensures PagesApart(cells, pages) && pages[0] == pages0[0] && 0 < pages[0].limit
    ensures marked == {} && Covered(cells, pages)
    ensures forall p :: IsObject(cells, p) <==> p in m0
    ensures forall p :: p in m0 ==> p < |cells| && cells[p] == c0[p]
    ensures forall p :: p in fs <==> OnPages(pages, p) && !IsObject(cells, p)
  {
    assert pages0[..|pages0|] == pages0 && pages[..|pages|] == pages;
    forall p | p in m0 ensures IsObject(c0, p) && OnPages(pages0, p) && OnPages(pages, p) {
      assert IsObject(c0, p);
      var j :| 0 <= j < |pages0| && InPage(pages0[j], p);
      assert KeptOrEmpty(pages0[j], pages[j], j, m0);
      assert InPage(pages[j], p);
    }
    forall j | 0 <= j < |pages|
      ensures KeptOrEmpty(pages0[j], pages[j], j, m0) && forall p :: InPage(pages[j], p) ==> InPage(pages0[j], p)
    {
      assert KeptOrEmpty(pages0[j], pages[j], j, m0);
    }
    assert KeptOrEmpty(pages0[0], pages[0], 0, m0);
    forall p ensures p !in marked {
      if p in m0 { assert OnPages(pages0, p); }
    }
    assert forall p :: IsObject(c0, p) ==> OnPages(pages0, p);
  }
}
