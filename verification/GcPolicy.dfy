/** When a collection gives a page up or adds one, told by counting cells. */
module GcPolicy {
  import opened GcGraph
  import opened GcFreeList
  import opened Gc

  ghost function Between(marked: set<int>, lo: nat, hi: nat): set<int> {
    set p | lo <= p < hi && p !in marked
  }

  /** The cells of these pages that are not marked. */
  ghost function FreedOn(size: nat, pages: seq<Page>, marked: set<int>): set<int> {
    set p | 0 <= p < size && p !in marked && OnPages(pages, p)
  }

  lemma {:induction false} UnmarkedCount(marked: set<int>, lo: nat, hi: nat)
    requires lo <= hi
    ensures UnmarkedIn(marked, lo, hi) == |Between(marked, lo, hi)|
    ensures UnmarkedIn(marked, lo, hi) == hi - lo <==> forall p :: lo <= p < hi ==> p !in marked
    decreases hi
  {
    if lo == hi {
      assert Between(marked, lo, hi) == {};
    } else {
      UnmarkedCount(marked, lo, hi - 1);
      assert Between(marked, lo, hi) == Between(marked, lo, hi - 1) + if hi - 1 in marked then {} else {hi - 1};
    }
  }

  /** The cells freed are counted right. */
  lemma {:induction false} FreedCount(cells: seq<RValue>, pages0: seq<Page>, marked: set<int>, swept: seq<Page>, n: nat)
    requires PagesOk(cells, pages0) && PagesAfter(pages0, marked, |pages0|, swept) && n <= |pages0|
    ensures FreedBefore(pages0, marked, n) == |FreedOn(|cells|, swept[..n], marked)|
  {
    if n == 0 {
      assert FreedOn(|cells|, swept[..0], marked) == {};
    } else {
      FreedCount(cells, pages0, marked, swept, n - 1);
      hide PagesOk, PagesAfter, FreedOn, FreedBefore, GivenUp, UnmarkedOn, OnPages;
      PageInside(cells, pages0, marked, swept, n - 1);
      FreedMore(|cells|, swept, marked, n);
      OldAndNew(cells, pages0, marked, swept, n);
    }
  }

  lemma OldAndNew(cells: seq<RValue>, pages0: seq<Page>, marked: set<int>, swept: seq<Page>, n: nat)
    requires PagesOk(cells, pages0) && PagesAfter(pages0, marked, |pages0|, swept) && 1 <= n <= |pages0| == |swept|
    requires var pg := swept[n - 1];
             FreedOn(|cells|, swept[..n], marked)
             == FreedOn(|cells|, swept[..n - 1], marked) + Between(marked, pg.slot, pg.slot + pg.limit)
    requires swept[n - 1].limit == 0 ==>
               FreedOn(|cells|, swept[..n], marked) == FreedOn(|cells|, swept[..n - 1], marked)
    ensures var was := FreedBefore(pages0, marked, n - 1);
            was == |FreedOn(|cells|, swept[..n - 1], marked)| ==>
              FreedBefore(pages0, marked, n) == |FreedOn(|cells|, swept[..n], marked)|
  {
    hide PagesOk, PagesAfter, FreedOn, FreedBefore, GivenUp, UnmarkedIn, Between, OnPages;
    var pg := swept[n - 1];
    CountStep(pages0, marked, swept, n);
    if !GivenUp(pages0, marked, n - 1) {
      UnmarkedCount(marked, pg.slot, pg.slot + pg.limit);
      NoneTwice(cells, pages0, marked, swept, n);
      CardSum(FreedOn(|cells|, swept[..n - 1], marked), Between(marked, pg.slot, pg.slot + pg.limit));
    }
  }

  lemma CardSum(a: set<int>, b: set<int>)
    requires a !! b
    ensures |a + b| == |a| + |b|
  {
  }

  lemma CountStep(pages0: seq<Page>, marked: set<int>, swept: seq<Page>, n: nat)
    requires PagesAfter(pages0, marked, |pages0|, swept) && 1 <= n <= |pages0|
    ensures |swept| == |pages0|
    ensures GivenUp(pages0, marked, n - 1) ==>
              swept[n - 1].limit == 0 && FreedBefore(pages0, marked, n) == FreedBefore(pages0, marked, n - 1)
    ensures !GivenUp(pages0, marked, n - 1) ==>
              var pg, more := pages0[n - 1], FreedBefore(pages0, marked, n) - FreedBefore(pages0, marked, n - 1);
              swept[n - 1] == pg && more == UnmarkedIn(marked, pg.slot, pg.slot + pg.limit)
  {
  }

  lemma NoneTwice(cells: seq<RValue>, pages0: seq<Page>, marked: set<int>, swept: seq<Page>, n: nat)
    requires PagesOk(cells, pages0) && PagesAfter(pages0, marked, |pages0|, swept) && 1 <= n <= |pages0| == |swept|
    requires swept[n - 1] == pages0[n - 1]
    ensures FreedOn(|cells|, swept[..n - 1], marked)
         !! Between(marked, swept[n - 1].slot, swept[n - 1].slot + swept[n - 1].limit)
  {
    hide PagesOk, PagesAfter, OnPages;
    var more := Between(marked, swept[n - 1].slot, swept[n - 1].slot + swept[n - 1].limit);
    forall p | p in more ensures p !in FreedOn(|cells|, swept[..n - 1], marked) {
      NotBefore(cells, pages0, marked, swept, n - 1, p);
    }
  }

  /** One page more: its unmarked cells. */
  lemma FreedMore(size: nat, pages: seq<Page>, marked: set<int>, n: nat)
    requires 1 <= n <= |pages| && pages[n - 1].slot + pages[n - 1].limit <= size
    ensures var pg := pages[n - 1];
            FreedOn(size, pages[..n], marked)
            == FreedOn(size, pages[..n - 1], marked) + Between(marked, pg.slot, pg.slot + pg.limit)
    ensures pages[n - 1].limit == 0 ==> FreedOn(size, pages[..n], marked) == FreedOn(size, pages[..n - 1], marked)
  {
    var pg := pages[n - 1];
    var now, was := FreedOn(size, pages[..n], marked), FreedOn(size, pages[..n - 1], marked);
    var more := Between(marked, pg.slot, pg.slot + pg.limit);
    forall p ensures p in now <==> p in was || p in more { OnOneMore(pages, n - 1, p); }
    assert now == was + more;
    if pg.limit == 0 { assert more == {}; }
  }

  lemma PageInside(cells: seq<RValue>, pages0: seq<Page>, marked: set<int>, swept: seq<Page>, i: nat)
    requires PagesOk(cells, pages0) && PagesAfter(pages0, marked, |pages0|, swept) && i < |pages0|
    ensures |swept| == |pages0| && swept[i].slot + swept[i].limit <= |cells|
  {
  }

  /** A cell of one page lies on no other. */
  lemma NotBefore(cells: seq<RValue>, pages0: seq<Page>, marked: set<int>, swept: seq<Page>, i: nat, p: int)
    requires PagesOk(cells, pages0) && PagesAfter(pages0, marked, |pages0|, swept) && i < |pages0|
    requires InPage(pages0[i], p)
    ensures !OnPages(swept[..i], p)
  {
    forall j | 0 <= j < i ensures !InPage(swept[..i][j], p) {}
  }

  /**
   * A page is given up exactly if none of its cells is marked and more than 4096 cells have been freed on the
   * pages before it that are kept.
   */
  lemma GivenUpIff(cells: seq<RValue>, pages0: seq<Page>, marked: set<int>, swept: seq<Page>, i: nat)
    requires PagesOk(cells, pages0) && PagesAfter(pages0, marked, |pages0|, swept) && i < |pages0|
    ensures swept[i]
         == if (forall p :: InPage(pages0[i], p) ==> p !in marked) && |FreedOn(|cells|, swept[..i], marked)| > 0x1000
            then Page(pages0[i].slot, 0) else pages0[i]
  {
    var pg := pages0[i];
    FreedCount(cells, pages0, marked, swept, i);
    UnmarkedCount(marked, pg.slot, pg.slot + pg.limit);
    assert (forall p :: InPage(pg, p) ==> p !in marked)
      <==> (forall p :: pg.slot <= p < pg.slot + pg.limit ==> p !in marked);
  }

  /** After a sweep the pages not given up are left, and one more exactly if fewer than 4096 cells were freed. */
  lemma PagesLeft(cells: seq<RValue>, pages0: seq<Page>, marked: set<int>, slots: nat, pages: seq<Page>)
    returns (swept: seq<Page>)
    requires PagesOk(cells, pages0) && SweepPolicy(pages0, marked, slots, pages)
    ensures PagesAfter(pages0, marked, |pages0|, swept)
    ensures |FreedOn(|cells|, swept, marked)| >= 0x1000 ==> pages == Packed(swept, |swept|)
    ensures |FreedOn(|cells|, swept, marked)| < 0x1000 ==>
              exists pg: Page :: pg.limit == slots && pages == Packed(swept + [pg], |swept| + 1)
  {
    hide Packed, PagesAfter, FreedBefore, PagesOk, OnPages;
    swept :| PagesAfter(pages0, marked, |pages0|, swept)
      && if FreedBefore(pages0, marked, |pages0|) >= FREE_MIN then pages == Packed(swept, |swept|)
         else exists pg: Page :: pg.limit == slots && pages == Packed(swept + [pg], |swept| + 1);
    FreedCount(cells, pages0, marked, swept, |pages0|);
    SameLength(pages0, marked, swept);
    assert swept[..|pages0|] == swept;
  }

  lemma SameLength(pages0: seq<Page>, marked: set<int>, swept: seq<Page>)
    requires PagesAfter(pages0, marked, |pages0|, swept)
    ensures |swept| == |pages0|
  {
  }

  /** Dropping pages keeps the order: the ones left stand in pages one behind the other. */
  lemma {:induction false} PackedInOrder(pages: seq<Page>, n: nat) returns (places: seq<nat>)
    requires n <= |pages|
    ensures |places| == |Packed(pages, n)|
    ensures forall i :: 0 <= i < |places| ==> places[i] < n && Packed(pages, n)[i] == pages[places[i]]
    ensures forall i, j :: 0 <= i < j < |places| ==> places[i] < places[j]
    ensures forall k :: 0 < k < n && k !in places ==> pages[k].limit == 0
  {
    if n == 0 {
      places := [];
    } else {
      places := PackedInOrder(pages, n - 1);
      if n == 1 || pages[n - 1].limit != 0 { places := places + [n - 1]; }
    }
  }
}
