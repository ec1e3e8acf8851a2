/** Cells, references and reachability, as the collector sees them. */
module GcGraph {

  /** A reference held by an object; top says it is marked by a dmark function, through rb_gc_mark. */
  datatype Slot = Slot(ref: int, top: bool)

  /**
   * What gc_mark_children finds in an object: references it passes to gc_mark one by one, and a last
   * one it goes on with itself. Negative references are special constants, or none.
   */
  datatype Body = Body(slots: seq<Slot>, tail: int, data: int)

  /** A cell: flags 0 and a free list link, or an object. FL_MARK is kept apart. */
  datatype RValue = Free(next: int) | Object(body: Body)

  predicate IsObject(cells: seq<RValue>, p: int) {
    0 <= p < |cells| && cells[p].Object?
  }

  ghost predicate Refers(b: Body, r: int) {
    r == b.tail || exists i :: 0 <= i < |b.slots| && b.slots[i].ref == r
  }

  /** q is an object referred to by the object p. */
  ghost predicate Edge(cells: seq<RValue>, p: int, q: int) {
    IsObject(cells, p) && IsObject(cells, q) && Refers(cells[p].body, q)
  }

  // ---------- reachability ----------

  ghost predicate Path(cells: seq<RValue>, roots: set<int>, path: seq<int>) {
    && path != [] && path[0] in roots && IsObject(cells, path[0])
    && forall i :: 0 <= i < |path| - 1 ==> Edge(cells, path[i], path[i + 1])
  }

  ghost predicate Reachable(cells: seq<RValue>, roots: set<int>, p: int) {
    exists path :: Path(cells, roots, path) && path[|path| - 1] == p
  }

  ghost predicate Closed(cells: seq<RValue>, s: set<int>) {
    forall p, q :: p in s && Edge(cells, p, q) ==> q in s
  }

  lemma {:induction false} PathInside(cells: seq<RValue>, roots: set<int>, path: seq<int>, s: set<int>)
    requires Path(cells, roots, path) && Closed(cells, s)
    requires forall r :: r in roots && IsObject(cells, r) ==> r in s
    ensures path[|path| - 1] in s && IsObject(cells, path[|path| - 1])
    decreases |path|
  {
    if |path| > 1 {
      var front := path[..|path| - 1];
      assert Path(cells, roots, front);
      PathInside(cells, roots, front, s);
      assert Edge(cells, path[|path| - 2], path[|path| - 2 + 1]);
    }
  }

  /** A closed set with the roots in it holds everything reachable. */
  lemma ReachableInside(cells: seq<RValue>, roots: set<int>, p: int, s: set<int>)
    requires Reachable(cells, roots, p) && Closed(cells, s)
    requires forall r :: r in roots && IsObject(cells, r) ==> r in s
    ensures p in s && IsObject(cells, p)
  {
    var path :| Path(cells, roots, path) && path[|path| - 1] == p;
    PathInside(cells, roots, path, s);
  }

  lemma ReachableRoot(cells: seq<RValue>, roots: set<int>, r: int)
    requires r in roots && IsObject(cells, r)
    ensures Reachable(cells, roots, r)
  {
    assert Path(cells, roots, [r]);
    assert [r][|[r]| - 1] == r;
  }

  lemma ReachableStep(cells: seq<RValue>, roots: set<int>, p: int, q: int)
    requires Reachable(cells, roots, p) && Edge(cells, p, q)
    ensures Reachable(cells, roots, q)
  {
    var path :| Path(cells, roots, path) && path[|path| - 1] == p;
    var longer := path + [q];
    assert forall i :: 0 <= i < |longer| - 1 ==> Edge(cells, longer[i], longer[i + 1]);
    assert Path(cells, roots, longer) && longer[|longer| - 1] == q;
  }

  ghost function Live(cells: seq<RValue>, roots: set<int>): set<int> {
    set p | 0 <= p < |cells| && Reachable(cells, roots, p)
  }

  lemma LiveIsClosed(cells: seq<RValue>, roots: set<int>)
    ensures Closed(cells, Live(cells, roots))
    ensures forall r :: r in roots && IsObject(cells, r) ==> r in Live(cells, roots)
  {
    forall p, q | p in Live(cells, roots) && Edge(cells, p, q) ensures q in Live(cells, roots) {
      ReachableStep(cells, roots, p, q);
    }
    forall r | r in roots && IsObject(cells, r) ensures r in Live(cells, roots) {
      ReachableRoot(cells, roots, r);
    }
  }

  /** Live is the least closed set that holds the roots. */
  lemma LiveIsLeast(cells: seq<RValue>, roots: set<int>, s: set<int>)
    requires Closed(cells, s) && forall r :: r in roots && IsObject(cells, r) ==> r in s
    ensures Live(cells, roots) <= s
    ensures forall p :: p in Live(cells, roots) ==> IsObject(cells, p)
  {
    forall p | p in Live(cells, roots) ensures p in s && IsObject(cells, p) {
      ReachableInside(cells, roots, p, s);
    }
  }

  // ---------- the marking invariant ----------

  /** All objects p refers to are marked. */
  ghost predicate Finished(cells: seq<RValue>, marked: set<int>, p: int) {
    forall q :: Edge(cells, p, q) ==> q in marked
  }

  /**
   * Every marked object is finished, except those pending in the recursion and those on the mark
   * stack; after an overflow nothing is promised, and the whole heap will be scanned again.
   */
  ghost predicate Tricolor(cells: seq<RValue>, marked: set<int>, pending: set<int>, stack: seq<int>, overflow: bool) {
    overflow || forall p :: p in marked ==> p in pending || p in stack || Finished(cells, marked, p)
  }

  /** What marking does to marks and stack: both only grow, and the stack only with new marks. */
  ghost predicate Marks(cells: seq<RValue>, reach: set<int>, m0: set<int>, s0: seq<int>, o0: bool,
                        m1: set<int>, s1: seq<int>, o1: bool, max: nat) {
    && m0 <= m1 && (forall p :: p in m1 && p !in m0 ==> p in reach && IsObject(cells, p))
    && |s0| <= |s1| <= max && s1[..|s0|] == s0
    && (forall i :: |s0| <= i < |s1| ==> s1[i] in m1)
    && (o0 ==> o1) && (o1 && !o0 ==> |s1| == max)
    && (m0 == m1 ==> s0 == s1 && o0 == o1)
  }

  lemma MarksNothing(cells: seq<RValue>, reach: set<int>, m: set<int>, s: seq<int>, o: bool, max: nat)
    requires |s| <= max
    ensures Marks(cells, reach, m, s, o, m, s, o, max)
  {
    assert s[..|s|] == s;
  }

  lemma MarksTwice(cells: seq<RValue>, reach: set<int>, m0: set<int>, s0: seq<int>, o0: bool,
                   m1: set<int>, s1: seq<int>, o1: bool, m2: set<int>, s2: seq<int>, o2: bool, max: nat)
    requires Marks(cells, reach, m0, s0, o0, m1, s1, o1, max) && Marks(cells, reach, m1, s1, o1, m2, s2, o2, max)
    ensures Marks(cells, reach, m0, s0, o0, m2, s2, o2, max)
  {
    assert s2[..|s0|] == s2[..|s1|][..|s0|] == s0;
    forall i | |s0| <= i < |s2| ensures s2[i] in m2 {
      if i < |s1| { assert s2[i] == s2[..|s1|][i] == s1[i]; }
    }
  }

  lemma FinishedStays(cells: seq<RValue>, m0: set<int>, m1: set<int>, p: int)
    requires Finished(cells, m0, p) && m0 <= m1
    ensures Finished(cells, m1, p)
  {
  }
}
