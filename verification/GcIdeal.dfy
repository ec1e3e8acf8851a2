/** The memory that is never collected is a memory: what was written is read, and nothing else changes. */
module GcIdeal {
  import opened GcGraph
  import opened GcProgram

  /** Place i holds an object. */
  predicate Holds(t: Ideal, i: int) {
    0 <= i < |t.roots| && 0 <= t.roots[i] < |t.objects|
  }

  /** Every root holds an object that has been made, or a special constant. */
  predicate Made(t: Ideal) {
    forall i :: 0 <= i < |t.roots| ==> t.roots[i] < |t.objects|
  }

  /** A new object has data 0 and no references, and is held in the new place only. */
  lemma NewIsBlank(t: Ideal, j: int, k: int)
    requires Made(t) && 0 <= j < |t.roots|
    ensures var x, n := IdealStep(t, DoNew), |t.roots|;
            && Made(x) && |x.roots| == n + 1 && x.roots[..n] == t.roots && Holds(x, n)
            && IdealAnswer(x, DoRead(n)) == Data(0) && IdealAnswer(x, DoSame(n, j)) == Truth(false)
            && IdealStep(x, DoLoad(n, k)).roots == x.roots + [-1]
            && IdealAnswer(x, DoRead(j)) == IdealAnswer(t, DoRead(j))
            && IdealStep(x, DoLoad(j, k)).roots == x.roots + [IdealStep(t, DoLoad(j, k)).roots[n]]
  {
    assert t.roots[j] < |t.objects|;
  }

  /** What has been written is read, in whatever place the object is held, and other objects are as they were. */
  lemma WriteThenRead(t: Ideal, i: int, slots: seq<(int, bool)>, tail: int, data: int, j: int)
    requires Holds(t, i)
    ensures IdealAnswer(IdealStep(t, DoWrite(i, slots, tail, data)), DoRead(j))
         == if 0 <= j < |t.roots| && t.roots[j] == t.roots[i] then Data(data) else IdealAnswer(t, DoRead(j))
  {
  }

  /** A reference that has been written is the one that was held then; -1 asks for the last one. */
  lemma WriteThenLoad(t: Ideal, i: int, slots: seq<(int, bool)>, tail: int, data: int, j: int, k: int)
    requires Holds(t, i) && 0 <= j < |t.roots|
    ensures IdealStep(IdealStep(t, DoWrite(i, slots, tail, data)), DoLoad(j, k)).roots
         == if t.roots[j] != t.roots[i] then IdealStep(t, DoLoad(j, k)).roots
            else
              var from := if k == -1 then tail else if 0 <= k < |slots| then slots[k].0 else -1;
              t.roots + [if 0 <= from < |t.roots| then t.roots[from] else -1]
  {
  }

  /** Nothing can be written to, or read from, what is no object. */
  lemma NothingHeld(t: Ideal, i: int, slots: seq<(int, bool)>, tail: int, data: int, k: int)
    requires !Holds(t, i)
    ensures IdealStep(t, DoWrite(i, slots, tail, data)) == t && IdealAnswer(t, DoRead(i)) == Nothing
    ensures IdealStep(t, DoLoad(i, k)).roots == t.roots + [-1]
  {
  }

  /** A root that is dropped is gone, those behind it move up, and no object changes. */
  lemma DropThenRead(t: Ideal, i: int, j: int)
    requires 0 <= i < |t.roots|
    ensures var x := IdealStep(t, DoDrop(i));
            && |x.roots| == |t.roots| - 1 && x.objects == t.objects
            && IdealAnswer(x, DoRead(j)) == IdealAnswer(t, DoRead(if j < i then j else j + 1))
  {
  }

  /** Collecting, and switching the collector on and off, cannot be noticed. */
  lemma CollectIsNothing(t: Ideal, off: bool, i: int, j: int)
    ensures IdealStep(t, DoCollect) == t && IdealStep(t, DoSwitch(off)) == t
    ensures IdealStep(t, DoRead(i)) == t && IdealStep(t, DoSame(i, j)) == t
  {
  }
}
