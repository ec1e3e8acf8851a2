/** Runs of the object space as its users see them: allocation, writes, root changes, collections. */
module GcRun {
  import opened GcGraph

  /** Memory and roots. */
  datatype Mem = Mem(cells: seq<RValue>, roots: set<int>)

  datatype Step = Collect | New(obj: int) | Write(obj: int, body: Body) | Roots

  /** What rb_newobj leaves in a cell: cleared memory, no references. */
  const BLANK: Body := Body([], -1, 0)

  ghost predicate Known(s: Mem, r: int) {
    r < 0 || r in Live(s.cells, s.roots)
  }

  /** The cells of all reachable objects are untouched. */
  ghost predicate Keeps(s: Mem, t: Mem) {
    forall p :: p in Live(s.cells, s.roots) ==> IsObject(t.cells, p) && t.cells[p] == s.cells[p]
  }

  /** One step of a run. Users get references only from what they can reach. */
  ghost predicate Next(s: Mem, step: Step, t: Mem) {
    match step
    case Collect =>
      && Keeps(s, t) && t.roots == s.roots
      && forall p :: IsObject(t.cells, p) ==> IsObject(s.cells, p)
    case New(obj) =>
      && Keeps(s, t) && t.roots == s.roots + {obj}
      && obj !in Live(s.cells, s.roots) && IsObject(t.cells, obj) && t.cells[obj].body == BLANK
      && forall p :: IsObject(t.cells, p) && p != obj ==> IsObject(s.cells, p)
    case Write(obj, body) =>
      && obj in Live(s.cells, s.roots) && IsObject(s.cells, obj) && t.roots == s.roots
      && t.cells == s.cells[obj := Object(body)]
      && forall r :: Refers(body, r) ==> Known(s, r)
    case Roots =>
      t.cells == s.cells && forall r :: r in t.roots ==> Known(s, r)
  }

  /** Nothing a user can reach refers to a cell that is no object. */
  ghost predicate Safe(s: Mem) {
    && (forall r :: r in s.roots ==> Known(s, r))
    && forall p, r :: p in Live(s.cells, s.roots) && IsObject(s.cells, p) && Refers(s.cells[p].body, r) ==> Known(s, r)
  }

  lemma LiveObjects(s: Mem)
    ensures forall p :: p in Live(s.cells, s.roots) ==> IsObject(s.cells, p)
    ensures Closed(s.cells, Live(s.cells, s.roots))
    ensures forall r :: r in s.roots && IsObject(s.cells, r) ==> r in Live(s.cells, s.roots)
  {
    LiveIsClosed(s.cells, s.roots);
    LiveIsLeast(s.cells, s.roots, Live(s.cells, s.roots));
  }

  /** A collection changes nothing about what is reachable. */
  lemma CollectKeepsLive(s: Mem, t: Mem)
    requires Next(s, Collect, t)
    ensures Live(t.cells, t.roots) == Live(s.cells, s.roots)
  {
    hide Live, Refers;
    var ls, lt := Live(s.cells, s.roots), Live(t.cells, t.roots);
    LiveObjects(s);
    LiveObjects(t);
    assert Closed(t.cells, ls) by {
      forall p, q | p in ls && Edge(t.cells, p, q) ensures q in ls { assert Edge(s.cells, p, q); }
    }
    LiveIsLeast(t.cells, t.roots, ls);
    assert Closed(s.cells, lt) by {
      forall p, q | p in lt && Edge(s.cells, p, q) ensures q in lt {
        assert q in ls;
        assert Edge(t.cells, p, q);
      }
    }
    LiveIsLeast(s.cells, s.roots, lt);
  }

  /** A new object is the only new reachable one. */
  lemma NewIsAlone(s: Mem, obj: int, t: Mem)
    requires Safe(s) && Next(s, New(obj), t)
    ensures Live(t.cells, t.roots) == Live(s.cells, s.roots) + {obj}
  {
    hide Live;
    var ls, lt := Live(s.cells, s.roots), Live(t.cells, t.roots);
    LiveObjects(s);
    LiveObjects(t);
    assert Closed(t.cells, ls + {obj}) by {
      forall p, q | p in ls + {obj} && Edge(t.cells, p, q) ensures q in ls + {obj} {
        if p in ls { assert Known(s, q); }
      }
    }
    LiveIsLeast(t.cells, t.roots, ls + {obj});
    assert Closed(s.cells, ls * lt) by {
      forall p, q | p in ls * lt && Edge(s.cells, p, q) ensures q in ls * lt {
        assert q in ls;
        assert Edge(t.cells, p, q);
      }
    }
    LiveIsLeast(s.cells, s.roots, ls * lt);
  }

  lemma WriteReachesNoMore(s: Mem, obj: int, body: Body, t: Mem)
    requires Next(s, Write(obj, body), t)
    ensures Live(t.cells, t.roots) <= Live(s.cells, s.roots)
  {
    hide Live;
    var ls := Live(s.cells, s.roots);
    LiveObjects(s);
    assert Closed(t.cells, ls) by {
      forall p, q | p in ls && Edge(t.cells, p, q) ensures q in ls {
        if p == obj { assert Known(s, q); } else { assert Edge(s.cells, p, q); }
      }
    }
    LiveIsLeast(t.cells, t.roots, ls);
  }

  lemma RootsReachNoMore(s: Mem, t: Mem)
    requires Next(s, Roots, t)
    ensures Live(t.cells, t.roots) <= Live(s.cells, s.roots)
  {
    hide Live;
    LiveObjects(s);
    LiveIsLeast(t.cells, t.roots, Live(s.cells, s.roots));
  }

  /** An object that is still reachable is still known to whoever refers to it. */
  lemma StillKnown(t: Mem)
    requires forall r :: r in t.roots ==> r < 0 || IsObject(t.cells, r)
    requires forall p, r :: p in Live(t.cells, t.roots) && IsObject(t.cells, p) && Refers(t.cells[p].body, r) ==>
               r < 0 || IsObject(t.cells, r)
    ensures Safe(t)
  {
    hide Live;
    LiveObjects(t);
    forall p, r | p in Live(t.cells, t.roots) && IsObject(t.cells, p) && Refers(t.cells[p].body, r)
      ensures Known(t, r)
    {
      if r >= 0 { assert Edge(t.cells, p, r); }
    }
  }

  /** No step makes a reachable reference dangle. */
  lemma SafeStep(s: Mem, step: Step, t: Mem)
    requires Safe(s) && Next(s, step, t)
    ensures Safe(t)
  {
    hide Live;
    LiveObjects(s);
    match step {
      case Collect => CollectKeepsLive(s, t);
      case New(obj) => NewIsAlone(s, obj, t);
      case Write(obj, body) => WriteReachesNoMore(s, obj, body, t);
      case Roots => RootsReachNoMore(s, t);
    }
    forall r | r in t.roots ensures r < 0 || IsObject(t.cells, r) {
      if !(step.New? && r == step.obj) { assert Known(s, r); }
    }
    forall p, r | p in Live(t.cells, t.roots) && IsObject(t.cells, p) && Refers(t.cells[p].body, r)
      ensures r < 0 || IsObject(t.cells, r)
    {
      if p in Live(s.cells, s.roots) {
        assert Known(s, r);
      }
    }
    StillKnown(t);
  }

  ghost predicate Run(ss: seq<Mem>, steps: seq<Step>) {
    |ss| == |steps| + 1 && forall i :: 0 <= i < |steps| ==> Next(ss[i], steps[i], ss[i + 1])
  }

  /** Over every run, no reference a user can reach ever dangles. */
  lemma {:induction false} RunIsSafe(ss: seq<Mem>, steps: seq<Step>)
    requires Run(ss, steps) && Safe(ss[0])
    ensures Safe(ss[|steps|])
    decreases |steps|
  {
    if |steps| > 0 {
      var n := |steps| - 1;
      assert Run(ss[..n + 1], steps[..n]);
      RunIsSafe(ss[..n + 1], steps[..n]);
      SafeStep(ss[n], steps[n], ss[n + 1]);
    }
  }

  /** Over every run, an object that stays reachable and is not written keeps its contents. */
  lemma {:induction false} ReachableIsKept(ss: seq<Mem>, steps: seq<Step>, p: int)
    requires Run(ss, steps) && Safe(ss[0])
    requires forall i :: 0 <= i < |ss| ==> p in Live(ss[i].cells, ss[i].roots)
    requires forall i :: 0 <= i < |steps| ==> !(steps[i].Write? && steps[i].obj == p)
    ensures IsObject(ss[0].cells, p) && IsObject(ss[|steps|].cells, p)
    ensures ss[|steps|].cells[p] == ss[0].cells[p]
    decreases |steps|
  {
    hide Live;
    LiveObjects(ss[0]);
    if |steps| > 0 {
      var n := |steps| - 1;
      assert Run(ss[..n + 1], steps[..n]);
      ReachableIsKept(ss[..n + 1], steps[..n], p);
      assert p in Live(ss[n].cells, ss[n].roots);
      assert Next(ss[n], steps[n], ss[n + 1]);
    }
  }

  /**
   * Over every run, no allocation hands out an object that is in use: the result differs from every
   * reachable object, and no reachable object refers to it.
   */
  lemma NewIsUnused(ss: seq<Mem>, steps: seq<Step>, i: nat, p: int)
    requires Run(ss, steps) && Safe(ss[0]) && i < |steps| && steps[i].New?
    requires p in Live(ss[i].cells, ss[i].roots)
    ensures p != steps[i].obj && IsObject(ss[i].cells, p) && !Refers(ss[i].cells[p].body, steps[i].obj)
  {
    hide Live;
    assert Run(ss[..i + 1], steps[..i]);
    RunIsSafe(ss[..i + 1], steps[..i]);
    assert Next(ss[i], steps[i], ss[i + 1]);
    LiveObjects(ss[i]);
    forall r | Refers(ss[i].cells[p].body, r) ensures r != steps[i].obj {
      assert Known(ss[i], r);
    }
  }
}
