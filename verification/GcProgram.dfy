/**
 * Programs on the object space, and why they cannot tell that there is a collector: they get the answers
 * they would get from a memory in which nothing is ever freed.
 */
module GcProgram {
  import opened GcGraph
  import opened GcRun
  import opened Gc

  /** What a program does with what it holds in its roots, which it knows by their places. */
  datatype Op =
    | DoNew
    | DoCollect
    | DoSwitch(off: bool)
    | DoDrop(i: int)
    | DoLoad(i: int, k: int)
    | DoWrite(i: int, slots: seq<(int, bool)>, tail: int, data: int)
    | DoRead(i: int)
    | DoSame(i: int, j: int)

  datatype Answer = Nothing | Data(n: int) | Truth(b: bool)

  // ---------- a memory that is never collected ----------

  /** Objects are numbered in the order they are made. Negative references are special constants, or none. */
  datatype Ideal = Ideal(objects: seq<Body>, roots: seq<int>)

  /** What is held in place i. */
  function Held(roots: seq<int>, i: int): int {
    if 0 <= i < |roots| then roots[i] else -1
  }

  /** Reference k of an object; -1 asks for the last one. */
  function Reference(b: Body, k: int): int {
    if k == -1 then b.tail else if 0 <= k < |b.slots| then b.slots[k].ref else -1
  }

  /** A body whose references are held in the given places. */
  function BodyFrom(roots: seq<int>, slots: seq<(int, bool)>, tail: int, data: int): Body {
    var refs := seq(|slots|, k requires 0 <= k < |slots| => Slot(Held(roots, slots[k].0), slots[k].1));
    Body(refs, Held(roots, tail), data)
  }

  function Without(roots: seq<int>, i: int): seq<int> {
    if 0 <= i < |roots| then roots[..i] + roots[i + 1..] else roots
  }

  function IdealStep(t: Ideal, op: Op): Ideal {
    match op
    case DoNew => Ideal(t.objects + [BLANK], t.roots + [|t.objects|])
    case DoDrop(i) => t.(roots := Without(t.roots, i))
    case DoLoad(i, k) =>
      var u := Held(t.roots, i);
      t.(roots := t.roots + [if 0 <= u < |t.objects| then Reference(t.objects[u], k) else -1])
    case DoWrite(i, slots, tail, data) =>
      var u := Held(t.roots, i);
      if 0 <= u < |t.objects| then t.(objects := t.objects[u := BodyFrom(t.roots, slots, tail, data)]) else t
    case _ => t
  }

  function IdealAnswer(t: Ideal, op: Op): Answer {
    match op
    case DoRead(i) =>
      var u := Held(t.roots, i);
      if 0 <= u < |t.objects| then Data(t.objects[u].data) else Nothing
    case DoSame(i, j) => Truth(Held(t.roots, i) == Held(t.roots, j))
    case _ => Nothing
  }

  function IdealAfter(t: Ideal, ops: seq<Op>): Ideal {
    if ops == [] then t else IdealStep(IdealAfter(t, ops[..|ops| - 1]), ops[|ops| - 1])
  }

  /** What a program is to be answered. */
  function IdealAnswers(t: Ideal, ops: seq<Op>): seq<Answer> {
    if ops == [] then []
    else
      var n := |ops| - 1;
      IdealAnswers(t, ops[..n]) + [IdealAnswer(IdealAfter(t, ops[..n]), ops[n])]
  }

  // ---------- the object space ----------

  datatype State = State(cells: seq<RValue>, roots: seq<int>)

  ghost function MemOf(s: State): Mem {
    Mem(s.cells, Elements(s.roots))
  }

  /** One operation on the object space, as a step of a run. */
  ghost predicate Does(s: State, op: Op, ans: Answer, step: Step, t: State) {
    match op
    case DoNew =>
      step.New? && ans == Nothing && t.roots == s.roots + [step.obj] && Next(MemOf(s), step, MemOf(t))
    case DoCollect => step == Collect && ans == Nothing && t.roots == s.roots && Next(MemOf(s), step, MemOf(t))
    case DoSwitch(_) => step == Roots && ans == Nothing && t == s
    case DoDrop(i) => step == Roots && ans == Nothing && t == s.(roots := Without(s.roots, i))
    case DoLoad(i, k) =>
      var p := Held(s.roots, i);
      step == Roots && ans == Nothing
      && t == s.(roots := s.roots + [if IsObject(s.cells, p) then Reference(s.cells[p].body, k) else -1])
    case DoWrite(i, slots, tail, data) =>
      var p, body := Held(s.roots, i), BodyFrom(s.roots, slots, tail, data);
      ans == Nothing && if IsObject(s.cells, p)
                        then step == Write(p, body) && t == s.(cells := s.cells[p := Object(body)])
                        else step == Roots && t == s
    case DoRead(i) =>
      var p := Held(s.roots, i);
      step == Roots && t == s && ans == if IsObject(s.cells, p) then Data(s.cells[p].body.data) else Nothing
    case DoSame(i, j) => step == Roots && t == s && ans == Truth(Held(s.roots, i) == Held(s.roots, j))
  }

  lemma RootKnown(s: State, i: int)
    requires Safe(MemOf(s))
    ensures Known(MemOf(s), Held(s.roots, i))
    ensures Held(s.roots, i) < 0 <==> !IsObject(s.cells, Held(s.roots, i))
    ensures IsObject(s.cells, Held(s.roots, i)) ==> Held(s.roots, i) in Live(s.cells, Elements(s.roots))
  {
    hide Live;
    LiveObjects(MemOf(s));
    if 0 <= i < |s.roots| { assert s.roots[i] in Elements(s.roots); }
  }

  lemma ReferenceKnown(s: State, p: int, k: int)
    requires Safe(MemOf(s)) && p in Live(s.cells, Elements(s.roots)) && IsObject(s.cells, p)
    ensures Known(MemOf(s), Reference(s.cells[p].body, k))
  {
    hide Live;
    var b := s.cells[p].body;
    if k == -1 || 0 <= k < |b.slots| { assert Refers(b, Reference(b, k)); }
  }

  lemma RootsKnown(s: State, roots: seq<int>)
    requires forall i :: 0 <= i < |roots| ==> Known(MemOf(s), roots[i])
    ensures Next(MemOf(s), Roots, MemOf(s.(roots := roots)))
  {
    hide Live;
  }

  lemma BodyKnown(s: State, slots: seq<(int, bool)>, tail: int, data: int)
    requires Safe(MemOf(s))
    ensures forall r :: Refers(BodyFrom(s.roots, slots, tail, data), r) ==> Known(MemOf(s), r)
  {
    hide Live, Safe;
    forall r | Refers(BodyFrom(s.roots, slots, tail, data), r) ensures Known(MemOf(s), r) {
      RootKnown(s, tail);
      if r != Held(s.roots, tail) {
        var k :| 0 <= k < |slots| && Held(s.roots, slots[k].0) == r;
        RootKnown(s, slots[k].0);
      }
    }
  }

  /** Programs use what they hold and what they find there: their operations are steps of a run. */
  lemma DoesNext(s: State, op: Op, ans: Answer, step: Step, t: State)
    requires Safe(MemOf(s)) && Does(s, op, ans, step, t)
    ensures Next(MemOf(s), step, MemOf(t))
  {
    hide Live, Safe;
    forall i ensures Known(MemOf(s), Held(s.roots, i)) { RootKnown(s, i); }
    forall i | 0 <= i < |s.roots| ensures Known(MemOf(s), s.roots[i]) { assert Held(s.roots, i) == s.roots[i]; }
    match op {
      case DoNew =>
      case DoCollect =>
      case DoLoad(i, k) =>
        RootKnown(s, i);
        if IsObject(s.cells, Held(s.roots, i)) { ReferenceKnown(s, Held(s.roots, i), k); }
        RootsKnown(s, t.roots);
      case DoWrite(i, slots, tail, data) =>
        RootKnown(s, i);
        BodyKnown(s, slots, tail, data);
        RootsKnown(s, s.roots);
      case _ =>
        RootsKnown(s, t.roots);
    }
  }

  // ---------- simulation ----------

  /** The reference r of the object space stands for u. */
  predicate Corr(f: map<int, int>, r: int, u: int) {
    if r < 0 then u == r else r in f && f[r] == u
  }

  predicate BodyCorr(f: map<int, int>, b: Body, c: Body) {
    && |b.slots| == |c.slots| && Corr(f, b.tail, c.tail) && b.data == c.data
    && forall k :: 0 <= k < |b.slots| ==> Corr(f, b.slots[k].ref, c.slots[k].ref) && b.slots[k].top == c.slots[k].top
  }

  ghost predicate RootsCorr(f: map<int, int>, rs: seq<int>, us: seq<int>) {
    |rs| == |us| && forall i :: 0 <= i < |rs| ==> Corr(f, rs[i], us[i])
  }

  ghost predicate ObjectsCorr(f: map<int, int>, live: set<int>, cells: seq<RValue>, objects: seq<Body>) {
    forall p :: p in live ==>
      p in f && 0 <= f[p] < |objects| && IsObject(cells, p) && BodyCorr(f, cells[p].body, objects[f[p]])
  }

  ghost predicate Apart(f: map<int, int>, live: set<int>) {
    forall p, q :: p in live && q in live && p in f && q in f ==> p == q || f[p] != f[q]
  }

  ghost function LiveIn(s: State): set<int> {
    Live(s.cells, Elements(s.roots))
  }

  /** Every reachable object of s is one of t, in one way, with the same contents; f says which. */
  ghost predicate Simulates(s: State, t: Ideal, f: map<int, int>) {
    && Safe(MemOf(s)) && RootsCorr(f, s.roots, t.roots) && ObjectsCorr(f, LiveIn(s), s.cells, t.objects)
    && Apart(f, LiveIn(s))
  }

  /** What stays reachable is as it was: a collection, or other roots. */
  lemma SimulatesStill(s: State, t: Ideal, f: map<int, int>, x: State, us: seq<int>)
    requires Simulates(s, t, f) && Safe(MemOf(x)) && RootsCorr(f, x.roots, us) && LiveIn(x) <= LiveIn(s)
    requires forall p :: p in LiveIn(x) ==> IsObject(x.cells, p) && IsObject(s.cells, p) && x.cells[p] == s.cells[p]
    ensures Simulates(x, Ideal(t.objects, us), f)
  {
    hide Live, Safe, BodyCorr, RootsCorr;
  }

  lemma SimulatesNew(s: State, t: Ideal, f: map<int, int>, obj: int, x: State)
    requires Simulates(s, t, f) && Safe(MemOf(x)) && LiveIn(x) == LiveIn(s) + {obj} && obj !in LiveIn(s) && 0 <= obj
    requires x.roots == s.roots + [obj] && IsObject(x.cells, obj) && x.cells[obj].body == BLANK
    requires forall p :: p in LiveIn(s) ==> IsObject(x.cells, p) && IsObject(s.cells, p) && x.cells[p] == s.cells[p]
    ensures Simulates(x, Ideal(t.objects + [BLANK], t.roots + [|t.objects|]), f[obj := |t.objects|])
  {
    hide Live;
    var g, n := f[obj := |t.objects|], |t.objects|;
    forall i | 0 <= i < |x.roots| ensures Corr(g, x.roots[i], (t.roots + [n])[i]) {
      if i < |s.roots| {
        assert s.roots[i] in Elements(s.roots);
        assert Known(MemOf(s), s.roots[i]);
      }
    }
    forall p | p in LiveIn(x)
      ensures p in g && 0 <= g[p] < n + 1 && IsObject(x.cells, p)
      ensures BodyCorr(g, x.cells[p].body, (t.objects + [BLANK])[g[p]])
    {
      if p != obj { BodyStill(s, t, f, p, obj); }
    }
    hide Safe, BodyCorr;
  }

  /** A reachable object does not refer to what is not reachable. */
  lemma BodyStill(s: State, t: Ideal, f: map<int, int>, p: int, obj: int)
    requires Simulates(s, t, f) && p in LiveIn(s) && obj !in LiveIn(s) && 0 <= obj && p in f
    requires IsObject(s.cells, p) && 0 <= f[p] < |t.objects|
    ensures BodyCorr(f[obj := |t.objects|], s.cells[p].body, t.objects[f[p]])
  {
    hide Live;
    var b := s.cells[p].body;
    forall r | Refers(b, r) ensures r != obj { assert Known(MemOf(s), r); }
    assert Refers(b, b.tail);
    forall k | 0 <= k < |b.slots| ensures b.slots[k].ref != obj { assert Refers(b, b.slots[k].ref); }
  }

  lemma SimulatesWrite(s: State, t: Ideal, f: map<int, int>, p: int, b: Body, c: Body, x: State)
    requires Simulates(s, t, f) && Safe(MemOf(x)) && LiveIn(x) <= LiveIn(s) && p in LiveIn(s) && IsObject(s.cells, p)
    requires BodyCorr(f, b, c) && x == s.(cells := s.cells[p := Object(b)])
    ensures p in f && 0 <= f[p] < |t.objects| && Simulates(x, t.(objects := t.objects[f[p] := c]), f)
  {
    hide Live, Safe, BodyCorr, RootsCorr;
    forall q | q in LiveIn(x)
      ensures q in f && 0 <= f[q] < |t.objects| && IsObject(x.cells, q)
      ensures BodyCorr(f, x.cells[q].body, t.objects[f[p] := c][f[q]])
    {
      assert q in LiveIn(s);
    }
  }

  // ---------- one operation ----------

  /** What is held in a place is an object in both memories or in none, and the same one. */
  lemma HeldCorr(s: State, t: Ideal, f: map<int, int>, i: int)
    requires Simulates(s, t, f)
    ensures Corr(f, Held(s.roots, i), Held(t.roots, i))
    ensures IsObject(s.cells, Held(s.roots, i)) <==> 0 <= Held(t.roots, i) < |t.objects|
    ensures IsObject(s.cells, Held(s.roots, i)) ==>
              Held(s.roots, i) in LiveIn(s) && BodyCorr(f, s.cells[Held(s.roots, i)].body, t.objects[Held(t.roots, i)])
  {
    hide Live, Safe, BodyCorr;
    RootKnown(s, i);
  }

  lemma SameCorr(s: State, t: Ideal, f: map<int, int>, i: int, j: int)
    requires Simulates(s, t, f)
    ensures Held(s.roots, i) == Held(s.roots, j) <==> Held(t.roots, i) == Held(t.roots, j)
  {
    HeldCorr(s, t, f, i);
    HeldCorr(s, t, f, j);
    RootKnown(s, i);
    RootKnown(s, j);
    hide Live, Safe, BodyCorr, IsObject;
  }

  lemma BodyFromCorr(s: State, t: Ideal, f: map<int, int>, slots: seq<(int, bool)>, tail: int, data: int)
    requires Simulates(s, t, f)
    ensures BodyCorr(f, BodyFrom(s.roots, slots, tail, data), BodyFrom(t.roots, slots, tail, data))
  {
    hide Simulates;
    HeldCorr(s, t, f, tail);
    forall k | 0 <= k < |slots| ensures Corr(f, Held(s.roots, slots[k].0), Held(t.roots, slots[k].0)) {
      HeldCorr(s, t, f, slots[k].0);
    }
  }

  /** The roots after an operation that changes no object. */
  lemma RootsAfter(s: State, t: Ideal, f: map<int, int>, op: Op, ans: Answer, step: Step, x: State)
    requires Simulates(s, t, f) && Does(s, op, ans, step, x) && !op.DoNew? && !op.DoWrite?
    ensures RootsCorr(f, x.roots, IdealStep(t, op).roots) && IdealStep(t, op).objects == t.objects
  {
    hide Next;
    if op.DoLoad? {
      HeldCorr(s, t, f, op.i);
      hide Simulates;
      assert RootsCorr(f, s.roots, t.roots) by { RootsOf(s, t, f); }
    } else {
      RootsOf(s, t, f);
      hide Simulates;
    }
  }

  lemma RootsOf(s: State, t: Ideal, f: map<int, int>)
    requires Simulates(s, t, f)
    ensures RootsCorr(f, s.roots, t.roots) && Safe(MemOf(s))
  {
  }

  /** An operation answers as it does in the memory that is never collected, and keeps the correspondence. */
  lemma OneSimulated(s: State, t: Ideal, f: map<int, int>, op: Op, ans: Answer, step: Step, x: State)
    returns (g: map<int, int>)
    requires Simulates(s, t, f) && Does(s, op, ans, step, x)
    ensures ans == IdealAnswer(t, op) && Simulates(x, IdealStep(t, op), g)
    ensures Next(MemOf(s), step, MemOf(x))
  {
    hide Live, Safe, BodyCorr, RootsCorr, ObjectsCorr, Apart;
    DoesNext(s, op, ans, step, x);
    SafeStep(MemOf(s), step, MemOf(x));
    LiveObjects(MemOf(s));
    LiveObjects(MemOf(x));
    g := f;
    match op {
      case DoNew =>
        NewIsAlone(MemOf(s), step.obj, MemOf(x));
        SimulatesNew(s, t, f, step.obj, x);
        g := f[step.obj := |t.objects|];
      case DoWrite(i, slots, tail, data) =>
        HeldCorr(s, t, f, i);
        if step.Write? {
          BodyFromCorr(s, t, f, slots, tail, data);
          WriteReachesNoMore(MemOf(s), step.obj, step.body, MemOf(x));
          SimulatesWrite(s, t, f, step.obj, step.body, BodyFrom(t.roots, slots, tail, data), x);
        }
      case DoCollect =>
        CollectKeepsLive(MemOf(s), MemOf(x));
        RootsAfter(s, t, f, op, ans, step, x);
        SimulatesStill(s, t, f, x, t.roots);
      case DoSwitch(_) =>
        RootsSimulated(s, t, f, op, ans, step, x);
      case DoDrop(i) =>
        RootsSimulated(s, t, f, op, ans, step, x);
      case DoLoad(i, k) =>
        RootsSimulated(s, t, f, op, ans, step, x);
      case DoRead(i) =>
        RootsSimulated(s, t, f, op, ans, step, x);
        ReadCorr(s, t, f, i);
      case DoSame(i, j) =>
        RootsSimulated(s, t, f, op, ans, step, x);
        SameCorr(s, t, f, i, j);
    }
  }

  lemma RootsSimulated(s: State, t: Ideal, f: map<int, int>, op: Op, ans: Answer, step: Step, x: State)
    requires Simulates(s, t, f) && Does(s, op, ans, step, x) && Safe(MemOf(x)) && Next(MemOf(s), Roots, MemOf(x))
    requires op.DoSwitch? || op.DoDrop? || op.DoLoad? || op.DoRead? || op.DoSame?
    ensures Simulates(x, IdealStep(t, op), f)
  {
    hide Live, Safe, BodyCorr, RootsCorr, ObjectsCorr, Apart;
    LiveObjects(MemOf(s));
    RootsReachNoMore(MemOf(s), MemOf(x));
    RootsAfter(s, t, f, op, ans, step, x);
    SimulatesStill(s, t, f, x, IdealStep(t, op).roots);
  }

  lemma ReadCorr(s: State, t: Ideal, f: map<int, int>, i: int)
    requires Simulates(s, t, f)
    ensures var p, u := Held(s.roots, i), Held(t.roots, i);
            if IsObject(s.cells, p) then 0 <= u < |t.objects| && t.objects[u].data == s.cells[p].body.data
            else !(0 <= u < |t.objects|)
  {
    HeldCorr(s, t, f, i);
    hide Simulates;
  }

  // ---------- running ----------

  ghost function StateOf(space: ObjSpace): State
    reads space`cells, space`roots
  {
    State(space.cells, space.roots)
  }

  method PerformOne(space: ObjSpace, op: Op) returns (ans: Answer, ghost step: Step)
    requires space.Valid() && Safe(space.Memory())
    modifies space, space.heaps, space.markStack
    ensures space.Valid() && (space.heaps == old(space.heaps) || fresh(space.heaps))
    ensures Does(old(StateOf(space)), op, ans, step, StateOf(space))
  {
    hide ObjSpace.Valid, Safe, Next, Live;
    ans, step := Nothing, Roots;
    match op {
      case DoNew =>
        var obj := space.NewObj();
        step := New(obj);
      case DoCollect =>
        space.GarbageCollect();
        step := Collect;
      case DoSwitch(off) =>
        space.Switch(off);
      case DoDrop(i) =>
        space.SetRoots(Without(space.roots, i));
      case DoLoad(i, k) =>
        var p := Held(space.roots, i);
        space.SetRoots(space.roots + [if IsObject(space.cells, p) then Reference(space.cells[p].body, k) else -1]);
      case DoWrite(i, slots, tail, data) =>
        step := PerformWrite(space, i, slots, tail, data);
      case DoRead(i) =>
        var p := Held(space.roots, i);
        if IsObject(space.cells, p) { ans := Data(space.cells[p].body.data); }
      case DoSame(i, j) =>
        ans := Truth(Held(space.roots, i) == Held(space.roots, j));
    }
  }

  method PerformWrite(space: ObjSpace, i: int, slots: seq<(int, bool)>, tail: int, data: int) returns (ghost step: Step)
    requires space.Valid() && Safe(space.Memory())
    modifies space`cells
    ensures space.Valid() && Does(old(StateOf(space)), DoWrite(i, slots, tail, data), Nothing, step, StateOf(space))
  {
    hide ObjSpace.Valid, Safe, Next, Live;
    var p, body := Held(space.roots, i), BodyFrom(space.roots, slots, tail, data);
    step := Roots;
    if IsObject(space.cells, p) {
      RootKnown(StateOf(space), i);
      BodyKnown(StateOf(space), slots, tail, data);
      space.Store(p, body);
      step := Write(p, body);
    }
  }

  /** The step of a run that an operation is. */
  predicate IsStepFor(op: Op, step: Step) {
    match op
    case DoNew => step.New?
    case DoCollect => step.Collect?
    case DoWrite(_, _, _, _) => step.Write? || step.Roots?
    case _ => step.Roots?
  }

  /**
   * A whole program on the object space is a run, and is answered as in the memory that is never collected,
   * wherever cells are handed out, taken back and handed out again.
   */
  method Perform(space: ObjSpace, ops: seq<Op>, ghost t0: Ideal, ghost f0: map<int, int>)
    returns (answers: seq<Answer>, ghost ss: seq<Mem>, ghost steps: seq<Step>, ghost f: map<int, int>)
    requires space.Valid() && Simulates(StateOf(space), t0, f0)
    modifies space, space.heaps, space.markStack
    ensures space.Valid() && answers == IdealAnswers(t0, ops) && Simulates(StateOf(space), IdealAfter(t0, ops), f)
    ensures Run(ss, steps) && |steps| == |ops| && ss[0] == old(space.Memory()) && ss[|ops|] == space.Memory()
    ensures forall i :: 0 <= i < |ops| ==> IsStepFor(ops[i], steps[i])
  {
    hide ObjSpace.Valid, Simulates, Next, Does, IdealStep, IdealAnswer;
    answers, ss, steps, f := [], [MemOf(StateOf(space))], [], f0;
    var n := 0;
    while n < |ops|
      invariant 0 <= n <= |ops| && |ss| == n + 1 && |steps| == n
      invariant space.Valid() && (space.heaps == old(space.heaps) || fresh(space.heaps))
      invariant answers == IdealAnswers(t0, ops[..n]) && Simulates(StateOf(space), IdealAfter(t0, ops[..n]), f)
      invariant ss[0] == old(space.Memory()) && ss[n] == MemOf(StateOf(space))
      invariant forall i :: 0 <= i < n ==> Next(ss[i], steps[i], ss[i + 1]) && IsStepFor(ops[i], steps[i])
    {
      ghost var s, t := StateOf(space), IdealAfter(t0, ops[..n]);
      SimulatedIsSafe(s, t, f);
      var ans;
      ghost var step;
      ans, step := PerformOne(space, ops[n]);
      f := OneSimulated(s, t, f, ops[n], ans, step, StateOf(space));
      StepFor(s, ops[n], ans, step, StateOf(space));
      assert ops[..n + 1][..n] == ops[..n];
      answers, ss, steps := answers + [ans], ss + [MemOf(StateOf(space))], steps + [step];
      n := n + 1;
    }
    assert ops[..n] == ops;
  }

  lemma SimulatedIsSafe(s: State, t: Ideal, f: map<int, int>)
    requires Simulates(s, t, f)
    ensures Safe(MemOf(s))
  {
  }

  lemma StepFor(s: State, op: Op, ans: Answer, step: Step, t: State)
    requires Does(s, op, ans, step, t)
    ensures IsStepFor(op, step)
  {
    hide Next;
  }

  /** From Init_heap on. */
  method RunProgram(ops: seq<Op>) returns (answers: seq<Answer>)
    ensures answers == IdealAnswers(Ideal([], []), ops)
  {
    hide ObjSpace.Valid, Safe, IdealAnswers, IdealAfter, Run;
    var space := new ObjSpace();
    NothingYet(StateOf(space));
    ghost var ss, steps, f;
    answers, ss, steps, f := Perform(space, ops, Ideal([], []), map[]);
  }

  lemma NothingYet(s: State)
    requires Safe(MemOf(s)) && s.roots == []
    ensures Simulates(s, Ideal([], []), map[])
  {
    hide Safe;
    assert Elements([]) == {};
    LiveIsLeast(s.cells, {}, {});
    assert LiveIn(s) == {};
  }
}
