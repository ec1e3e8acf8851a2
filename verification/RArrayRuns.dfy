/** Whole runs of array operations refine runs on plain sequences. */
module RArrayRuns {
  import opened RArrays
  import opened RArrayOps

  /** What a program can see: the elements of every array, and which arrays are frozen. */
  datatype State = State(views: map<int, seq<Value>>, frozen: set<int>)

  datatype Op =
    | DoNew
    | DoFreeze(a: int)
    | DoStore(a: int, idx: int, val: Value)
    | DoPop(a: int)
    | DoShift(a: int)
    | DoSubseq(a: int, beg: int, len: int)
    | DoReplace(a: int, orig: int)
    | DoSplice(a: int, beg: int, len: int, rpl: Value)

  /** What a program gets back; an operation on something that is no array of the program is skipped. */
  datatype Answer = Skipped | Answer(st: Status, value: Value)

  /** The arrays an operation mentions are arrays of the program. */
  predicate Applies(op: Op, known: set<int>) {
    && (!op.DoNew? ==> op.a in known) && (op.DoReplace? ==> op.orig in known)
    && (op.DoSplice? ==> op.rpl.Nil? || (op.rpl.Array? && op.rpl.id in known))
  }

  /** Index n counted from the front, or from the end when negative. */
  function FromFront(n: int, len: nat): int {
    if n < 0 then n + len else n
  }

  /** What goes wrong: a place before the first element, a negative length, or a frozen array. */
  predicate Fails(v: State, op: Op, st: Status)
    requires Applies(op, v.views.Keys)
  {
    match op
    case DoStore(a, idx, _) => st == if FromFront(idx, |v.views[a]|) < 0 then IndexError else FrozenError
    case DoSplice(a, beg, len, _) =>
      st == if len < 0 || FromFront(beg, |v.views[a]|) < 0 then IndexError else FrozenError
    case _ => st == FrozenError
  }

  /** The operation writes to an array that is frozen, or to a place that is not there. */
  predicate Refused(v: State, op: Op)
    requires Applies(op, v.views.Keys)
  {
    match op
    case DoStore(a, idx, _) => FromFront(idx, |v.views[a]|) < 0 || a in v.frozen
    case DoPop(a) => a in v.frozen
    case DoShift(a) => a in v.frozen
    case DoReplace(a, _) => a in v.frozen
    case DoSplice(a, beg, len, _) => len < 0 || FromFront(beg, |v.views[a]|) < 0 || a in v.frozen
    case _ => false
  }

  /** The array a has the elements s now. */
  function With(v: State, a: int, s: seq<Value>): State {
    v.(views := v.views[a := s])
  }

  /** What an operation that is not refused does to plain sequences, and what it answers. */
  ghost predicate Does(v: State, op: Op, r: Value, w: State)
    requires Applies(op, v.views.Keys) && !Refused(v, op)
  {
    match op
    case DoNew => r.Array? && r.id !in v.views && w == With(v, r.id, [])
    case DoFreeze(a) => r == Nil && w == v.(frozen := v.frozen + {a})
    case DoStore(a, idx, val) => r == Nil && w == With(v, a, Stored(v.views[a], FromFront(idx, |v.views[a]|), val))
    case DoPop(a) =>
      var s := v.views[a];
      if s == [] then r == Nil && w == v else r == s[|s| - 1] && w == With(v, a, s[..|s| - 1])
    case DoShift(a) =>
      var s := v.views[a];
      if s == [] then r == Nil && w == v else r == s[0] && w == With(v, a, s[1..])
    case DoSubseq(a, beg, len) =>
      var s := v.views[a];
      if beg < 0 || beg > |s| || len < 0 then r == Nil && w == v
      else r.Array? && r.id !in v.views && w == With(v, r.id, s[beg..if beg + len > |s| then |s| else beg + len])
    case DoReplace(a, orig) => r == Nil && w == With(v, a, v.views[orig])
    case DoSplice(a, beg, len, rpl) =>
      var s := v.views[a];
      r == Nil && w == With(v, a, Spliced(s, FromFront(beg, |s|), len, if rpl.Nil? then [] else v.views[rpl.id]))
  }

  /** One operation of a program on plain sequences. */
  ghost predicate Step(v: State, op: Op, ans: Answer, w: State) {
    if !Applies(op, v.views.Keys) then ans == Skipped && w == v
    else if Refused(v, op) then ans.Answer? && Fails(v, op, ans.st) && ans.value == Nil && w == v
    else ans.Answer? && ans.st == Done && Does(v, op, ans.value, w)
  }

  ghost predicate Trace(vs: seq<State>, ops: seq<Op>, answers: seq<Answer>) {
    && |vs| == |ops| + 1 && |answers| == |ops|
    && forall i :: 0 <= i < |ops| ==> Step(vs[i], ops[i], answers[i], vs[i + 1])
  }

  /** The operations that write to an array: Subseq writes to none. */
  predicate Changes(op: Op, b: int) {
    !op.DoNew? && !op.DoSubseq? && op.a == b
  }

  /** An operation leaves an array alone that it does not write to, and one that is frozen. */
  lemma StepLeaves(v: State, op: Op, ans: Answer, w: State, b: int)
    requires Step(v, op, ans, w) && b in v.views && (!Changes(op, b) || b in v.frozen)
    ensures b in w.views && w.views[b] == v.views[b]
    ensures b in v.frozen ==> b in w.frozen
  {
    hide Stored, Spliced;
  }

  /**
   * Over every run, from whatever point on, an array that no operation writes to keeps its elements,
   * however many others share its block.
   */
  lemma {:induction false} Undisturbed(vs: seq<State>, ops: seq<Op>, answers: seq<Answer>, i: nat, j: nat, b: int)
    requires Trace(vs, ops, answers) && i <= j <= |ops| && b in vs[i].views
    requires forall k :: i <= k < j ==> !Changes(ops[k], b)
    ensures b in vs[j].views && vs[j].views[b] == vs[i].views[b]
    decreases j
  {
    hide Step, Changes;
    if i < j {
      Undisturbed(vs, ops, answers, i, j - 1, b);
      StepLeaves(vs[j - 1], ops[j - 1], answers[j - 1], vs[j], b);
    }
  }

  /** Over every run, an array that is frozen stays so and keeps its elements, whatever is called on it. */
  lemma {:induction false} FrozenForever(vs: seq<State>, ops: seq<Op>, answers: seq<Answer>, i: nat, j: nat, b: int)
    requires Trace(vs, ops, answers) && i <= j <= |ops| && b in vs[i].views && b in vs[i].frozen
    ensures b in vs[j].views && vs[j].views[b] == vs[i].views[b] && b in vs[j].frozen
    decreases j
  {
    hide Step, Changes;
    if i < j {
      FrozenForever(vs, ops, answers, i, j - 1, b);
      StepLeaves(vs[j - 1], ops[j - 1], answers[j - 1], vs[j], b);
    }
  }

  lemma StepIsDetermined(v: State, op: Op, ans: Answer, w: State, ans': Answer, w': State)
    requires Step(v, op, ans, w) && Step(v, op, ans', w')
    requires op.DoNew? || op.DoSubseq? ==> ans == ans'
    ensures ans == ans' && w == w'
  {
    hide Stored, Spliced;
  }

  /**
   * All a program can see of a run is determined by what it sees at the start, its operations and the
   * identities of the arrays made on the way: who shares a block with whom makes no difference.
   */
  lemma {:induction false} RunIsDetermined(vs: seq<State>, ws: seq<State>, ops: seq<Op>, answers: seq<Answer>,
        answers': seq<Answer>, n: nat)
    requires Trace(vs, ops, answers) && Trace(ws, ops, answers') && vs[0] == ws[0] && n <= |ops|
    requires forall k :: 0 <= k < n && (ops[k].DoNew? || ops[k].DoSubseq?) ==> answers[k] == answers'[k]
    ensures vs[n] == ws[n] && answers[..n] == answers'[..n]
  {
    hide Step;
    if n > 0 {
      RunIsDetermined(vs, ws, ops, answers, answers', n - 1);
      StepIsDetermined(vs[n - 1], ops[n - 1], answers[n - 1], vs[n], answers'[n - 1], ws[n]);
      assert answers[..n] == answers[..n - 1] + [answers[n - 1]];
      assert answers'[..n] == answers'[..n - 1] + [answers'[n - 1]];
    }
  }

  ghost function StateOf(space: ArraySpace): State
    requires space.Valid()
    reads space
  {
    State(View(space.Now()), FrozenUsers(space.Now()))
  }

  lemma StateFacts(space: ArraySpace)
    requires space.Valid()
    ensures StateOf(space).views.Keys == space.users
    ensures forall a :: a in space.users ==>
              && a in space.arrays && space.Elements(a) == StateOf(space).views[a]
              && (a in StateOf(space).frozen <==> space.arrays[a].frozen)
              && (a in StateOf(space).frozen <==> a in FrozenOnes(space.Now()))
  {
  }

  /** One operation; known are the arrays the program has. */
  method PerformOne(space: ArraySpace, known: set<int>, op: Op) returns (ans: Answer)
    requires space.Valid() && known == StateOf(space).views.Keys
    modifies space
    ensures space.Valid() && Step(old(StateOf(space)), op, ans, StateOf(space))
  {
    hide StateOf, Does, Refused, Fails;
    if !Applies(op, known) { return Skipped; }
    if op.DoStore? || op.DoReplace? || op.DoSplice? {
      ans := PerformWrite(space, op);
    } else {
      ans := PerformOther(space, op);
    }
  }

  method PerformWrite(space: ArraySpace, op: Op) returns (ans: Answer)
    requires space.Valid() && Applies(op, StateOf(space).views.Keys) && (op.DoStore? || op.DoReplace? || op.DoSplice?)
    modifies space
    ensures space.Valid() && Step(old(StateOf(space)), op, ans, StateOf(space))
  {
    hide Ok, View, Stored, Spliced, FrozenOnes, FrozenUsers;
    StateFacts(space);
    var st;
    match op {
      case DoStore(a, idx, val) =>
        st := space.Store(a, idx, val);
      case DoReplace(a, orig) =>
        st := space.Replace(a, orig);
      case DoSplice(a, beg, len, rpl) =>
        st := space.Splice(a, beg, len, rpl);
    }
    ans := Answer(st, Nil);
  }

  method PerformOther(space: ArraySpace, op: Op) returns (ans: Answer)
    requires space.Valid() && Applies(op, StateOf(space).views.Keys) && !op.DoStore? && !op.DoReplace? && !op.DoSplice?
    modifies space
    ensures space.Valid() && Step(old(StateOf(space)), op, ans, StateOf(space))
  {
    hide Ok, View, Stored, Spliced, FrozenOnes, FrozenUsers;
    StateFacts(space);
    var st, r := Done, Nil;
    match op {
      case DoNew =>
        var id := space.NewArray(ARY_DEFAULT_SIZE);
        r := Array(id);
      case DoFreeze(a) =>
        space.Freeze(a);
      case DoPop(a) =>
        st, r := space.Pop(a);
      case DoShift(a) =>
        st, r := space.Shift(a);
      case DoSubseq(a, beg, len) =>
        r := space.Subseq(a, beg, len);
    }
    ans := Answer(st, r);
  }

  /** The arrays of the program after an operation. */
  function KnownAfter(known: set<int>, op: Op, ans: Answer): set<int> {
    if (op.DoNew? || op.DoSubseq?) && ans.Answer? && ans.value.Array? then known + {ans.value.id} else known
  }

  lemma StepKnows(v: State, op: Op, ans: Answer, w: State)
    requires Step(v, op, ans, w)
    ensures w.views.Keys == KnownAfter(v.views.Keys, op, ans)
  {
    hide Stored, Spliced;
  }

  /**
   * A whole run on shared, in-place storage is a run on plain sequences: every answer and every state
   * a program can see. Operations may use the arrays that earlier ones made.
   */
  method Perform(space: ArraySpace, known: set<int>, ops: seq<Op>)
    returns (answers: seq<Answer>, ghost vs: seq<State>)
    requires space.Valid() && known == StateOf(space).views.Keys
    modifies space
    ensures space.Valid() && Trace(vs, ops, answers) && vs[0] == old(StateOf(space)) && vs[|ops|] == StateOf(space)
  {
    hide Ok, View, Step, StateOf;
    var now := known;
    answers, vs := [], [StateOf(space)];
    while |answers| < |ops|
      invariant |answers| <= |ops| && |vs| == |answers| + 1 && space.Valid() && now == StateOf(space).views.Keys
      invariant vs[0] == old(StateOf(space)) && vs[|answers|] == StateOf(space)
      invariant forall j :: 0 <= j < |answers| ==> Step(vs[j], ops[j], answers[j], vs[j + 1])
    {
      var op := ops[|answers|];
      ghost var v := StateOf(space);
      var ans := PerformOne(space, now, op);
      StepKnows(v, op, ans, StateOf(space));
      now := KnownAfter(now, op, ans);
      answers, vs := answers + [ans], vs + [StateOf(space)];
    }
  }
}
