/** Whole runs of definitions, inclusions and calls: when the cache answers as a fresh walk does. */
module MethodRuns {
  import opened MethodTable
  import opened SuperChains
  import opened ClassTree
  import opened IncludeChain
  import opened StaleCache
  import opened MethodCache
  import opened MethodMeaning

  datatype Op =
    | DoNewClass(super: int, singleton: bool)
    | DoNewModule
    | DoFreeze(klass: int)
    | DoAdd(klass: int, name: int, node: Option<Body>, noex: int)
    | DoUndef(klass: int, name: int)
    | DoAlias(klass: int, name: int, def: int)
    | DoInclude(klass: int, m: int)
    | DoCall(klass: int, name: int)

  /** What an operation gives back; one that names no class is skipped. */
  datatype Answer = Skipped | Made(c: int) | Was(st: Status) | Got(r: Result)

  /** The operation names classes that are there, and entries of modules are not named. */
  predicate Applies(classes: map<int, RClass>, op: Op) {
    match op
    case DoNewClass(super, _) => super in classes && classes[super].kind.Class?
    case DoNewModule => true
    case DoFreeze(klass) => klass in classes
    case DoAdd(klass, _, node, _) =>
      && klass in classes && !classes[klass].kind.IClass?
      && (node.Some? && node.value.FBody? ==> node.value.orig in classes)
    case DoUndef(klass, _) => klass in classes && !classes[klass].kind.IClass?
    case DoAlias(klass, _, _) => klass in classes && !classes[klass].kind.IClass?
    case DoInclude(klass, m) => klass in classes && m in classes && !classes[klass].kind.IClass?
    case DoCall(klass, name) => klass in classes && name != 0
  }

  /** What an operation does to classes, tables and chains, and what it answers; calls aside. */
  ghost predicate Does(w: World, rbCObject: int, op: Op, ans: Answer, x: World)
    requires Ok(w) && Applies(w.classes, op)
  {
    match op
    case DoNewClass(super, singleton) => ans.Made? && NewClassMade(w, x, Class, super, singleton, ans.c)
    case DoNewModule => ans.Made? && NewClassMade(w, x, Module, 0, false, ans.c)
    case DoFreeze(klass) => ans == Was(Done) && x == FrozenClass(w, klass)
    case DoAdd(klass, name, node, noex) =>
      if w.classes[klass].frozen then ans == Was(FrozenError) && x == w
      else ans == Was(Done) && x == WithMethod(w, klass, DefinedAs(w.classes[klass], name, node),
                                               Method(Visibility(w.classes[klass], name, node, noex), node))
    case DoUndef(klass, name) =>
      && ans == Was(UndefStatus(w, klass, name))
      && x == if !ans.st.Done? then w else WithMethod(w, klass, name, Method(NOEX_PUBLIC, None))
    case DoAlias(klass, name, def) =>
      && ans == Was(AliasStatus(w, rbCObject, klass, name, def))
      && x == if !ans.st.Done? || name == def then w else
           var f := AliasTarget(w, rbCObject, klass, def).value;
           WithMethod(w, klass, name, Method(f.entry.noex, Some(AliasBody(f, def))))
    case DoInclude(klass, m) => ans == Was(IncludeStatus(w, klass, m)) && IncludeOutcome(w, x, klass, m, ans.st)
    case DoCall(_, _) => ans.Got? && x == w
  }

  /** One operation. While the cache is right, a call gets what a fresh walk finds. */
  ghost predicate Step(w: World, right: bool, rbCObject: int, op: Op, ans: Answer, x: World) {
    && Ok(w) && Tidy(w) && Ok(x) && Tidy(x)
    && if !Applies(w.classes, op) then ans == Skipped && x == w
       else Does(w, rbCObject, op, ans, x) && (op.DoCall? && right ==> ans.r == Lookup(w, op.klass, op.name))
  }

  /** A cyclic inclusion by which a name is overtaken, without the cache being cleared. */
  ghost predicate Spoils(w: World, op: Op, ans: Answer) {
    && op.DoInclude? && Ok(w) && Applies(w.classes, op) && ans.Was? && Overtakes(w, op.klass, op.m, ans.st)
  }

  /** The cache is right after an operation: it was and is not spoiled, or it has been cleared. */
  ghost predicate RightAfter(w: World, right: bool, op: Op, ans: Answer, x: World) {
    (right && !Spoils(w, op, ans)) || (op.DoInclude? && ans == Was(Done) && x != w)
  }

  ghost predicate Trace(ws: seq<World>, rights: seq<bool>, rbCObject: int, ops: seq<Op>, answers: seq<Answer>) {
    && |ws| == |rights| == |ops| + 1 && |answers| == |ops|
    && (forall i :: 0 <= i < |ops| ==> Step(ws[i], rights[i], rbCObject, ops[i], answers[i], ws[i + 1]))
    && (forall i :: 0 <= i < |ops| ==> rights[i + 1] == RightAfter(ws[i], rights[i], ops[i], answers[i], ws[i + 1]))
  }

  // ---------- what holds over every run ----------

  lemma {:induction false} StaysRight(ws: seq<World>, rights: seq<bool>, rbCObject: int, ops: seq<Op>,
        answers: seq<Answer>, i: nat, j: nat)
    requires Trace(ws, rights, rbCObject, ops, answers) && i <= j <= |ops| && rights[i]
    requires forall k :: i <= k < j ==> !Spoils(ws[k], ops[k], answers[k])
    ensures rights[j]
    decreases j
  {
    hide Step, Spoils;
    if i < j {
      StaysRight(ws, rights, rbCObject, ops, answers, i, j - 1);
      assert rights[j - 1 + 1] == RightAfter(ws[j - 1], rights[j - 1], ops[j - 1], answers[j - 1], ws[j]);
    }
  }

  /** From a place where the cache is right on, calls are right until it is spoiled. */
  lemma RightCalls(ws: seq<World>, rights: seq<bool>, rbCObject: int, ops: seq<Op>, answers: seq<Answer>, h: nat,
        i: nat)
    requires Trace(ws, rights, rbCObject, ops, answers) && h <= i < |ops| && rights[h]
    requires forall k :: h <= k < i ==> !Spoils(ws[k], ops[k], answers[k])
    requires ops[i].DoCall? && Applies(ws[i].classes, ops[i])
    ensures answers[i] == Got(Lookup(ws[i], ops[i].klass, ops[i].name))
  {
    StaysRight(ws, rights, rbCObject, ops, answers, h, i);
    hide Spoils, RightAfter, Tidy, Lookup;
    assert Step(ws[i], rights[i], rbCObject, ops[i], answers[i], ws[i + 1]);
  }

  /**
   * Over every run that starts with a right cache, however operations are interleaved: until a cyclic
   * inclusion overtakes a name, a call gets what a fresh walk along the chain finds at that time.
   */
  lemma CallsAreRight(ws: seq<World>, rights: seq<bool>, rbCObject: int, ops: seq<Op>, answers: seq<Answer>, i: nat)
    requires Trace(ws, rights, rbCObject, ops, answers) && i < |ops| && rights[0]
    requires forall k :: 0 <= k < i ==> !Spoils(ws[k], ops[k], answers[k])
    requires ops[i].DoCall? && Applies(ws[i].classes, ops[i])
    ensures answers[i] == Got(Lookup(ws[i], ops[i].klass, ops[i].name))
  {
    hide Step, Spoils, RightAfter, Lookup;
    RightCalls(ws, rights, rbCObject, ops, answers, 0, i);
  }

  lemma RightAgain(ws: seq<World>, rights: seq<bool>, rbCObject: int, ops: seq<Op>, answers: seq<Answer>, i: nat)
    requires Trace(ws, rights, rbCObject, ops, answers) && i < |ops|
    requires ops[i].DoInclude? && answers[i] == Was(Done) && ws[i + 1] != ws[i]
    ensures rights[i + 1]
  {
    hide Step, Spoils;
    assert rights[i + 1] == RightAfter(ws[i], rights[i], ops[i], answers[i], ws[i + 1]);
  }

  /**
   * Whatever has happened before, even if the cache was wrong: after an inclusion that inserts an entry and
   * succeeds, every call gets what a fresh walk finds, until a cyclic inclusion overtakes a name.
   */
  lemma InclusionHeals(ws: seq<World>, rights: seq<bool>, rbCObject: int, ops: seq<Op>, answers: seq<Answer>,
        i: nat, j: nat)
    requires Trace(ws, rights, rbCObject, ops, answers) && i < j < |ops|
    requires ops[i].DoInclude? && answers[i] == Was(Done) && ws[i + 1] != ws[i]
    requires forall k :: i < k < j ==> !Spoils(ws[k], ops[k], answers[k])
    requires ops[j].DoCall? && Applies(ws[j].classes, ops[j])
    ensures answers[j] == Got(Lookup(ws[j], ops[j].klass, ops[j].name))
  {
    hide Trace, Step, Spoils, RightAfter, Lookup;
    RightAgain(ws, rights, rbCObject, ops, answers, i);
    RightCalls(ws, rights, rbCObject, ops, answers, i + 1, j);
  }

  // ---------- names that are not touched ----------

  /** The operation may change what this name means somewhere. */
  predicate Touches(w: World, op: Op, name: int) {
    match op
    case DoAdd(klass, n, node, _) => klass in w.classes && DefinedAs(w.classes[klass], n, node) == name
    case DoUndef(_, n) => n == name
    case DoAlias(_, n, _) => n == name
    case DoInclude(_, _) => true
    case _ => false
  }

  lemma OtherName(w: World, klass: int, mid: int, m: Method, d: int, name: int)
    requires Ok(w) && klass in w.classes && d in w.classes && mid != name
    ensures d in WithMethod(w, klass, mid, m).classes
    ensures Lookup(WithMethod(w, klass, mid, m), d, name) == Lookup(w, d, name)
  {
    assert ChainOk(w, klass);
    FindOtherName(w, WithMethod(w, klass, mid, m), w.chain[d], name, mid);
  }

  lemma UntouchedStep(w: World, right: bool, rbCObject: int, op: Op, ans: Answer, x: World, d: int, name: int)
    requires Step(w, right, rbCObject, op, ans, x) && !Touches(w, op, name) && d in w.classes
    ensures d in x.classes && Lookup(x, d, name) == Lookup(w, d, name)
  {
    hide ChainOk, Tidy, Lookup, NewClassMade;
    if Applies(w.classes, op) {
      match op {
        case DoNewClass(super, singleton) => LookupInNew(w, x, Class, super, singleton, ans.c, d, name);
        case DoNewModule => LookupInNew(w, x, Module, 0, false, ans.c, d, name);
        case DoFreeze(klass) => LookupInFrozen(w, klass, d, name);
        case DoAdd(klass, n, node, noex) =>
          OtherName(w, klass, DefinedAs(w.classes[klass], n, node),
                    Method(Visibility(w.classes[klass], n, node, noex), node), d, name);
        case DoUndef(klass, n) => OtherName(w, klass, n, Method(NOEX_PUBLIC, None), d, name);
        case DoAlias(klass, n, def) =>
          if x != w {
            var f := AliasTarget(w, rbCObject, klass, def).value;
            OtherName(w, klass, n, Method(f.entry.noex, Some(AliasBody(f, def))), d, name);
          }
        case _ =>
      }
    }
  }

  /** Over every run without inclusions, a name nobody defines, undefines or makes an alias means what it meant. */
  lemma {:induction false} Untouched(ws: seq<World>, rights: seq<bool>, rbCObject: int, ops: seq<Op>,
        answers: seq<Answer>, i: nat, j: nat, d: int, name: int)
    requires Trace(ws, rights, rbCObject, ops, answers) && i <= j <= |ops| && d in ws[i].classes
    requires forall k :: i <= k < j ==> !Touches(ws[k], ops[k], name)
    ensures d in ws[j].classes && Lookup(ws[j], d, name) == Lookup(ws[i], d, name)
    decreases j
  {
    hide Step, RightAfter, Touches, Lookup;
    if i < j {
      Untouched(ws, rights, rbCObject, ops, answers, i, j - 1, d, name);
      UntouchedStep(ws[j - 1], rights[j - 1], rbCObject, ops[j - 1], answers[j - 1], ws[j], d, name);
    }
  }

  /** A call gets what a lookup found, however long ago, if nobody has touched the name since. */
  lemma UntouchedCall(ws: seq<World>, rights: seq<bool>, rbCObject: int, ops: seq<Op>, answers: seq<Answer>, i: nat,
        j: nat)
    requires Trace(ws, rights, rbCObject, ops, answers) && i <= j < |ops| && rights[i]
    requires ops[j].DoCall? && Applies(ws[j].classes, ops[j]) && ops[j].klass in ws[i].classes
    requires forall k :: i <= k < j ==> !Touches(ws[k], ops[k], ops[j].name)
    ensures answers[j] == Got(Lookup(ws[i], ops[j].klass, ops[j].name))
  {
    assert |ws| == |ops| + 1 && |answers| == |ops|;
    hide Trace, Step, Spoils, RightAfter, Touches, Lookup;
    forall k | i <= k < j ensures !Spoils(ws[k], ops[k], answers[k]) {
      NotSpoiled(ws[k], ops[k], answers[k], ops[j].name);
    }
    RightCalls(ws, rights, rbCObject, ops, answers, i, j);
    Untouched(ws, rights, rbCObject, ops, answers, i, j, ops[j].klass, ops[j].name);
  }

  /**
   * Over every run: after a method has been defined in a class, a call to it gets just the body that was given,
   * until somebody touches the name.
   */
  lemma DefinedIsCalled(ws: seq<World>, rights: seq<bool>, rbCObject: int, ops: seq<Op>, answers: seq<Answer>,
        i: nat, j: nat, klass: int, name: int, node: Option<Body>, noex: int)
    requires Trace(ws, rights, rbCObject, ops, answers) && i < j < |ops| && rights[i]
    requires ops[i] == DoAdd(klass, name, node, noex) && Applies(ws[i].classes, ops[i]) && answers[i] == Was(Done)
    requires ops[j].DoCall? && Applies(ws[j].classes, ops[j]) && ops[j].klass == klass
    requires klass in ws[i].classes
    requires ops[j].name == if ws[i].classes[klass].singleton && name == ALLOCATE && node.Some? && node.value.CFunc?
                            then ID_ALLOCATOR else name
    requires forall k :: i < k < j ==> !Touches(ws[k], ops[k], ops[j].name)
    ensures answers[j] == Got(
              var initializer := name == INITIALIZE || name == INITIALIZE_COPY;
              var noex' := if ws[i].classes[klass].singleton || !initializer || (noex / 2) % 2 == 1 then noex
                           else noex + 2;
              match node
              case None => Absent
              case Some(FBody(head, mid0, orig)) => Hit(orig, mid0, head, noex')
              case Some(ZSuper) => Hit(klass, name, ZSuper, noex)
              case Some(Other(n)) => Hit(klass, name, Other(n), noex')
              case Some(CFunc(f)) => Hit(klass, ops[j].name, CFunc(f), noex'))
  {
    hide Spoils, Touches, Tidy, Lookup;
    assert Step(ws[i], rights[i], rbCObject, ops[i], answers[i], ws[i + 1]);
    assert rights[i + 1] == RightAfter(ws[i], rights[i], ops[i], answers[i], ws[i + 1]);
    AddNeverSpoils(ws[i], ops[i], answers[i]);
    AddedTo(ws[i], ws[i + 1], klass, name, node, noex);
    hide Trace, Step;
    UntouchedCall(ws, rights, rbCObject, ops, answers, i + 1, j);
  }

  lemma AddNeverSpoils(w: World, op: Op, ans: Answer)
    requires op.DoAdd? || op.DoAlias? || op.DoUndef?
    ensures !Spoils(w, op, ans)
  {
  }

  lemma NotSpoiled(w: World, op: Op, ans: Answer, name: int)
    requires !Touches(w, op, name)
    ensures !Spoils(w, op, ans)
  {
  }

  lemma AddedTo(w: World, x: World, klass: int, name: int, node: Option<Body>, noex: int)
    requires Ok(x) && klass in w.classes
    requires x == WithMethod(w, klass, DefinedAs(w.classes[klass], name, node),
                             Method(Visibility(w.classes[klass], name, node, noex), node))
    ensures MethodDefined(x, w.classes[klass].singleton, klass, name, node, noex)
  {
    hide Ok;
    NowDefined(x, klass, name, node, noex, DefinedAs(w.classes[klass], name, node),
               Visibility(w.classes[klass], name, node, noex));
  }

  /** Over every run: a call to an alias gets what the old name meant when the alias was made. */
  lemma AliasIsCalled(ws: seq<World>, rights: seq<bool>, rbCObject: int, ops: seq<Op>, answers: seq<Answer>,
        i: nat, j: nat, klass: int, name: int, def: int)
    requires Trace(ws, rights, rbCObject, ops, answers) && i < j < |ops| && rights[i] && rbCObject in ws[i].classes
    requires ops[i] == DoAlias(klass, name, def) && name != def && klass in ws[i].classes
    requires Applies(ws[i].classes, ops[i]) && answers[i] == Was(Done)
    requires ops[j] == DoCall(klass, name) && Applies(ws[j].classes, ops[j])
    requires forall k :: i < k < j ==> !Touches(ws[k], ops[k], name)
    ensures answers[j] == Got(if Lookup(ws[i], klass, def) != Absent then Lookup(ws[i], klass, def)
                              else Lookup(ws[i], rbCObject, def))
  {
    hide Spoils, Touches, Tidy, Lookup, AliasTarget;
    assert Step(ws[i], rights[i], rbCObject, ops[i], answers[i], ws[i + 1]);
    assert rights[i + 1] == RightAfter(ws[i], rights[i], ops[i], answers[i], ws[i + 1]);
    AddNeverSpoils(ws[i], ops[i], answers[i]);
    var f := AliasTarget(ws[i], rbCObject, klass, def);
    AliasMeans(ws[i], rbCObject, klass, def);
    assert ChainOk(ws[i], klass);
    OwnEntryFound(ws[i + 1], klass, name, Method(f.value.entry.noex, Some(AliasBody(f.value, def))));
    hide Trace, Step;
    UntouchedCall(ws, rights, rbCObject, ops, answers, i + 1, j);
  }

  /** Over every run: after a method has been undefined for a class, a call to it there finds nothing. */
  lemma UndefinedIsCalled(ws: seq<World>, rights: seq<bool>, rbCObject: int, ops: seq<Op>, answers: seq<Answer>,
        i: nat, j: nat, klass: int, name: int)
    requires Trace(ws, rights, rbCObject, ops, answers) && i < j < |ops| && rights[i]
    requires ops[i] == DoUndef(klass, name) && Applies(ws[i].classes, ops[i]) && answers[i] == Was(Done)
    requires ops[j] == DoCall(klass, name) && Applies(ws[j].classes, ops[j])
    requires forall k :: i < k < j ==> !Touches(ws[k], ops[k], name)
    ensures answers[j] == Got(Absent)
  {
    hide Spoils, Touches, Tidy, Lookup, UndefStatus;
    assert Step(ws[i], rights[i], rbCObject, ops[i], answers[i], ws[i + 1]);
    assert rights[i + 1] == RightAfter(ws[i], rights[i], ops[i], answers[i], ws[i + 1]);
    AddNeverSpoils(ws[i], ops[i], answers[i]);
    assert ChainOk(ws[i], klass);
    OwnEntryFound(ws[i + 1], klass, name, Method(NOEX_PUBLIC, None));
    hide Trace, Step;
    UntouchedCall(ws, rights, rbCObject, ops, answers, i + 1, j);
  }

  // ---------- running ----------

  method PerformOne(interp: Interpreter, op: Op) returns (ans: Answer)
    requires interp.Sound()
    modifies interp, interp.cache
    ensures interp.Sound()
    ensures Step(old(interp.Now()), old(interp.Valid()), interp.rbCObject, op, ans, interp.Now())
    ensures RightAfter(old(interp.Now()), old(interp.Valid()), op, ans, interp.Now()) ==> interp.Valid()
  {
    hide ChainOk, Tidy, Coherent, NewClassMade, AliasTarget, Find, Lookup, IncludeOutcome, Overtakes, IncludeStatus;
    if !Applies(interp.classes, op) { return Skipped; }
    match op {
      case DoNewClass(super, singleton) =>
        var c := interp.NewClass(Class, super, singleton);
        ans := Made(c);
      case DoNewModule =>
        var c := interp.NewClass(Module, 0, false);
        ans := Made(c);
      case DoFreeze(klass) =>
        interp.Freeze(klass);
        ans := Was(Done);
      case DoAdd(klass, name, node, noex) =>
        var st := interp.AddMethod(klass, name, node, noex);
        ans := Was(st);
      case DoUndef(klass, name) =>
        var st := interp.Undef(klass, name);
        ans := Was(st);
      case DoAlias(klass, name, def) =>
        var st := interp.Alias(klass, name, def);
        ans := Was(st);
      case DoInclude(klass, m) =>
        var st := interp.IncludeModule(klass, m);
        ans := Was(st);
      case DoCall(klass, name) =>
        var r := interp.Call(klass, name);
        ans := Got(r);
    }
  }

  /** A whole run; rights tells when the cache is right. */
  method Perform(interp: Interpreter, ops: seq<Op>)
    returns (answers: seq<Answer>, ghost ws: seq<World>, ghost rights: seq<bool>)
    requires interp.Sound()
    modifies interp, interp.cache
    ensures interp.Sound() && Trace(ws, rights, interp.rbCObject, ops, answers)
    ensures ws[0] == old(interp.Now()) && (old(interp.Valid()) ==> rights[0])
    ensures ws[|ops|] == interp.Now() && (rights[|ops|] ==> interp.Valid())
  {
    hide Ok, Tidy, Step, RightAfter, Coherent;
    answers, ws, rights := [], [interp.Now()], [interp.Valid()];
    while |answers| < |ops|
      invariant |answers| <= |ops| && |ws| == |rights| == |answers| + 1 && interp.Sound()
      invariant ws[0] == old(interp.Now()) && rights[0] == old(interp.Valid())
      invariant ws[|answers|] == interp.Now() && (rights[|answers|] ==> interp.Valid())
      invariant forall j :: 0 <= j < |answers| ==>
                  Step(ws[j], rights[j], interp.rbCObject, ops[j], answers[j], ws[j + 1])
      invariant forall j :: 0 <= j < |answers| ==>
                  rights[j + 1] == RightAfter(ws[j], rights[j], ops[j], answers[j], ws[j + 1])
    {
      var op := ops[|answers|];
      ghost var w, was, right := interp.Now(), interp.Valid(), rights[|answers|];
      var ans := PerformOne(interp, op);
      LessIsRight(w, was, right, interp.rbCObject, op, ans, interp.Now());
      answers, ws := answers + [ans], ws + [interp.Now()];
      rights := rights + [RightAfter(w, right, op, ans, interp.Now())];
    }
  }

  lemma LessIsRight(w: World, was: bool, right: bool, rbCObject: int, op: Op, ans: Answer, x: World)
    requires Step(w, was, rbCObject, op, ans, x) && (right ==> was)
    ensures Step(w, right, rbCObject, op, ans, x)
    ensures RightAfter(w, right, op, ans, x) ==> RightAfter(w, was, op, ans, x)
  {
  }
}
