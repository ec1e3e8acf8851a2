/** Frozen classes over whole runs: nobody defines anything in them or includes anything in them. */
module FrozenRuns {
  import opened MethodTable
  import opened SuperChains
  import opened ClassTree
  import opened IncludeChain
  import opened MethodCache
  import opened MethodRuns

  /** The class with its own entries, before any superclass. */
  function OwnChain(w: World, c: int): seq<int>
    requires c in w.chain && w.chain[c] != []
  {
    w.chain[c][..OwnPart(w, w.chain[c], 1)]
  }

  /** The first superclass, 0 if there is none. */
  function Superclass(w: World, c: int): int
    requires c in w.chain && w.chain[c] != []
  {
    var k := OwnPart(w, w.chain[c], 1);
    if k < |w.chain[c]| then w.chain[c][k] else 0
  }

  /** The class c is frozen, and has these entries, this superclass and these methods. */
  ghost predicate FrozenWith(w: World, c: int, own: seq<int>, super: int, methods: map<int, Method>) {
    && c in w.classes && w.classes[c].frozen && !w.classes[c].kind.IClass?
    && c in w.chain && w.chain[c] != [] && OwnChain(w, c) == own && Superclass(w, c) == super
    && w.classes[c].tbl in w.tables && w.tables[w.classes[c].tbl] == methods
  }

  lemma OwnPartSame(w: World, x: World, s: seq<int>, i: nat)
    requires 1 <= i <= |s|
    requires forall j :: 0 <= j < |s| ==> s[j] in w.classes && s[j] in x.classes
                                          && x.classes[s[j]].kind == w.classes[s[j]].kind
    ensures OwnPart(x, s, i) == OwnPart(w, s, i)
  {
  }

  lemma SameKinds(w: World, x: World, c: int)
    requires Ok(w) && c in w.classes
    requires forall d :: d in w.classes ==> d in x.classes && x.classes[d].kind == w.classes[d].kind
    ensures c in w.chain
    ensures forall j :: 0 <= j < |w.chain[c]| ==>
              && w.chain[c][j] in w.classes && w.chain[c][j] in x.classes
              && x.classes[w.chain[c][j]].kind == w.classes[w.chain[c][j]].kind
  {
    forall j | 0 <= j < |w.chain[c]|
      ensures w.chain[c][j] in w.classes && w.chain[c][j] in x.classes
      ensures x.classes[w.chain[c][j]].kind == w.classes[w.chain[c][j]].kind
    {
      ChainFrom(w, c, j);
      var d := w.chain[c][j];
      assert d in w.classes;
    }
  }

  /** Old classes stay what they are, and this chain and table stay. */
  lemma SameChain(w: World, x: World, c: int, own: seq<int>, super: int, methods: map<int, Method>)
    requires Ok(w) && FrozenWith(w, c, own, super, methods) && c in x.chain && x.chain[c] == w.chain[c]
    requires forall d :: d in w.classes ==> d in x.classes && x.classes[d].kind == w.classes[d].kind
    requires c in x.classes && x.classes[c].tbl == w.classes[c].tbl && x.classes[c].frozen
    requires w.classes[c].tbl in x.tables && x.tables[w.classes[c].tbl] == w.tables[w.classes[c].tbl]
    ensures FrozenWith(x, c, own, super, methods)
  {
    var s := w.chain[c];
    SameKinds(w, x, c);
    hide Ok;
    OwnPartSame(w, x, s, 1);
  }

  /** A definition in another class leaves the table alone. */
  lemma DefinedElsewhere(w: World, klass: int, mid: int, m: Method, c: int, own: seq<int>, super: int,
        methods: map<int, Method>)
    requires Ok(w) && OwnTables(w) && FrozenWith(w, c, own, super, methods)
    requires klass in w.classes && !w.classes[klass].kind.IClass? && klass != c
    ensures FrozenWith(WithMethod(w, klass, mid, m), c, own, super, methods)
  {
    assert w.classes[klass].tbl != w.classes[c].tbl;
    SameChain(w, WithMethod(w, klass, mid, m), c, own, super, methods);
  }

  /** A place of the chain of c where another class is lies behind the own part. */
  lemma BehindOwnPart(w: World, klass: int, c: int, i: nat)
    requires Ok(w) && OwnLinks(w) && c in w.classes && klass in w.classes && klass != c
    requires !w.classes[klass].kind.IClass? && i < |w.chain[c]| && w.chain[c][i] == klass
    ensures 1 <= i && w.classes[klass].kind.Class? && OwnPart(w, w.chain[c], 1) <= i
  {
    hide OwnLinks;
    ChainHead(w, c);
    if w.classes[klass].kind.Module? { NotBelow(w, c, klass, i); }
  }

  lemma PrefixOwnPart(w: World, x: World, s: seq<int>, t: seq<int>, i: nat)
    requires 1 <= i < |s| && i < |t| && s[..i + 1] == t[..i + 1] && OwnPart(w, s, 1) <= i
    requires forall j :: 0 <= j < |s| ==> s[j] in w.classes && s[j] in x.classes
                                          && x.classes[s[j]].kind == w.classes[s[j]].kind
    ensures OwnPart(x, t, 1) == OwnPart(w, s, 1)
    ensures var k := OwnPart(w, s, 1); k < |s| && k < |t| && t[..k] == s[..k] && t[k] == s[k]
  {
    var k := OwnPart(w, s, 1);
    assert forall j :: 0 <= j <= i ==> s[j] == s[..i + 1][j] == t[..i + 1][j] == t[j];
  }

  /** An inclusion in another class changes what is behind its own part, if anything. */
  lemma IncludedElsewhere(w: World, x: World, klass: int, c: int, own: seq<int>, super: int, methods: map<int, Method>)
    requires Ok(w) && OwnLinks(w) && Ok(x) && FrozenWith(w, c, own, super, methods)
    requires klass in w.classes && !w.classes[klass].kind.IClass? && klass != c
    requires x.tables == w.tables && SameClasses(w, x) && OnlyKlass(w, x, klass)
    ensures FrozenWith(x, c, own, super, methods)
  {
    hide ChainOk, OwnLinks;
    assert FollowsKlass(w, x, klass, c) && c in x.chain && klass in x.chain by { NoOwnEntry(w, klass, c); }
    hide OnlyKlass;
    SameClass(w, x, c);
    assert x.classes[c].frozen;
    forall d | d in w.classes ensures d in x.classes && x.classes[d].kind == w.classes[d].kind { SameClass(w, x, d); }
    if klass !in w.chain[c] {
      SameChain(w, x, c, own, super, methods);
    } else {
      var i :| 0 <= i < |w.chain[c]| && w.chain[c][i] == klass;
      assert x.chain[c] == w.chain[c][..i] + x.chain[klass];
      hide FollowsKlass, SameClasses, FrozenWith;
      ThroughSuperclass(w, x, klass, c, i);
      SameFront(w, x, c, own, super, methods);
    }
  }

  /** The chain of c goes through another class, and that one's chain is all that has changed. */
  lemma ThroughSuperclass(w: World, x: World, klass: int, c: int, i: nat)
    requires Ok(w) && OwnLinks(w) && Ok(x) && c in w.classes && c in x.chain && klass in w.classes && klass in x.classes
    requires klass != c && !w.classes[klass].kind.IClass? && i < |w.chain[c]| && w.chain[c][i] == klass
    requires x.chain[c] == w.chain[c][..i] + x.chain[klass]
    requires forall d :: d in w.classes ==> d in x.classes && x.classes[d].kind == w.classes[d].kind
    ensures w.chain[c] != [] && x.chain[c] != []
    ensures OwnPart(x, x.chain[c], 1) == OwnPart(w, w.chain[c], 1)
    ensures var k, s, t := OwnPart(w, w.chain[c], 1), w.chain[c], x.chain[c];
            k < |s| && k < |t| && t[..k] == s[..k] && t[k] == s[k]
  {
    hide OwnLinks, ChainOk;
    var s, t := w.chain[c], x.chain[c];
    SameKinds(w, x, c);
    BehindOwnPart(w, klass, c, i);
    ChainHead(x, klass);
    hide Ok;
    assert s[..i + 1] == s[..i] + [klass] == t[..i + 1];
    PrefixOwnPart(w, x, s, t, i);
  }

  lemma SameFront(w: World, x: World, c: int, own: seq<int>, super: int, methods: map<int, Method>)
    requires FrozenWith(w, c, own, super, methods) && x.tables == w.tables
    requires c in w.classes && c in x.classes && x.classes[c] == w.classes[c].(super := x.classes[c].super)
    requires c in w.chain && c in x.chain && w.chain[c] != [] && x.chain[c] != []
    requires OwnPart(x, x.chain[c], 1) == OwnPart(w, w.chain[c], 1)
    requires var k, s, t := OwnPart(w, w.chain[c], 1), w.chain[c], x.chain[c];
             k < |s| && k < |t| && t[..k] == s[..k] && t[k] == s[k]
    ensures FrozenWith(x, c, own, super, methods)
  {
    hide OwnPart;
  }

  lemma NoOwnEntry(w: World, klass: int, c: int)
    requires Ok(w) && OwnLinks(w) && klass in w.classes && c in w.classes && !w.classes[c].kind.IClass?
    ensures klass in w.chain && w.chain[klass] != [] && c !in OwnEntries(w, klass)
  {
    ChainHead(w, klass);
    var s, k := w.chain[klass], OwnPart(w, w.chain[klass], 1);
    forall j | 1 <= j < k ensures s[j] != c {
      forall l | 1 <= l <= j ensures s[l] in w.classes && !w.classes[s[l]].kind.Class? { ChainFrom(w, klass, l); }
      OwnIsEntry(w, klass, j, j);
    }
  }

  /** The operation defines or includes something in c. */
  predicate Alters(op: Op, c: int) {
    (op.DoAdd? || op.DoUndef? || op.DoAlias? || op.DoInclude?) && op.klass == c
  }

  /** Whatever is done, a frozen class keeps entries, superclass and methods. */
  lemma FrozenStep(w: World, right: bool, rbCObject: int, op: Op, ans: Answer, x: World, c: int, own: seq<int>,
        super: int, methods: map<int, Method>)
    requires Step(w, right, rbCObject, op, ans, x) && FrozenWith(w, c, own, super, methods)
    ensures FrozenWith(x, c, own, super, methods)
  {
    hide ChainOk, OwnLinks, ModulesOk, KnownOrigins, OwnTables, Find, AliasTarget, IncludeResult, KlassAt, OwnPart;
    if Applies(w.classes, op) && x != w {
      match op {
        case DoNewClass(super', singleton) => SameChain(w, x, c, own, super, methods);
        case DoNewModule => SameChain(w, x, c, own, super, methods);
        case DoFreeze(klass) => SameChain(w, x, c, own, super, methods);
        case DoAdd(klass, n, node, noex) =>
          DefinedElsewhere(w, klass, DefinedAs(w.classes[klass], n, node),
                           Method(Visibility(w.classes[klass], n, node, noex), node), c, own, super, methods);
        case DoUndef(klass, n) =>
          DefinedElsewhere(w, klass, n, Method(NOEX_PUBLIC, None), c, own, super, methods);
        case DoAlias(klass, n, def) =>
          AliasHasBody(w, rbCObject, klass, def);
          var f := AliasTarget(w, rbCObject, klass, def).value;
          DefinedElsewhere(w, klass, n, Method(f.entry.noex, Some(AliasBody(f, def))), c, own, super, methods);
        case DoInclude(klass, m) =>
          FrozenInclude(w, x, klass, m, ans.st, c, own, super, methods);
        case DoCall(klass, n) =>
      }
    }
  }

  /** Whoever tries to change it gets an error. */
  lemma FrozenRefuses(w: World, right: bool, rbCObject: int, op: Op, ans: Answer, x: World, c: int)
    requires Step(w, right, rbCObject, op, ans, x) && c in w.classes && w.classes[c].frozen
    requires Alters(op, c) && Applies(w.classes, op)
    ensures ans == Was(FrozenError) && x == w
  {
    hide ChainOk, Tidy, Find, AliasTarget, IncludeResult, KlassAt;
  }

  lemma AliasHasBody(w: World, rbCObject: int, klass: int, def: int)
    ensures AliasTarget(w, rbCObject, klass, def).Some? ==>
              AliasTarget(w, rbCObject, klass, def).value.entry.body.Some?
  {
  }

  lemma FrozenInclude(w: World, x: World, klass: int, m: int, st: Status, c: int, own: seq<int>, super: int,
        methods: map<int, Method>)
    requires Ok(w) && OwnLinks(w) && Ok(x) && FrozenWith(w, c, own, super, methods)
    requires klass in w.classes && !w.classes[klass].kind.IClass? && m in w.classes && m in w.chain
    requires st == IncludeStatus(w, klass, m) && IncludeOutcome(w, x, klass, m, st)
    ensures FrozenWith(x, c, own, super, methods)
  {
    if x != w {
      assert klass != c;
      SoFarParts(w, x, klass, w.chain[m], KlassAt(w, klass, w.chain[m], 0));
      hide IncludedSoFar;
      IncludedElsewhere(w, x, klass, c, own, super, methods);
    }
  }

  /**
   * Over every run: a class that is frozen stays frozen and keeps its entries, its superclass and its methods,
   * whatever is defined, included or frozen, and whoever tries to change it gets an error.
   */
  lemma {:induction false} FrozenForever(ws: seq<World>, rights: seq<bool>, rbCObject: int, ops: seq<Op>,
        answers: seq<Answer>, i: nat, j: nat, c: int, own: seq<int>, super: int, methods: map<int, Method>)
    requires Trace(ws, rights, rbCObject, ops, answers) && i <= j <= |ops|
    requires FrozenWith(ws[i], c, own, super, methods)
    ensures FrozenWith(ws[j], c, own, super, methods)
    ensures j < |ops| && Alters(ops[j], c) && Applies(ws[j].classes, ops[j]) ==> answers[j] == Was(FrozenError)
    decreases j
  {
    hide Step, FrozenWith, Alters, RightAfter;
    if i < j {
      FrozenForever(ws, rights, rbCObject, ops, answers, i, j - 1, c, own, super, methods);
      FrozenStep(ws[j - 1], rights[j - 1], rbCObject, ops[j - 1], answers[j - 1], ws[j], c, own, super, methods);
    }
    if j < |ops| && Alters(ops[j], c) && Applies(ws[j].classes, ops[j]) {
      IsFrozen(ws[j], c, own, super, methods);
      FrozenRefuses(ws[j], rights[j], rbCObject, ops[j], answers[j], ws[j + 1], c);
    }
  }

  lemma IsFrozen(w: World, c: int, own: seq<int>, super: int, methods: map<int, Method>)
    requires FrozenWith(w, c, own, super, methods)
    ensures c in w.classes && w.classes[c].frozen
  {
  }

  /** What is frozen is frozen with what it has. */
  lemma FreezeTakes(ws: seq<World>, rights: seq<bool>, rbCObject: int, ops: seq<Op>, answers: seq<Answer>, i: nat,
        c: int)
    requires Trace(ws, rights, rbCObject, ops, answers) && i < |ops| && ops[i] == DoFreeze(c)
    requires c in ws[i].classes && !ws[i].classes[c].kind.IClass?
    ensures c in ws[i].chain && ws[i].chain[c] != [] && ws[i].classes[c].tbl in ws[i].tables
    ensures FrozenWith(ws[i + 1], c, OwnChain(ws[i], c), Superclass(ws[i], c), ws[i].tables[ws[i].classes[c].tbl])
  {
    hide Tidy;
    assert Step(ws[i], rights[i], rbCObject, ops[i], answers[i], ws[i + 1]);
    hide Trace;
    ChainHead(ws[i], c);
    assert ChainOk(ws[i], c);
    forall j | 0 <= j < |ws[i].chain[c]| ensures ws[i].chain[c][j] in ws[i].classes { ChainFrom(ws[i], c, j); }
    OwnPartSame(ws[i], ws[i + 1], ws[i].chain[c], 1);
  }
}
