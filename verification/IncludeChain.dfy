/** How including a module changes chains of classes. */
module IncludeChain {
  import opened MethodTable
  import opened SuperChains
  import opened ClassTree
  import opened IncludeMerge

  // ---------- including ----------

  /** The tables of the first n classes of a chain. */
  function Tables(w: World, s: seq<int>, n: nat): set<int>
    requires n <= |s|
  {
    set i | 0 <= i < n && s[i] in w.classes :: w.classes[s[i]].tbl
  }

  /** Superclasses and what is behind them, of the chain of a class. */
  function Inherited(w: World, s: seq<int>): seq<int>
    requires s != []
  {
    s[OwnPart(w, s, 1)..]
  }

  /** A new entry of the chain s is for a module with no other entry in s. */
  ghost predicate NewOnce(w0: World, w: World, s: seq<int>) {
    && (forall i :: 0 <= i < |s| && s[i] !in w0.classes && s[i] in w.classes ==> i > 0 && w.classes[s[i]].kind.IClass?)
    && (forall i, j :: 0 <= i < |s| && 0 <= j < |s| && i != j && s[i] !in w0.classes && s[i] in w.classes
                       && s[j] in w.classes && (j == 0 || w.classes[s[j]].kind.IClass?) ==>
                         w.classes[s[i]].tbl != w.classes[s[j]].tbl)
  }

  /**
   * From w0 to w, the first n modules of the chain ms have been included in klass: old entries are
   * there in their order, inherited ones untouched, no new entry is a duplicate, and included is what
   * was included and these modules.
   */
  ghost predicate IncludedSoFar(w0: World, w: World, klass: int, ms: seq<int>, n: nat)
    requires klass in w0.chain && klass in w.chain && n <= |ms| && w0.chain[klass] != [] && w.chain[klass] != []
  {
    var s0, s := w0.chain[klass], w.chain[klass];
    && w.tables == w0.tables
    && SameClasses(w0, w) && Subsequence(s0, s) && Inherited(w, s) == Inherited(w0, s0)
    && NewOnce(w0, w, s) && (forall i :: 0 <= i < |s| && s[i] in w0.classes ==> s[i] in s0)
    && (forall t :: Included(w, s, t) <==> Included(w0, s0, t) || t in Tables(w0, ms, n))
  }

  /** The insertion point: klass itself or an entry of its own, before any superclass. */
  ghost predicate InsertionPoint(w: World, klass: int, c: int, at: nat) {
    klass in w.chain && InOwnPart(w, w.chain[klass], at) && w.chain[klass][at] == c && c in w.classes
  }

  /** Some of the first n modules was not included before. */
  ghost predicate SomeNew(w0: World, klass: int, ms: seq<int>, n: nat)
    requires klass in w0.chain && n <= |ms|
  {
    exists i :: 0 <= i < n && ms[i] in w0.classes && !Included(w0, w0.chain[klass], w0.classes[ms[i]].tbl)
  }

  /** What inclusion keeps of the tree of classes, and where the insertion point is. */
  ghost predicate Shaped(w0: World, w: World, klass: int, ms: seq<int>, n: nat, c: int, at: nat) {
    && Ok(w) && Tidy(w) && klass in w.classes && InsertionPoint(w, klass, c, at) && OnlyKlass(w0, w, klass)
    && Placed(w0, w, klass, ms, n, at)
  }

  /** Where rb_include_module stands in its outer loop. */
  ghost predicate Including(w0: World, w: World, klass: int, ms: seq<int>, n: nat, c: int, at: nat, changed: bool) {
    && klass in w0.classes && klass in w0.chain && klass in w.chain && n <= |ms| && w0.chain[klass] != []
    && w.chain[klass] != [] && Shaped(w0, w, klass, ms, n, c, at) && IncludedSoFar(w0, w, klass, ms, n)
    && w0.classes[klass].tbl !in Tables(w0, ms, n) && changed == SomeNew(w0, klass, ms, n) && (!changed ==> w == w0)
  }

  /** A class or module that can include something else than itself. */
  ghost predicate CanInclude(w: World, klass: int, m: int) {
    && Ok(w) && Tidy(w) && klass in w.classes && !w.classes[klass].kind.IClass?
    && m in w.classes && w.classes[m].kind.Module? && klass != m
  }

  lemma ModuleChain(w: World, klass: int, m: int)
    requires CanInclude(w, klass, m)
    ensures klass in w.chain && m in w.chain && w.chain[m] != [] && w.chain[m][0] == m && IsModule(w, m)
    ensures forall i :: 0 <= i < |w.chain[m]| ==> w.chain[m][i] in w.classes && w.chain[m][i] != 0
  {
    assert ChainOk(w, m);
    forall i | 0 <= i < |w.chain[m]| ensures w.chain[m][i] in w.classes { ChainFrom(w, m, i); }
  }

  /** No module to include is in the chain of klass, and none of them is a class. */
  lemma NextModule(w: World, klass: int, m: int, n: nat)
    requires CanInclude(w, klass, m) && n < |w.chain[m]|
    ensures w.chain[m][n] in w.classes && !w.classes[w.chain[m][n]].kind.Class?
    ensures klass in w.chain && w.chain[m][n] !in w.chain[klass]
  {
    ModuleChain(w, klass, m);
    if n > 0 { ModuleTail(w, m, n); }
    forall i | 0 <= i < |w.chain[klass]| ensures w.chain[klass][i] != w.chain[m][n] {
      NoneShared(w, klass, m, i, n);
    }
  }

  /** The chain of the module does not change on the way. */
  lemma ModuleStays(w0: World, w: World, klass: int, m: int)
    requires CanInclude(w0, klass, m) && OnlyKlass(w0, w, klass)
    ensures m in w.chain && m in w0.chain && w.chain[m] == w0.chain[m]
  {
    ModuleChain(w0, klass, m);
    NextModule(w0, klass, m, 0);
    assert m !in OwnEntries(w0, klass);
    forall j | 0 <= j < |w0.chain[m]| ensures w0.chain[m][j] != klass { KlassFirst(w0, klass, m, j); }
    hide IsModule, OwnEntries;
    assert FollowsKlass(w0, w, klass, m);
  }

  lemma KlassFirst(w: World, klass: int, m: int, j: nat)
    requires CanInclude(w, klass, m) && m in w.chain && j < |w.chain[m]|
    ensures w.chain[m][j] != klass
  {
    ModuleChain(w, klass, m);
    ChainFrom(w, klass, 0);
    NoneShared(w, klass, m, 0, j);
  }

  lemma SoFarStarts(w: World, klass: int, ms: seq<int>)
    requires Ok(w) && klass in w.classes && w.chain[klass] != []
    ensures IncludedSoFar(w, w, klass, ms, 0)
  {
    var s := w.chain[klass];
    SubsequenceOfItself(s);
    assert Tables(w, ms, 0) == {};
    forall i | 0 <= i < |s| ensures s[i] in w.classes { ChainFrom(w, klass, i); }
    hide Inherited, Subsequence, Ok;
  }

  lemma IncludeStarts(w: World, klass: int, m: int)
    requires CanInclude(w, klass, m)
    ensures Including(w, w, klass, w.chain[m], 0, klass, 0, false)
  {
    hide ChainOk, Tidy, IsModule, OnlyKlass, Placed, IncludedSoFar;
    var ms := w.chain[m];
    ModuleChain(w, klass, m);
    ChainHead(w, klass);
    PlacedStarts(w, klass, ms);
    OnlyKlassStarts(w, klass);
    SoFarStarts(w, klass, ms);
    hide Ok;
    assert Tables(w, ms, 0) == {};
  }

  /** The table of the next module is none of those before. */
  lemma NextTable(w: World, m: int, n: nat)
    requires Ok(w) && IsModule(w, m) && n < |w.chain[m]|
    ensures w.chain[m][n] in w.classes && w.classes[w.chain[m][n]].tbl !in Tables(w, w.chain[m], n)
    ensures Tables(w, w.chain[m], n + 1) == Tables(w, w.chain[m], n) + {w.classes[w.chain[m][n]].tbl}
  {
    var ms := w.chain[m];
    ChainFrom(w, m, n);
    forall i | 0 <= i < n ensures ms[i] in w.classes { ChainFrom(w, m, i); }
    var t := w.classes[ms[n]].tbl;
    forall x ensures x in Tables(w, ms, n + 1) <==> x in Tables(w, ms, n) || x == t {
      if x in Tables(w, ms, n) {
        var i :| 0 <= i < n && ms[i] in w.classes && w.classes[ms[i]].tbl == x;
      }
    }
  }

  /** Behind klass there is no module, in its chain. */
  lemma NoModuleBehind(w: World, klass: int)
    requires Ok(w) && Tidy(w) && klass in w.classes
    ensures forall j :: 1 <= j < |w.chain[klass]| ==>
              w.chain[klass][j] in w.classes && !w.classes[w.chain[klass][j]].kind.Module?
  {
    hide OwnLinks;
    forall j | 1 <= j < |w.chain[klass]|
      ensures w.chain[klass][j] in w.classes && !w.classes[w.chain[klass][j]].kind.Module?
    {
      NextInChain(w, klass, j);
      NoModuleAbove(w, w.chain[klass][j - 1]);
    }
  }

  /** What FindEntry has found. */
  ghost predicate FirstEntry(w: World, s: seq<int>, t: int, p: nat, movable: bool) {
    && 1 <= p < |s| && IsEntry(w, s[p], t) && (forall j :: 1 <= j < p ==> !IsEntry(w, s[j], t))
    && (movable <==> InOwnPart(w, s, p))
  }

  lemma ShapeSkips(w0: World, w: World, klass: int, ms: seq<int>, n: nat, c: int, at: nat, p: nat, movable: bool)
    requires Shaped(w0, w, klass, ms, n, c, at) && n < |ms| && SameClasses(w0, w)
    requires klass in w.chain && ms[n] in w0.classes && FirstEntry(w, w.chain[klass], w0.classes[ms[n]].tbl, p, movable)
    ensures Shaped(w0, w, klass, ms, n + 1, if movable then w.chain[klass][p] else c, if movable then p else at)
  {
    hide OnlyKlass, Placed, SameClasses;
    NoModuleBehind(w, klass);
    hide Tidy, Ok;
    PlacedSkips(w0, w, klass, ms, n, at, p, movable);
  }

  /** The module has an entry already. */
  lemma IncludeSkips(w0: World, w: World, klass: int, m: int, n: nat, c: int, at: nat, changed: bool, p: nat,
        movable: bool)
    requires CanInclude(w0, klass, m) && Including(w0, w, klass, w0.chain[m], n, c, at, changed) && n < |w0.chain[m]|
    requires w0.chain[m][n] in w.classes && w.classes[w0.chain[m][n]].tbl != w.classes[klass].tbl
    requires FirstEntry(w, w.chain[klass], w.classes[w0.chain[m][n]].tbl, p, movable)
    ensures Including(w0, w, klass, w0.chain[m], n + 1, if movable then w.chain[klass][p] else c,
                      if movable then p else at, changed)
  {
    hide Included, IsModule, Tables, SomeNew, FirstEntry, Shaped, SameClasses, IncludedSoFar, ChainOk, Tidy;
    var ms, s := w0.chain[m], w.chain[klass];
    ModuleChain(w0, klass, m);
    FirstIsIncluded(w, s, w.classes[ms[n]].tbl, p, movable);
    SoFarParts(w0, w, klass, ms, n);
    SoFarFacts(w0, w, klass, ms, n, ms[n]);
    SoFarFacts(w0, w, klass, ms, n, klass);
    NextTable(w0, m, n);
    hide Ok;
    SoFarSkips(w0, w, klass, ms, n, w0.classes[ms[n]].tbl);
    ChangedSkips(w0, klass, ms, n, changed);
    ShapeSkips(w0, w, klass, ms, n, c, at, p, movable);
  }

  lemma SoFarFacts(w0: World, w: World, klass: int, ms: seq<int>, n: nat, d: int)
    requires klass in w0.chain && klass in w.chain && n <= |ms| && w0.chain[klass] != [] && w.chain[klass] != []
    requires IncludedSoFar(w0, w, klass, ms, n) && d in w0.classes
    ensures d in w.classes && w.classes[d].tbl == w0.classes[d].tbl
    ensures Included(w, w.chain[klass], w0.classes[d].tbl) <==>
              Included(w0, w0.chain[klass], w0.classes[d].tbl) || w0.classes[d].tbl in Tables(w0, ms, n)
  {
    assert w.classes[d] == w0.classes[d].(super := w.classes[d].super);
  }

  lemma FirstIsIncluded(w: World, s: seq<int>, t: int, p: nat, movable: bool)
    requires FirstEntry(w, s, t, p, movable)
    ensures Included(w, s, t)
  {
  }

  lemma SoFarSkips(w0: World, w: World, klass: int, ms: seq<int>, n: nat, t: int)
    requires klass in w0.chain && klass in w.chain && n < |ms| && w0.chain[klass] != [] && w.chain[klass] != []
    requires IncludedSoFar(w0, w, klass, ms, n) && Tables(w0, ms, n + 1) == Tables(w0, ms, n) + {t}
    requires Included(w0, w0.chain[klass], t)
    ensures IncludedSoFar(w0, w, klass, ms, n + 1)
  {
  }

  lemma ChangedSkips(w0: World, klass: int, ms: seq<int>, n: nat, changed: bool)
    requires klass in w0.chain && n < |ms| && ms[n] in w0.classes
    requires Included(w0, w0.chain[klass], w0.classes[ms[n]].tbl)
    requires changed == SomeNew(w0, klass, ms, n)
    ensures changed == SomeNew(w0, klass, ms, n + 1)
  {
    if SomeNew(w0, klass, ms, n) {
      var i :| 0 <= i < n && ms[i] in w0.classes && !Included(w0, w0.chain[klass], w0.classes[ms[i]].tbl);
      assert i < n + 1;
    }
  }

  // ---------- a new entry ----------

  /** The chain of klass with the new entry x behind place at, and nothing else but the link changed. */
  ghost predicate EntryAdded(w: World, y: World, klass: int, at: nat, x: int, t: int)
    requires klass in w.chain && klass in y.chain && at < |w.chain[klass]|
  {
    var s := w.chain[klass];
    && y.chain[klass] == s[..at + 1] + [x] + s[at + 1..] && x !in w.classes && IsEntry(y, x, t)
    && y.tables == w.tables && (forall i :: 0 <= i < |s| ==> s[i] in w.classes)
    && (forall d :: d in w.classes ==> d in y.classes && y.classes[d] == w.classes[d].(super := y.classes[d].super))
  }

  lemma LinkedAdds(w: World, klass: int, at: nat, c: int, x: int, t: int)
    requires Ok(w) && klass in w.classes && at < |w.chain[klass]| && w.chain[klass][at] == c
    requires x !in w.classes && x != 0 && t in w.tables && c in w.classes
    ensures Ok(Linked(w, c, x, t)) && klass in Linked(w, c, x, t).chain
    ensures EntryAdded(w, Linked(w, c, x, t), klass, at, x, t)
  {
    hide InsertAfter;
    LinkedOk(w, c, x, t);
    LinkedChain(w, c, x, t, klass);
    forall i | 0 <= i < |w.chain[klass]| ensures w.chain[klass][i] in w.classes { ChainFrom(w, klass, i); }
  }

  lemma AddedIncluded(w: World, y: World, klass: int, at: nat, x: int, t: int, tt: int)
    requires klass in w.chain && klass in y.chain && at < |w.chain[klass]| && EntryAdded(w, y, klass, at, x, t)
    ensures Included(y, y.chain[klass], tt) <==> Included(w, w.chain[klass], tt) || tt == t
  {
    var s, u := w.chain[klass], y.chain[klass];
    if Included(w, s, tt) {
      var i :| 1 <= i < |s| && IsEntry(w, s[i], tt);
      assert IsEntry(y, u[if i <= at then i else i + 1], tt);
    }
    if tt == t { assert IsEntry(y, u[at + 1], tt); }
    if Included(y, u, tt) && tt != t {
      var i :| 1 <= i < |u| && IsEntry(y, u[i], tt);
      assert IsEntry(w, s[if i <= at then i else i - 1], tt);
    }
  }

  lemma AddedInherits(w: World, y: World, klass: int, at: nat, x: int, t: int)
    requires klass in w.chain && klass in y.chain && at < |w.chain[klass]| && EntryAdded(w, y, klass, at, x, t)
    requires InOwnPart(w, w.chain[klass], at)
    ensures y.chain[klass] != [] && Inherited(y, y.chain[klass]) == Inherited(w, w.chain[klass])
    ensures InOwnPart(y, y.chain[klass], at + 1) && y.chain[klass][at + 1] == x
  {
    var s, u := w.chain[klass], y.chain[klass];
    var k := OwnPart(w, s, 1);
    assert at < k;
    AddedKinds(w, y, klass, at, x, t, k);
    hide OwnPart, EntryAdded;
    OwnPartIs(y, u, k + 1, 1);
  }

  lemma AddedKinds(w: World, y: World, klass: int, at: nat, x: int, t: int, k: nat)
    requires klass in w.chain && klass in y.chain && at < |w.chain[klass]| && EntryAdded(w, y, klass, at, x, t)
    requires at < k <= |w.chain[klass]| && InOwnPart(w, w.chain[klass], at)
    requires k < |w.chain[klass]| ==> w.chain[klass][k] in w.classes && w.classes[w.chain[klass][k]].kind.Class?
    requires forall j :: 1 <= j < k ==> !(w.chain[klass][j] in w.classes && w.classes[w.chain[klass][j]].kind.Class?)
    ensures |y.chain[klass]| == |w.chain[klass]| + 1 && y.chain[klass][k + 1..] == w.chain[klass][k..]
    ensures InOwnPart(y, y.chain[klass], at + 1) && y.chain[klass][at + 1] == x
    ensures k < |w.chain[klass]| ==> y.chain[klass][k + 1] in y.classes && y.classes[y.chain[klass][k + 1]].kind.Class?
    ensures forall j :: 1 <= j < k + 1 ==> !(y.chain[klass][j] in y.classes && y.classes[y.chain[klass][j]].kind.Class?)
  {
    var s, u := w.chain[klass], y.chain[klass];
    forall j | 1 <= j < k + 1 ensures !(u[j] in y.classes && y.classes[u[j]].kind.Class?) {
      OldPlace(s, at, x, j);
      if j != at + 1 {
        var d := s[if j <= at then j else j - 1];
        assert y.classes[d] == w.classes[d].(super := y.classes[d].super);
      }
    }
    forall j | 1 <= j <= at + 1 ensures u[j] in y.classes && !y.classes[u[j]].kind.Class? {
      OldPlace(s, at, x, j);
      if j <= at { assert y.classes[s[j]] == w.classes[s[j]].(super := y.classes[s[j]].super); }
    }
    BehindPlace(s, at, x, k);
    if k < |s| {
      OldPlace(s, at, x, k + 1);
      assert y.classes[s[k]] == w.classes[s[k]].(super := y.classes[s[k]].super);
    }
  }

  lemma {:induction false} OwnPartIs(w: World, s: seq<int>, k: nat, i: nat)
    requires 1 <= i <= k <= |s| && (k < |s| ==> s[k] in w.classes && w.classes[s[k]].kind.Class?)
    requires forall j :: i <= j < k ==> !(s[j] in w.classes && w.classes[s[j]].kind.Class?)
    ensures OwnPart(w, s, i) == k
    decreases k - i
  {
    if i < k { OwnPartIs(w, s, k, i + 1); }
  }

  lemma AddedOnce(w0: World, w: World, y: World, klass: int, at: nat, x: int, t: int)
    requires klass in w.chain && klass in y.chain && at < |w.chain[klass]| && EntryAdded(w, y, klass, at, x, t)
    requires NewOnce(w0, w, w.chain[klass]) && !Included(w, w.chain[klass], t) && x !in w0.classes
    requires w.chain[klass][0] in w.classes && w.classes[w.chain[klass][0]].tbl != t
    ensures NewOnce(w0, y, y.chain[klass])
  {
    var s, u := w.chain[klass], y.chain[klass];
    forall i, j | 0 <= i < |u| && 0 <= j < |u| && i != j && u[i] !in w0.classes && u[i] in y.classes
                   && u[j] in y.classes && (j == 0 || y.classes[u[j]].kind.IClass?)
      ensures y.classes[u[i]].tbl != y.classes[u[j]].tbl
    {
      OldPlace(s, at, x, i);
      OldPlace(s, at, x, j);
      var i0, j0 := if i <= at then i else i - 1, if j <= at then j else j - 1;
      if i == at + 1 {
        assert j != 0 ==> !IsEntry(w, s[j0], t);
      } else if j == at + 1 {
        assert y.classes[u[i]] == w.classes[s[i0]].(super := y.classes[u[i]].super);
        assert !IsEntry(w, s[i0], t);
      }
    }
  }

  lemma SoFarAdds(w0: World, w: World, y: World, klass: int, ms: seq<int>, n: nat, at: nat, x: int, t: int)
    requires klass in w0.chain && klass in w.chain && klass in y.chain && n < |ms| && w0.chain[klass] != []
    requires w.chain[klass] != []
    requires IncludedSoFar(w0, w, klass, ms, n) && Tables(w0, ms, n + 1) == Tables(w0, ms, n) + {t}
    requires at < |w.chain[klass]| && EntryAdded(w, y, klass, at, x, t) && InOwnPart(w, w.chain[klass], at)
    requires !Included(w, w.chain[klass], t) && w.chain[klass][0] in w.classes && w.classes[w.chain[klass][0]].tbl != t
    requires forall i :: 0 <= i < |w0.chain[klass]| ==> w0.chain[klass][i] in w0.classes
    ensures y.chain[klass] != [] && IncludedSoFar(w0, y, klass, ms, n + 1)
  {
    hide NewOnce, Inherited, Tables, Included, Subsequence, InOwnPart;
    var s0, s, u := w0.chain[klass], w.chain[klass], y.chain[klass];
    SoFarParts(w0, w, klass, ms, n);
    AddedParts(w, y, klass, at, x, t);
    AddedInherits(w, y, klass, at, x, t);
    assert SameClasses(w0, y) && x !in w0.classes by { SameThrough(w0, w, y, klass, at, x, t); }
    AddedOnce(w0, w, y, klass, at, x, t);
    forall tt ensures Included(y, u, tt) <==> Included(w0, s0, tt) || tt in Tables(w0, ms, n + 1) {
      AddedIncluded(w, y, klass, at, x, t, tt);
    }
    hide EntryAdded, SameClasses;
    assert x !in s0;
    SubsequenceInsert(s0, s, at + 1, x);
    forall i | 0 <= i < |u| && u[i] in w0.classes ensures u[i] in s0 {
      OldPlace(s, at, x, i);
    }
  }

  lemma SameThrough(w0: World, w: World, y: World, klass: int, at: nat, x: int, t: int)
    requires klass in w.chain && klass in y.chain && at < |w.chain[klass]| && EntryAdded(w, y, klass, at, x, t)
    requires SameClasses(w0, w)
    ensures SameClasses(w0, y) && x !in w0.classes
  {
    forall d | d in w0.classes ensures d in y.classes && y.classes[d] == w0.classes[d].(super := y.classes[d].super) {
      assert w.classes[d] == w0.classes[d].(super := w.classes[d].super);
    }
    assert x in w0.classes ==> x in w.classes;
  }

  lemma SoFarParts(w0: World, w: World, klass: int, ms: seq<int>, n: nat)
    requires klass in w0.chain && klass in w.chain && n <= |ms| && w0.chain[klass] != [] && w.chain[klass] != []
    requires IncludedSoFar(w0, w, klass, ms, n)
    ensures w.tables == w0.tables && Subsequence(w0.chain[klass], w.chain[klass]) && NewOnce(w0, w, w.chain[klass])
    ensures SameClasses(w0, w) && Inherited(w, w.chain[klass]) == Inherited(w0, w0.chain[klass])
    ensures forall i :: 0 <= i < |w.chain[klass]| && w.chain[klass][i] in w0.classes ==>
              w.chain[klass][i] in w0.chain[klass]
  {
  }

  /** The old ones of the entries of klass now were entries of klass before. */
  lemma OwnWasOwn(w0: World, w: World, klass: int, at: nat, j: nat)
    requires Ok(w0) && Ok(w) && klass in w0.classes && klass in w.classes && InOwnPart(w, w.chain[klass], at)
    requires w0.chain[klass] != [] && w.chain[klass] != []
    requires Inherited(w, w.chain[klass]) == Inherited(w0, w0.chain[klass])
    requires 1 <= j <= at && w.chain[klass][j] in w0.chain[klass]
    ensures w.chain[klass][j] in OwnEntries(w0, klass)
  {
    hide ChainOk;
    var s0, s := w0.chain[klass], w.chain[klass];
    var i :| 0 <= i < |s0| && s0[i] == s[j];
    var k0, k := OwnPart(w0, s0, 1), OwnPart(w, s, 1);
    ChainHead(w0, klass);
    ChainHead(w, klass);
    ChainDistinct(w, klass, 0, j);
    assert at < k;
    hide OwnPart, InOwnPart, Ok;
    if i >= k0 {
      SuffixPlace(s0, s, k0, k, i);
      ChainDistinct(w, klass, j, k + (i - k0));
    }
    assert OwnEntries(w0, klass)[i - 1] == s[j];
  }

  lemma SuffixPlace(s0: seq<int>, s: seq<int>, k0: nat, k: nat, i: nat)
    requires k0 <= i < |s0| && k <= |s| && s0[k0..] == s[k..]
    ensures k + (i - k0) < |s| && s[k + (i - k0)] == s0[i]
  {
    assert s0[k0..][i - k0] == s0[i] && s[k..][i - k0] == s[k + (i - k0)];
  }

  lemma ShapeInserts(w0: World, w: World, klass: int, m: int, n: nat, c: int, at: nat, x: int)
    requires CanInclude(w0, klass, m) && n < |w0.chain[m]| && Shaped(w0, w, klass, w0.chain[m], n, c, at)
    requires SameClasses(w0, w) && w0.chain[m][n] in w0.classes && w0.classes[w0.chain[m][n]].tbl in w.tables
    requires !Included(w, w.chain[klass], w0.classes[w0.chain[m][n]].tbl) && x !in w.classes && x != 0
    requires w.classes[klass].tbl != w0.classes[w0.chain[m][n]].tbl && !w.classes[klass].kind.IClass?
    requires forall j :: 1 <= j <= at && w.chain[klass][j] in w0.chain ==> w.chain[klass][j] in OwnEntries(w0, klass)
    ensures Shaped(w0, Linked(w, c, x, w0.classes[w0.chain[m][n]].tbl), klass, w0.chain[m], n + 1, x, at + 1)
    ensures EntryAdded(w, Linked(w, c, x, w0.classes[w0.chain[m][n]].tbl), klass, at, x, w0.classes[w0.chain[m][n]].tbl)
  {
    var ms, t := w0.chain[m], w0.classes[w0.chain[m][n]].tbl;
    var y := Linked(w, c, x, t);
    assert x !in w0.classes by { if x in w0.classes { SameClass(w0, w, x); } }
    hide Included, SameClasses, OnlyKlass, OwnEntries, Placed, IsEntry, OwnLinks, OwnTables, ModulesOk, ChainOk;
    hide KnownOrigins;
    hide IsModule;
    NextModule(w0, klass, m, n);
    NoModuleBehind(w, klass);
    LinkedAdds(w, klass, at, c, x, t);
    LinkedTidy(w, klass, at, c, x, t);
    OnlyKlassStep(w0, w, klass, at, c, x, t);
    LinkedKeeps(w, c, x, t);
    assert klass in y.classes;
    hide Linked, Tidy, Ok;
    AddedParts(w, y, klass, at, x, t);
    AddedInherits(w, y, klass, at, x, t);
    hide EntryAdded, InOwnPart;
    PlacedInserts(w0, w, y, klass, ms, n, at, x);
  }

  lemma AddedParts(w: World, y: World, klass: int, at: nat, x: int, t: int)
    requires klass in w.chain && klass in y.chain && at < |w.chain[klass]| && EntryAdded(w, y, klass, at, x, t)
    ensures y.chain[klass] == w.chain[klass][..at + 1] + [x] + w.chain[klass][at + 1..]
    ensures x in y.classes && at + 1 < |y.chain[klass]| && y.chain[klass][at + 1] == x
    ensures y.classes[x].kind.IClass? && y.classes[x].tbl == t
  {
  }

  /** The module is new: an entry for it follows the insertion point. */
  lemma IncludeInserts(w0: World, w: World, klass: int, m: int, n: nat, c: int, at: nat, changed: bool, x: int)
    requires CanInclude(w0, klass, m) && Including(w0, w, klass, w0.chain[m], n, c, at, changed) && n < |w0.chain[m]|
    requires w0.chain[m][n] in w.classes && w.classes[w0.chain[m][n]].tbl != w.classes[klass].tbl
    requires !Included(w, w.chain[klass], w.classes[w0.chain[m][n]].tbl) && x !in w.classes && x != 0
    requires c in w.classes
    ensures Including(w0, Linked(w, c, x, w.classes[w0.chain[m][n]].tbl), klass, w0.chain[m], n + 1, x, at + 1, true)
  {
    var ms, s := w0.chain[m], w.chain[klass];
    ModuleChain(w0, klass, m);
    InsertFacts(w0, w, klass, m, n, c, at, changed);
    hide NewOnce, Included, Subsequence, IsModule, Inherited, OwnPart, Tables, Ok, Tidy, OnlyKlass, Placed;
    hide SomeNew, InsertionPoint, InOwnPart, IsEntry, Linked, EntryAdded, OwnEntries, SameClasses, IncludedSoFar;
    NextTable(w0, m, n);
    var t := w0.classes[ms[n]].tbl;
    ShapeInserts(w0, w, klass, m, n, c, at, x);
    var y := Linked(w, c, x, t);
    SoFarAdds(w0, w, y, klass, ms, n, at, x, t);
    NewIsSome(w0, klass, ms, n);
  }

  lemma InsertFacts(w0: World, w: World, klass: int, m: int, n: nat, c: int, at: nat, changed: bool)
    requires CanInclude(w0, klass, m) && Including(w0, w, klass, w0.chain[m], n, c, at, changed) && n < |w0.chain[m]|
    requires w0.chain[m][n] in w.classes && !Included(w, w.chain[klass], w.classes[w0.chain[m][n]].tbl)
    ensures Ok(w0) && w0.chain[m][n] in w0.classes && klass in w.classes
    ensures SameClasses(w0, w) && w.classes[klass].kind == w0.classes[klass].kind
    ensures w.classes[klass].tbl == w0.classes[klass].tbl
    ensures w.classes[w0.chain[m][n]].tbl == w0.classes[w0.chain[m][n]].tbl
    ensures w0.classes[w0.chain[m][n]].tbl in w.tables
    ensures !Included(w0, w0.chain[klass], w0.classes[w0.chain[m][n]].tbl)
    ensures at < |w.chain[klass]| && InOwnPart(w, w.chain[klass], at) && w.chain[klass][0] == klass
    ensures forall i :: 0 <= i < |w0.chain[klass]| ==> w0.chain[klass][i] in w0.classes
    ensures forall j :: 1 <= j <= at && w.chain[klass][j] in w0.chain ==> w.chain[klass][j] in OwnEntries(w0, klass)
  {
    var ms, s0, s := w0.chain[m], w0.chain[klass], w.chain[klass];
    ModuleChain(w0, klass, m);
    SoFarParts(w0, w, klass, ms, n);
    SoFarFacts(w0, w, klass, ms, n, ms[n]);
    SameClass(w0, w, klass);
    assert ChainOk(w0, ms[n]) && ChainOk(w, klass);
    hide NewOnce, Included, Subsequence, IsModule, Inherited, OwnPart, Tables, Tidy, OnlyKlass, Placed, IncludedSoFar;
    hide SomeNew, OwnEntries, SameClasses;
    forall i | 0 <= i < |s0| ensures s0[i] in w0.classes { ChainFrom(w0, klass, i); }
    forall j | 1 <= j <= at && s[j] in w0.chain ensures s[j] in OwnEntries(w0, klass) {
      OwnWasOwn(w0, w, klass, at, j);
    }
  }

  lemma NewIsSome(w0: World, klass: int, ms: seq<int>, n: nat)
    requires klass in w0.chain && n < |ms| && ms[n] in w0.classes
    requires !Included(w0, w0.chain[klass], w0.classes[ms[n]].tbl)
    ensures SomeNew(w0, klass, ms, n + 1)
  {
  }

  // ---------- the whole inclusion ----------

  /** Where the module walk first meets the table of klass itself, or its end. */
  function KlassAt(w: World, klass: int, ms: seq<int>, i: nat): (k: nat)
    requires i <= |ms| && klass in w.classes
    ensures i <= k <= |ms| && (k < |ms| ==> ms[k] in w.classes && w.classes[ms[k]].tbl == w.classes[klass].tbl)
    ensures forall j :: i <= j < k ==> !(ms[j] in w.classes && w.classes[ms[j]].tbl == w.classes[klass].tbl)
    decreases |ms| - i
  {
    if i == |ms| || (ms[i] in w.classes && w.classes[ms[i]].tbl == w.classes[klass].tbl) then i
    else KlassAt(w, klass, ms, i + 1)
  }

  /**
   * The first n modules are included now, where Merge says, and no other chain has changed that does not
   * come through klass; if all of them were included before, nothing has changed at all.
   */
  ghost predicate IncludeResult(w0: World, w: World, klass: int, ms: seq<int>, n: nat) {
    && klass in w0.chain && klass in w.chain && n <= |ms| && w0.chain[klass] != [] && w.chain[klass] != []
    && (forall i :: 0 <= i < |ms| ==> ms[i] in w0.classes)
    && IncludedSoFar(w0, w, klass, ms, n) && OnlyKlass(w0, w, klass)
    && Realised(w0, w, w0.chain[klass], w.chain[klass], Merge(w0, w0.chain[klass], ms, n).0)
    && (w == w0 <==> !SomeNew(w0, klass, ms, n))
  }

  lemma IncludeStops(w0: World, w: World, klass: int, ms: seq<int>, n: nat, c: int, at: nat, changed: bool)
    requires Including(w0, w, klass, ms, n, c, at, changed)
    requires n < |ms| ==> ms[n] in w0.classes && w0.classes[ms[n]].tbl == w0.classes[klass].tbl
    ensures IncludeResult(w0, w, klass, ms, n) && n == KlassAt(w0, klass, ms, 0) && (changed <==> w != w0)
  {
    hide Ok, Tidy, OnlyKlass, Realised, NewOnce, Subsequence, Inherited;
    if SomeNew(w0, klass, ms, n) {
      var i :| 0 <= i < n && ms[i] in w0.classes && !Included(w0, w0.chain[klass], w0.classes[ms[i]].tbl);
      assert w0.classes[ms[i]].tbl in Tables(w0, ms, n);
      assert Included(w, w.chain[klass], w0.classes[ms[i]].tbl);
    }
    forall j | 0 <= j < n ensures w0.classes[ms[j]].tbl != w0.classes[klass].tbl {
      assert w0.classes[ms[j]].tbl in Tables(w0, ms, n);
    }
  }

  lemma {:induction false} KlassAtSame(w0: World, w: World, klass: int, ms: seq<int>, i: nat)
    requires i <= |ms| && klass in w0.classes && SameClasses(w0, w) && forall j :: 0 <= j < |ms| ==> ms[j] in w0.classes
    ensures klass in w.classes && KlassAt(w, klass, ms, i) == KlassAt(w0, klass, ms, i)
    decreases |ms| - i
  {
    SameClass(w0, w, klass);
    if i < |ms| {
      SameClass(w0, w, ms[i]);
      KlassAtSame(w0, w, klass, ms, i + 1);
    }
  }

  /** After an inclusion that went through, the same module can be included again, and that changes nothing. */
  lemma IncludedAlready(w0: World, w: World, klass: int, m: int)
    requires CanInclude(w0, klass, m) && Ok(w) && Tidy(w) && m in w0.chain
    requires IncludeResult(w0, w, klass, w0.chain[m], |w0.chain[m]|)
    ensures CanInclude(w, klass, m) && m in w.chain && klass in w.chain && w.chain[m] == w0.chain[m]
    ensures KlassAt(w, klass, w.chain[m], 0) == KlassAt(w0, klass, w0.chain[m], 0)
    ensures !SomeNew(w, klass, w.chain[m], |w.chain[m]|)
  {
    var ms := w0.chain[m];
    SoFarParts(w0, w, klass, ms, |ms|);
    forall i | 0 <= i < |ms| ensures ms[i] in w.classes && Included(w, w.chain[klass], w.classes[ms[i]].tbl) {
      SoFarFacts(w0, w, klass, ms, |ms|, ms[i]);
      assert w0.classes[ms[i]].tbl in Tables(w0, ms, |ms|);
    }
    hide Included, Tables, IncludedSoFar, Realised, NewOnce, Subsequence, Inherited, Tidy, Ok;
    ModuleStays(w0, w, klass, m);
    SameClass(w0, w, klass);
    SameClass(w0, w, m);
    KlassAtSame(w0, w, klass, ms, 0);
  }
}
