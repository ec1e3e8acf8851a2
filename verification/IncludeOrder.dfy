/** In which order included modules stand in the chain of their includer. */
module IncludeOrder {
  import opened MethodTable
  import opened SuperChains
  import opened ClassTree
  import opened IncludeMerge
  import opened IncludeChain

  /** Modules to include: none is a class, and each has a table of its own. */
  ghost predicate Modules(w: World, ms: seq<int>) {
    && (forall i :: 0 <= i < |ms| ==> ms[i] in w.classes && !w.classes[ms[i]].kind.Class?)
    && (forall i, j :: 0 <= i < j < |ms| ==> w.classes[ms[i]].tbl != w.classes[ms[j]].tbl)
  }

  /** The place in the chain g that stands for the module with table t, |g| if there is none. */
  function Place(w: World, g: seq<int>, t: int): nat
    requires g != []
  {
    FirstFor(w, g, t, 1)
  }

  /** The module with table t has a place before the first superclass. */
  predicate InOwn(w: World, g: seq<int>, t: int)
    requires g != []
  {
    Place(w, g, t) < OwnPart(w, g, 1)
  }

  /** The place of the last of the first n modules that has one before the first superclass, or the head. */
  function Anchor(w: World, g: seq<int>, ms: seq<int>, n: nat): nat
    requires g != [] && n <= |ms| && forall i :: 0 <= i < |ms| ==> ms[i] in w.classes
  {
    if n == 0 then 0
    else if InOwn(w, g, w.classes[ms[n - 1]].tbl) then Place(w, g, w.classes[ms[n - 1]].tbl)
    else Anchor(w, g, ms, n - 1)
  }

  // ---------- one insertion ----------

  function Inserted(g: seq<int>, at: nat, m: int): (u: seq<int>)
    requires at < |g|
    ensures |u| == |g| + 1
  {
    g[..at + 1] + [m] + g[at + 1..]
  }

  function Shifted(p: nat, at: nat): nat {
    if p <= at then p else p + 1
  }

  lemma InsertedAt(g: seq<int>, at: nat, m: int, i: nat)
    requires at < |g| && i <= |g|
    ensures Inserted(g, at, m)[at + 1] == m
    ensures Inserted(g, at, m)[i] == if i <= at then g[i] else if i == at + 1 then m else g[i - 1]
  {
    OldPlace(g, at, m, i);
  }

  lemma PlaceIs(w: World, g: seq<int>, t: int, k: nat)
    requires 1 <= k <= |g| && (k < |g| ==> StandsFor(w, g[k], t))
    requires forall j :: 1 <= j < k ==> !StandsFor(w, g[j], t)
    ensures Place(w, g, t) == k
  {
  }

  /** Places behind the insertion point move by one. */
  lemma InsertedPlace(w: World, g: seq<int>, at: nat, m: int, t: int)
    requires at < |g| && m in w.classes && w.classes[m].tbl != t
    ensures Place(w, Inserted(g, at, m), t) == Shifted(Place(w, g, t), at)
  {
    var u, p := Inserted(g, at, m), Place(w, g, t);
    forall j | 1 <= j < Shifted(p, at) ensures !StandsFor(w, u[j], t) { InsertedAt(g, at, m, j); }
    if p < |g| { InsertedAt(g, at, m, Shifted(p, at)); }
    hide Inserted;
    PlaceIs(w, u, t, Shifted(p, at));
  }

  lemma NewPlace(w: World, g: seq<int>, at: nat, m: int, t: int)
    requires at < |g| && StandsFor(w, m, t) && Place(w, g, t) == |g|
    ensures Place(w, Inserted(g, at, m), t) == at + 1
  {
    var u := Inserted(g, at, m);
    forall j | 1 <= j < at + 1 ensures !StandsFor(w, u[j], t) { InsertedAt(g, at, m, j); }
    InsertedAt(g, at, m, at + 1);
    hide Inserted;
    PlaceIs(w, u, t, at + 1);
  }

  lemma InsertedOwn(w: World, g: seq<int>, at: nat, m: int)
    requires at < |g| && at < OwnPart(w, g, 1) && m in w.classes && !w.classes[m].kind.Class?
    ensures OwnPart(w, Inserted(g, at, m), 1) == OwnPart(w, g, 1) + 1
  {
    var u, k := Inserted(g, at, m), OwnPart(w, g, 1);
    forall j | 1 <= j < k + 1 ensures !(u[j] in w.classes && w.classes[u[j]].kind.Class?) { InsertedAt(g, at, m, j); }
    if k < |g| { InsertedAt(g, at, m, k + 1); }
    hide Inserted;
    OwnPartAt(w, u, k + 1);
  }

  lemma OwnPartAt(w: World, u: seq<int>, k: nat)
    requires 1 <= k <= |u| && (k < |u| ==> u[k] in w.classes && w.classes[u[k]].kind.Class?)
    requires forall j :: 1 <= j < k ==> !(u[j] in w.classes && w.classes[u[j]].kind.Class?)
    ensures OwnPart(w, u, 1) == k
  {
  }

  lemma {:induction false} InsertedAnchor(w: World, g: seq<int>, at: nat, m: int, ms: seq<int>, n: nat)
    requires at < |g| && at < OwnPart(w, g, 1) && m in w.classes && !w.classes[m].kind.Class? && n <= |ms|
    requires forall i :: 0 <= i < |ms| ==> ms[i] in w.classes
    requires forall i :: 0 <= i < n ==> w.classes[ms[i]].tbl != w.classes[m].tbl
    ensures Anchor(w, Inserted(g, at, m), ms, n) == Shifted(Anchor(w, g, ms, n), at)
  {
    if n > 0 {
      InsertedOwn(w, g, at, m);
      InsertedPlace(w, g, at, m, w.classes[ms[n - 1]].tbl);
      InsertedAnchor(w, g, at, m, ms, n - 1);
      hide Inserted;
    }
  }

  // ---------- the chain that is made ----------

  lemma MergeCases(w: World, s: seq<int>, ms: seq<int>, n: nat)
    requires s != [] && Modules(w, ms) && 1 <= n <= |ms|
    ensures var (g, at) := Merge(w, s, ms, n - 1);
            var t := w.classes[ms[n - 1]].tbl;
            Merge(w, s, ms, n) == if Place(w, g, t) == |g| then (Inserted(g, at, ms[n - 1]), at + 1)
                                  else (g, if InOwn(w, g, t) then Place(w, g, t) else at)
  {
    hide FirstFor, OwnPart;
  }

  lemma AllIn(w: World, ms: seq<int>, n: nat)
    requires Modules(w, ms) && 1 <= n <= |ms|
    ensures forall i :: 0 <= i < |ms| ==> ms[i] in w.classes
    ensures forall i :: 0 <= i < n - 1 ==> w.classes[ms[i]].tbl != w.classes[ms[n - 1]].tbl
    ensures StandsFor(w, ms[n - 1], w.classes[ms[n - 1]].tbl) && !w.classes[ms[n - 1]].kind.Class?
  {
  }

  /** The insertion point is the place of the last module before, and lies before any superclass. */
  lemma {:induction false} MergeAt(w: World, s: seq<int>, ms: seq<int>, n: nat)
    requires s != [] && Modules(w, ms) && n <= |ms|
    ensures var (g, at) := Merge(w, s, ms, n); at == Anchor(w, g, ms, n) && at < OwnPart(w, g, 1)
  {
    if n == 0 {
      hide OwnPart, FirstFor;
    } else {
      hide Merge, FirstFor, OwnPart, Inserted, Modules, StandsFor;
      AllIn(w, ms, n);
      MergeCases(w, s, ms, n);
      MergeAt(w, s, ms, n - 1);
      AnchorStep(w, Merge(w, s, ms, n - 1).0, Merge(w, s, ms, n - 1).1, ms, n);
    }
  }

  lemma AnchorStep(w: World, g: seq<int>, at: nat, ms: seq<int>, n: nat)
    requires g != [] && 1 <= n <= |ms| && forall i :: 0 <= i < |ms| ==> ms[i] in w.classes
    requires at < |g| && at == Anchor(w, g, ms, n - 1) && at < OwnPart(w, g, 1)
    requires StandsFor(w, ms[n - 1], w.classes[ms[n - 1]].tbl) && !w.classes[ms[n - 1]].kind.Class?
    ensures var t := w.classes[ms[n - 1]].tbl;
            if Place(w, g, t) == |g| then
              Anchor(w, Inserted(g, at, ms[n - 1]), ms, n) == at + 1 < OwnPart(w, Inserted(g, at, ms[n - 1]), 1)
            else
              Anchor(w, g, ms, n) == (if InOwn(w, g, t) then Place(w, g, t) else at) < OwnPart(w, g, 1)
  {
    hide FirstFor, OwnPart, Inserted;
    var t := w.classes[ms[n - 1]].tbl;
    if Place(w, g, t) == |g| {
      NewPlace(w, g, at, ms[n - 1], t);
      InsertedOwn(w, g, at, ms[n - 1]);
    }
  }

  /** The module is not in the chain before. */
  predicate IsNew(w: World, s: seq<int>, m: int)
    requires s != [] && m in w.classes
  {
    Place(w, s, w.classes[m].tbl) == |s|
  }

  /** One of the modules behind j. */
  predicate Later(ms: seq<int>, j: nat, n: nat, m: int)
    requires n <= |ms|
  {
    exists k :: j < k < n && ms[k] == m
  }

  /** Place p of the chain comes behind q, with nothing between but later modules. */
  ghost predicate Follows(g: seq<int>, ms: seq<int>, q: nat, p: nat, j: nat, n: nat)
    requires n <= |ms|
  {
    q < p < |g| && forall x :: q < x < p ==> Later(ms, j, n, g[x])
  }

  /**
   * The module ms[j] stands before any superclass, behind the module that comes before it in what is included,
   * and apart from it only by modules that come later; behind the includer, if no module before it has a place
   * there.
   */
  ghost predicate Stands(w: World, g: seq<int>, ms: seq<int>, j: nat, n: nat)
    requires g != [] && j < n <= |ms| && forall i :: 0 <= i < |ms| ==> ms[i] in w.classes
  {
    var p := Place(w, g, w.classes[ms[j]].tbl);
    p < OwnPart(w, g, 1) && p < |g| && g[p] == ms[j] && Follows(g, ms, Anchor(w, g, ms, j), p, j, n)
  }

  lemma FollowsStill(g: seq<int>, ms: seq<int>, q: nat, p: nat, j: nat, n: nat, at: nat)
    requires n < |ms| && j < n && Follows(g, ms, q, p, j, n) && at < |g|
    ensures Follows(Inserted(g, at, ms[n]), ms, Shifted(q, at), Shifted(p, at), j, n + 1)
  {
    var u := Inserted(g, at, ms[n]);
    forall x | Shifted(q, at) < x < Shifted(p, at) ensures Later(ms, j, n + 1, u[x]) {
      InsertedAt(g, at, ms[n], x);
      if x == at + 1 {
        assert u[x] == ms[n];
      } else {
        var y := if x <= at then x else x - 1;
        assert Later(ms, j, n, g[y]);
      }
    }
  }

  /** A module that is there stays there, and a new one comes in once. */
  lemma {:induction false} MergeNew(w: World, s: seq<int>, ms: seq<int>, n: nat, t: int)
    requires s != [] && Modules(w, ms) && n <= |ms| && forall i :: 0 <= i < n ==> w.classes[ms[i]].tbl != t
    ensures Place(w, Merge(w, s, ms, n).0, t) == |Merge(w, s, ms, n).0| <==> Place(w, s, t) == |s|
  {
    if n == 0 {
      hide FirstFor, OwnPart;
    } else {
      hide Merge, FirstFor, OwnPart, Place, InOwn, Inserted, Modules, StandsFor;
      AllIn(w, ms, n);
      MergeCases(w, s, ms, n);
      MergeNew(w, s, ms, n - 1, t);
      var (g, at) := Merge(w, s, ms, n - 1);
      InsertedPlace(w, g, at, ms[n - 1], t);
      PlaceWithin(w, g, t);
    }
  }

  lemma PlaceWithin(w: World, g: seq<int>, t: int)
    requires g != []
    ensures 1 <= Place(w, g, t) <= |g|
  {
  }

  /** A module that was not included stands where it should, however many others there are. */
  lemma {:induction false} NewFollows(w: World, s: seq<int>, ms: seq<int>, n: nat, j: nat)
    requires s != [] && Modules(w, ms) && j < n <= |ms| && IsNew(w, s, ms[j])
    ensures Stands(w, Merge(w, s, ms, n).0, ms, j, n)
    decreases n
  {
    hide Anchor, Inserted, Stands, Place, Merge, OwnPart, FirstFor, StandsFor, Modules, IsNew, Follows, InOwn, Later;
    AllIn(w, ms, n);
    MergeCases(w, s, ms, n);
    MergeAt(w, s, ms, n - 1);
    MergeNew(w, s, ms, n - 1, w.classes[ms[n - 1]].tbl);
    if j < n - 1 { NewFollows(w, s, ms, n - 1, j); }
    NewStays(w, s, ms, n, j);
    StandsStep(w, Merge(w, s, ms, n - 1).0, Merge(w, s, ms, n - 1).1, Merge(w, s, ms, n).0, ms, n, j);
  }

  lemma NewStays(w: World, s: seq<int>, ms: seq<int>, n: nat, j: nat)
    requires s != [] && Modules(w, ms) && j < n <= |ms| && IsNew(w, s, ms[j])
    requires Place(w, Merge(w, s, ms, n - 1).0, w.classes[ms[n - 1]].tbl) == |Merge(w, s, ms, n - 1).0|
        <==> Place(w, s, w.classes[ms[n - 1]].tbl) == |s|
    ensures j == n - 1 ==> Place(w, Merge(w, s, ms, n - 1).0, w.classes[ms[j]].tbl) == |Merge(w, s, ms, n - 1).0|
  {
    hide Place, Merge;
  }

  lemma StandsStep(w: World, g: seq<int>, at: nat, u: seq<int>, ms: seq<int>, n: nat, j: nat)
    requires g != [] && Modules(w, ms) && j < n <= |ms| && at < |g|
    requires at < OwnPart(w, g, 1) && at == Anchor(w, g, ms, n - 1)
    requires u == if Place(w, g, w.classes[ms[n - 1]].tbl) == |g| then Inserted(g, at, ms[n - 1]) else g
    requires j == n - 1 ==> Place(w, g, w.classes[ms[j]].tbl) == |g|
    requires j < n - 1 ==> Stands(w, g, ms, j, n - 1)
    ensures u != [] && Stands(w, u, ms, j, n)
  {
    hide Anchor, Inserted, Stands, Place, OwnPart;
    if j == n - 1 {
      FollowsFirst(w, g, at, ms, j);
    } else if Place(w, g, w.classes[ms[n - 1]].tbl) == |g| {
      FollowsInserted(w, g, at, ms, n, j);
    } else {
      MoreFollow(w, g, ms, j, n - 1);
    }
  }

  lemma FollowsFirst(w: World, g: seq<int>, at: nat, ms: seq<int>, j: nat)
    requires g != [] && Modules(w, ms) && j < |ms| && at == Anchor(w, g, ms, j) < OwnPart(w, g, 1) && at < |g|
    requires Place(w, g, w.classes[ms[j]].tbl) == |g|
    ensures Stands(w, Inserted(g, at, ms[j]), ms, j, j + 1)
  {
    hide Anchor, Inserted, OwnPart, FirstFor;
    NewPlace(w, g, at, ms[j], w.classes[ms[j]].tbl);
    InsertedOwn(w, g, at, ms[j]);
    InsertedAnchor(w, g, at, ms[j], ms, j);
    InsertedAt(g, at, ms[j], at + 1);
  }

  lemma FollowsInserted(w: World, g: seq<int>, at: nat, ms: seq<int>, n: nat, j: nat)
    requires g != [] && Modules(w, ms) && j < n - 1 && n <= |ms| && at < OwnPart(w, g, 1) && at < |g|
    requires Stands(w, g, ms, j, n - 1)
    ensures Stands(w, Inserted(g, at, ms[n - 1]), ms, j, n)
  {
    hide Anchor, Inserted, OwnPart, FirstFor, Follows;
    var m, t := ms[n - 1], w.classes[ms[j]].tbl;
    InsertedPlace(w, g, at, m, t);
    InsertedOwn(w, g, at, m);
    InsertedAnchor(w, g, at, m, ms, j);
    InsertedAt(g, at, m, Shifted(Place(w, g, t), at));
    FollowsStill(g, ms, Anchor(w, g, ms, j), Place(w, g, t), j, n - 1, at);
  }

  lemma MoreFollow(w: World, g: seq<int>, ms: seq<int>, j: nat, n: nat)
    requires g != [] && j < n < |ms| && forall i :: 0 <= i < |ms| ==> ms[i] in w.classes
    requires Stands(w, g, ms, j, n)
    ensures Stands(w, g, ms, j, n + 1)
  {
    var q, p := Anchor(w, g, ms, j), Place(w, g, w.classes[ms[j]].tbl);
    forall x | q < x < p ensures Later(ms, j, n + 1, g[x]) { assert Later(ms, j, n, g[x]); }
  }

  // ---------- modules none of which was included ----------

  lemma {:induction false} MergeAllNew(w: World, s: seq<int>, ms: seq<int>, n: nat)
    requires s != [] && Modules(w, ms) && n <= |ms| && forall i :: 0 <= i < n ==> IsNew(w, s, ms[i])
    ensures Merge(w, s, ms, n) == ([s[0]] + ms[..n] + s[1..], n)
  {
    if n == 0 {
      hide FirstFor, OwnPart;
      assert [s[0]] + ms[..0] + s[1..] == s;
    } else {
      hide Merge, FirstFor, OwnPart, Place, InOwn, Inserted, Modules, StandsFor;
      AllIn(w, ms, n);
      MergeCases(w, s, ms, n);
      MergeAllNew(w, s, ms, n - 1);
      MergeNew(w, s, ms, n - 1, w.classes[ms[n - 1]].tbl);
      LastIsNew(w, s, ms, n);
      hide IsNew;
      SplitBehind(s[0], ms, s[1..], n);
    }
  }

  lemma LastIsNew(w: World, s: seq<int>, ms: seq<int>, n: nat)
    requires s != [] && 1 <= n <= |ms| && forall i :: 0 <= i < |ms| ==> ms[i] in w.classes
    requires forall i :: 0 <= i < n ==> IsNew(w, s, ms[i])
    ensures Place(w, s, w.classes[ms[n - 1]].tbl) == |s|
  {
    assert IsNew(w, s, ms[n - 1]);
  }

  lemma SplitBehind(h: int, ms: seq<int>, rest: seq<int>, n: nat)
    requires 1 <= n <= |ms|
    ensures Inserted([h] + ms[..n - 1] + rest, n - 1, ms[n - 1]) == [h] + ms[..n] + rest
  {
    var g := [h] + ms[..n - 1] + rest;
    assert g[..n] == [h] + ms[..n - 1] && g[n..] == rest;
    assert g[..n] + [ms[n - 1]] == [h] + ms[..n];
  }

  lemma ChainModules(w: World, klass: int, m: int)
    requires CanInclude(w, klass, m)
    ensures m in w.chain && Modules(w, w.chain[m])
  {
    ModuleChain(w, klass, m);
    var ms := w.chain[m];
    forall i | 0 <= i < |ms| ensures ms[i] in w.classes && !w.classes[ms[i]].kind.Class? {
      NextModule(w, klass, m, i);
    }
  }

  lemma NotIncludedIsNew(w: World, klass: int, m: int)
    requires Ok(w) && Tidy(w) && klass in w.classes && m in w.classes
    ensures klass in w.chain && w.chain[klass] != []
    ensures !Included(w, w.chain[klass], w.classes[m].tbl) ==> IsNew(w, w.chain[klass], m)
  {
    ChainHead(w, klass);
    NoModuleBehind(w, klass);
    hide Ok, Tidy;
    var s, t := w.chain[klass], w.classes[m].tbl;
    if !Included(w, s, t) {
      forall j | 1 <= j < |s| ensures !StandsFor(w, s[j], t) { assert !IsEntry(w, s[j], t); }
      PlaceIs(w, s, t, |s|);
    }
  }

  /**
   * If none of the modules was included before, entries for them stand behind the includer in the order of the
   * modules, and behind them is what was there.
   */
  lemma NewInOrder(w0: World, w: World, klass: int, m: int, n: nat)
    requires CanInclude(w0, klass, m) && m in w0.chain && IncludeResult(w0, w, klass, w0.chain[m], n)
    requires klass in w0.chain && forall i :: 0 <= i < n && i < |w0.chain[m]| && w0.chain[m][i] in w0.classes ==>
               !Included(w0, w0.chain[klass], w0.classes[w0.chain[m][i]].tbl)
    ensures klass in w.chain && |w.chain[klass]| == n + |w0.chain[klass]| && w.chain[klass][0] == klass
    ensures w.chain[klass][n + 1..] == w0.chain[klass][1..]
    ensures forall i :: 0 <= i < n ==>
              w0.chain[m][i] in w0.classes && IsEntry(w, w.chain[klass][i + 1], w0.classes[w0.chain[m][i]].tbl)
  {
    hide Tidy, ChainOk, OnlyKlass, IncludedSoFar, Included, Merge, Same;
    var s0, s, ms := w0.chain[klass], w.chain[klass], w0.chain[m];
    ChainModules(w0, klass, m);
    ChainHead(w0, klass);
    forall i | 0 <= i < n ensures IsNew(w0, s0, ms[i]) { NotIncludedIsNew(w0, klass, ms[i]); }
    MergeAllNew(w0, s0, ms, n);
    var g := [s0[0]] + ms[..n] + s0[1..];
    assert Realised(w0, w, s0, s, g);
    forall i | 0 <= i < n ensures IsEntry(w, s[i + 1], w0.classes[ms[i]].tbl) {
      assert g[i + 1] == ms[i] && Same(w0, w, s0, s[i + 1], g[i + 1]);
      NextModule(w0, klass, m, i);
      NewIsEntry(w0, w, s0, s[i + 1], ms[i]);
    }
    forall i | n + 1 <= i < |s| ensures s[i] == s0[i - n] {
      assert g[i] == s0[i - n] && Same(w0, w, s0, s[i], g[i]);
      OldIsSame(w0, w, s0, s[i], g[i]);
    }
    assert Same(w0, w, s0, s[0], g[0]);
    OldIsSame(w0, w, s0, s[0], g[0]);
  }

  lemma NewIsEntry(w0: World, w: World, s0: seq<int>, p: int, q: int)
    requires Same(w0, w, s0, p, q) && q !in s0
    ensures q in w0.classes && IsEntry(w, p, w0.classes[q].tbl)
  {
  }

  lemma OldIsSame(w0: World, w: World, s0: seq<int>, p: int, q: int)
    requires Same(w0, w, s0, p, q) && q in s0
    ensures p == q
  {
  }
}
