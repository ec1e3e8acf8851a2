/** Where inclusion puts the modules: the chain it makes, as a function of the chains there were. */
module IncludeMerge {
  import opened MethodTable
  import opened SuperChains
  import opened ClassTree

  /** The class p stands for a module with this table. */
  predicate StandsFor(w: World, p: int, t: int) {
    p in w.classes && !w.classes[p].kind.Class? && w.classes[p].tbl == t
  }

  /** The first place from i on that stands for the module with table t. */
  function FirstFor(w: World, g: seq<int>, t: int, i: nat): (k: nat)
    requires i <= |g|
    ensures i <= k <= |g| && (k < |g| ==> StandsFor(w, g[k], t))
    ensures forall j :: i <= j < k ==> !StandsFor(w, g[j], t)
    decreases |g| - i
  {
    if i == |g| || StandsFor(w, g[i], t) then i else FirstFor(w, g, t, i + 1)
  }

  /**
   * The chain s after the first n of the modules ms have been included, and the insertion point. A
   * module stands for the entry it will get. A module that is there moves the insertion point, unless a
   * superclass comes before it; another one goes behind the insertion point.
   */
  function Merge(w: World, s: seq<int>, ms: seq<int>, n: nat): (r: (seq<int>, nat))
    requires s != [] && n <= |ms| && forall i :: 0 <= i < |ms| ==> ms[i] in w.classes
    ensures r.1 < |r.0|
  {
    if n == 0 then (s, 0)
    else
      var (g, at) := Merge(w, s, ms, n - 1);
      var k := FirstFor(w, g, w.classes[ms[n - 1]].tbl, 1);
      if k == |g| then (g[..at + 1] + [ms[n - 1]] + g[at + 1..], at + 1)
      else if k < OwnPart(w, g, 1) then (g, k)
      else (g, at)
  }

  // ---------- the chain that is made ----------

  /** The class p is there where q was foreseen: itself, or a new entry for the module q. */
  predicate Same(w0: World, w: World, s0: seq<int>, p: int, q: int) {
    && q in w0.classes && p in w.classes && w.classes[p].tbl == w0.classes[q].tbl
    && (p in w0.classes <==> q in s0) && (q in s0 ==> p == q)
    && (q !in s0 ==> w.classes[p].kind.IClass? && !w0.classes[q].kind.Class?)
  }

  /** The chain s is what was foreseen. */
  ghost predicate Realised(w0: World, w: World, s0: seq<int>, s: seq<int>, g: seq<int>) {
    |s| == |g| && forall i :: 0 <= i < |s| ==> Same(w0, w, s0, s[i], g[i])
  }

  /** Where the walk over the modules stands. */
  ghost predicate Placed(w0: World, w: World, klass: int, ms: seq<int>, n: nat, at: nat) {
    && klass in w0.chain && klass in w.chain && w0.chain[klass] != [] && n <= |ms|
    && (forall i :: 0 <= i < |ms| ==> ms[i] in w0.classes)
    && Realised(w0, w, w0.chain[klass], w.chain[klass], Merge(w0, w0.chain[klass], ms, n).0)
    && at == Merge(w0, w0.chain[klass], ms, n).1
  }

  lemma PlacedStarts(w: World, klass: int, ms: seq<int>)
    requires Ok(w) && klass in w.classes && forall i :: 0 <= i < |ms| ==> ms[i] in w.classes
    ensures Placed(w, w, klass, ms, 0, 0)
  {
    var s := w.chain[klass];
    ChainFrom(w, klass, 0);
    forall i | 0 <= i < |s| ensures Same(w, w, s, s[i], s[i]) { ChainFrom(w, klass, i); }
  }

  /** Old classes are in the chain of klass that were there. */
  lemma EntryForeseen(w0: World, w: World, s0: seq<int>, p: int, q: int, t: int)
    requires Same(w0, w, s0, p, q) && SameClasses(w0, w)
    ensures IsEntry(w, p, t) ==> StandsFor(w0, q, t)
    ensures StandsFor(w0, q, t) && !w.classes[p].kind.Module? ==> IsEntry(w, p, t)
    ensures w.classes[p].kind.Class? <==> w0.classes[q].kind.Class?
  {
    if p in w0.classes { SameClass(w0, w, p); }
  }

  /** The first entry of a chain is where it was foreseen. */
  lemma FirstForeseen(w0: World, w: World, s0: seq<int>, s: seq<int>, g: seq<int>, t: int, k: nat)
    requires Realised(w0, w, s0, s, g) && SameClasses(w0, w) && 1 <= k <= |s|
    requires forall j :: 1 <= j < |s| ==> s[j] in w.classes && !w.classes[s[j]].kind.Module?
    requires forall j :: 1 <= j < k ==> !IsEntry(w, s[j], t)
    requires k < |s| ==> IsEntry(w, s[k], t)
    ensures |g| == |s| && FirstFor(w0, g, t, 1) == k
  {
    forall j | 1 <= j < |s| ensures IsEntry(w, s[j], t) <==> StandsFor(w0, g[j], t) {
      EntryForeseen(w0, w, s0, s[j], g[j], t);
    }
  }

  /** The first superclass is where it was foreseen. */
  lemma OwnForeseen(w0: World, w: World, s0: seq<int>, s: seq<int>, g: seq<int>, k: nat)
    requires Realised(w0, w, s0, s, g) && SameClasses(w0, w) && 1 <= k < |s|
    ensures |g| == |s| && (k < OwnPart(w0, g, 1) <==> InOwnPart(w, s, k))
  {
    forall j | 1 <= j < |s|
      ensures s[j] in w.classes && g[j] in w0.classes && (w.classes[s[j]].kind.Class? <==> w0.classes[g[j]].kind.Class?)
    {
      EntryForeseen(w0, w, s0, s[j], g[j], 0);
    }
  }

  lemma PlacedSkips(w0: World, w: World, klass: int, ms: seq<int>, n: nat, at: nat, k: nat, movable: bool)
    requires Placed(w0, w, klass, ms, n, at) && n < |ms| && SameClasses(w0, w) && 1 <= k < |w.chain[klass]|
    requires forall j :: 1 <= j < |w.chain[klass]| ==>
               w.chain[klass][j] in w.classes && !w.classes[w.chain[klass][j]].kind.Module?
    requires IsEntry(w, w.chain[klass][k], w0.classes[ms[n]].tbl)
    requires forall j :: 1 <= j < k ==> !IsEntry(w, w.chain[klass][j], w0.classes[ms[n]].tbl)
    requires movable <==> InOwnPart(w, w.chain[klass], k)
    ensures Placed(w0, w, klass, ms, n + 1, if movable then k else at)
  {
    var s0, s := w0.chain[klass], w.chain[klass];
    var g := Merge(w0, s0, ms, n).0;
    hide Realised;
    FirstForeseen(w0, w, s0, s, g, w0.classes[ms[n]].tbl, k);
    OwnForeseen(w0, w, s0, s, g, k);
  }

  lemma RealisedAdds(w0: World, w: World, y: World, s0: seq<int>, s: seq<int>, g: seq<int>, at: nat, x: int, m: int)
    requires Realised(w0, w, s0, s, g) && SameClasses(w, y) && at < |s| && x in y.classes && y.classes[x].kind.IClass?
    requires m in w0.classes && m !in s0 && !w0.classes[m].kind.Class? && x !in w0.classes
    requires y.classes[x].tbl == w0.classes[m].tbl
    ensures |g| == |s| && Realised(w0, y, s0, s[..at + 1] + [x] + s[at + 1..], g[..at + 1] + [m] + g[at + 1..])
  {
    var u, v := s[..at + 1] + [x] + s[at + 1..], g[..at + 1] + [m] + g[at + 1..];
    forall i | 0 <= i < |u| ensures Same(w0, y, s0, u[i], v[i]) {
      OldPlace(s, at, x, i);
      OldPlace(g, at, m, i);
      if i != at + 1 {
        var j := if i <= at then i else i - 1;
        assert Same(w0, w, s0, s[j], g[j]);
        SameClass(w, y, s[j]);
      }
    }
  }

  lemma PlacedInserts(w0: World, w: World, y: World, klass: int, ms: seq<int>, n: nat, at: nat, x: int)
    requires Placed(w0, w, klass, ms, n, at) && n < |ms| && SameClasses(w0, w) && SameClasses(w, y) && klass in y.chain
    requires forall j :: 1 <= j < |w.chain[klass]| ==>
               w.chain[klass][j] in w.classes && !w.classes[w.chain[klass][j]].kind.Module?
    requires !Included(w, w.chain[klass], w0.classes[ms[n]].tbl) && at < |w.chain[klass]|
    requires y.chain[klass] == w.chain[klass][..at + 1] + [x] + w.chain[klass][at + 1..]
    requires x in y.classes && y.classes[x].kind.IClass? && x !in w0.classes
    requires y.classes[x].tbl == w0.classes[ms[n]].tbl
    requires ms[n] !in w0.chain[klass] && !w0.classes[ms[n]].kind.Class?
    ensures Placed(w0, y, klass, ms, n + 1, at + 1)
  {
    var s0, s := w0.chain[klass], w.chain[klass];
    var t := w0.classes[ms[n]].tbl;
    var g := Merge(w0, s0, ms, n).0;
    forall j | 1 <= j < |s| ensures !IsEntry(w, s[j], t) {}
    hide Realised, Included, SameClasses;
    FirstForeseen(w0, w, s0, s, g, t, |s|);
    RealisedAdds(w0, w, y, s0, s, g, at, x, ms[n]);
  }
}
