/**
 * The tree of classes as inclusion keeps it: the entry of an included module belongs to one includer,
 * and above a module there are entries only.
 */
module ClassTree {
  import opened MethodTable
  import opened SuperChains

  /** The classes of w are there in y, but for their super links. */
  ghost predicate SameClasses(w: World, y: World) {
    forall d :: d in w.classes ==> d in y.classes && y.classes[d] == w.classes[d].(super := y.classes[d].super)
  }

  /** Behind the head of a chain there are entries only. */
  ghost predicate EntriesBehind(w: World, s: seq<int>) {
    forall i :: 1 <= i < |s| ==> s[i] in w.classes && w.classes[s[i]].kind.IClass?
  }

  ghost predicate TablesOnce(w: World, s: seq<int>) {
    forall i, j :: 0 <= i < j < |s| && s[i] in w.classes && s[j] in w.classes ==>
      w.classes[s[i]].tbl != w.classes[s[j]].tbl
  }

  /** A module as rb_include_module walks it: behind its head only entries, each table once. */
  ghost predicate IsModule(w: World, m: int) {
    && m in w.classes && w.classes[m].kind.Module? && m in w.chain
    && EntriesBehind(w, w.chain[m]) && TablesOnce(w, w.chain[m])
  }

  /** Nothing is below a module but itself, and one class only is below an entry. */
  ghost predicate OwnLinks(w: World) {
    && (forall c :: c in w.classes && w.classes[c].super in w.classes ==>
          !w.classes[w.classes[c].super].kind.Module?)
    && (forall c, d :: c in w.classes && d in w.classes && w.classes[c].super == w.classes[d].super ==>
          c == d || w.classes[c].super !in w.classes || !w.classes[w.classes[c].super].kind.IClass?)
  }

  /** An alias names a class as its origin. */
  predicate OriginOk(w: World, m: Method) {
    m.body.Some? && m.body.value.FBody? ==> m.body.value.orig in w.classes
  }

  ghost predicate KnownOrigins(w: World) {
    forall t, n :: t in w.tables && n in w.tables[t] ==> OriginOk(w, w.tables[t][n])
  }

  /** Whatever is a module can be included. */
  ghost predicate ModulesOk(w: World) {
    forall m :: m in w.classes && w.classes[m].kind.Module? ==> IsModule(w, m)
  }

  /** Only entries share the table of another class. */
  ghost predicate OwnTables(w: World) {
    forall c, d ::
      c in w.classes && d in w.classes && !w.classes[c].kind.IClass? && !w.classes[d].kind.IClass? && c != d ==>
        w.classes[c].tbl != w.classes[d].tbl
  }

  ghost predicate Tidy(w: World) {
    OwnLinks(w) && ModulesOk(w) && KnownOrigins(w) && OwnTables(w)
  }

  // ---------- entries belong to one includer ----------

  lemma NextInChain(w: World, c: int, i: nat)
    requires Ok(w) && c in w.classes && 1 <= i < |w.chain[c]|
    ensures w.chain[c][i - 1] in w.classes && w.chain[c][i] in w.classes
    ensures w.classes[w.chain[c][i - 1]].super == w.chain[c][i]
  {
    ChainFrom(w, c, i - 1);
    ChainFrom(w, c, i);
    assert ChainOk(w, w.chain[c][i - 1]);
    assert w.chain[c][i - 1..][1] == w.chain[c][i];
  }

  lemma NoModuleAbove(w: World, c: int)
    requires OwnLinks(w) && c in w.classes && w.classes[c].super in w.classes
    ensures !w.classes[w.classes[c].super].kind.Module?
  {
  }

  lemma OneBelow(w: World, c: int, d: int)
    requires OwnLinks(w) && c in w.classes && d in w.classes && w.classes[c].super == w.classes[d].super
    requires w.classes[c].super in w.classes && w.classes[w.classes[c].super].kind.IClass?
    ensures c == d
  {
  }

  /** What is before the first superclass, behind the head, is an entry. */
  lemma OwnIsEntry(w: World, c: int, at: nat, j: nat)
    requires Ok(w) && OwnLinks(w) && c in w.classes && InOwnPart(w, w.chain[c], at) && 1 <= j <= at
    ensures w.chain[c][j] in w.classes && w.classes[w.chain[c][j]].kind.IClass?
  {
    hide OwnLinks, ChainOk;
    NextInChain(w, c, j);
    NoModuleAbove(w, w.chain[c][j - 1]);
    assert !w.classes[w.chain[c][j]].kind.Class?;
  }

  /** A chain that reaches an entry of klass comes through klass, or starts behind it. */
  lemma {:induction false} ThroughOwner(w: World, klass: int, at: nat, d: int, k: nat)
    requires Ok(w) && OwnLinks(w) && klass in w.classes && InOwnPart(w, w.chain[klass], at)
    requires d in w.classes && k < |w.chain[d]| && w.chain[d][k] == w.chain[klass][at]
    ensures if k >= at then w.chain[d][k - at] == klass else w.chain[klass][at - k] == d
    decreases at
  {
    hide OwnLinks;
    ChainFrom(w, klass, 0);
    ChainFrom(w, d, 0);
    if at > 0 && k > 0 {
      OwnIsEntry(w, klass, at, at);
      NextInChain(w, klass, at);
      NextInChain(w, d, k);
      OneBelow(w, w.chain[klass][at - 1], w.chain[d][k - 1]);
      ThroughOwner(w, klass, at - 1, d, k - 1);
    }
  }

  lemma ModuleTail(w: World, m: int, i: nat)
    requires IsModule(w, m) && 1 <= i < |w.chain[m]|
    ensures w.chain[m][i] in w.classes && w.classes[w.chain[m][i]].kind.IClass?
  {
  }

  lemma SharedMeansSame(w: World, klass: int, m: int, i: nat, j: nat)
    requires Ok(w) && OwnLinks(w) && klass in w.classes && IsModule(w, m)
    requires i < |w.chain[klass]| && j < |w.chain[m]| && w.chain[klass][i] == w.chain[m][j]
    ensures klass == m || w.classes[klass].kind.IClass?
  {
    hide OwnLinks;
    forall l | 1 <= l <= j ensures w.chain[m][l] in w.classes && !w.classes[w.chain[m][l]].kind.Class? {
      ModuleTail(w, m, l);
    }
    ThroughOwner(w, m, j, klass, i);
    if i < j { ModuleTail(w, m, j - i); } else { NotBelow(w, klass, m, i - j); }
  }

  /** No class is both in the chain of a module and in that of another class or module. */
  lemma NoneShared(w: World, klass: int, m: int, i: nat, j: nat)
    requires Ok(w) && OwnLinks(w) && klass in w.classes && !w.classes[klass].kind.IClass?
    requires IsModule(w, m) && klass != m && i < |w.chain[klass]| && j < |w.chain[m]|
    ensures w.chain[klass][i] != w.chain[m][j]
  {
    if w.chain[klass][i] == w.chain[m][j] { SharedMeansSame(w, klass, m, i, j); }
  }

  lemma NotBelow(w: World, klass: int, m: int, i: nat)
    requires Ok(w) && OwnLinks(w) && klass in w.classes && i < |w.chain[klass]| && w.chain[klass][i] == m
    requires m in w.classes && w.classes[m].kind.Module?
    ensures klass == m
  {
    hide OwnLinks, ChainOk;
    if i > 0 {
      NextInChain(w, klass, i);
      NoModuleAbove(w, w.chain[klass][i - 1]);
    } else {
      ChainFrom(w, klass, 0);
    }
  }

  // ---------- what a new entry of one class does to the others ----------

  /** The entries of klass itself: behind it and before its first superclass. */
  function OwnEntries(w: World, klass: int): seq<int>
    requires klass in w.chain && w.chain[klass] != []
  {
    w.chain[klass][1..OwnPart(w, w.chain[klass], 1)]
  }

  /** The chain of d changed as that of klass, if it comes through klass, and else not at all. */
  ghost predicate FollowsKlass(w0: World, w: World, klass: int, d: int)
    requires klass in w.chain && d in w0.chain && d in w.chain
  {
    && (klass !in w0.chain[d] ==> w.chain[d] == w0.chain[d])
    && (forall i :: 0 <= i < |w0.chain[d]| && w0.chain[d][i] == klass ==>
          w.chain[d] == w0.chain[d][..i] + w.chain[klass])
  }

  /** From w0 to w only klass got new entries. The chains of its own entries are parts of its chain. */
  ghost predicate OnlyKlass(w0: World, w: World, klass: int) {
    && klass in w0.chain && w0.chain[klass] != [] && klass in w.chain
    && (forall d :: d in w.classes && d !in w0.classes ==> d in w.chain[klass])
    && (forall d :: d in w0.chain && d !in OwnEntries(w0, klass) ==> d in w.chain && FollowsKlass(w0, w, klass, d))
  }

  lemma OnlyKlassStarts(w: World, klass: int)
    requires Ok(w) && klass in w.classes
    ensures OnlyKlass(w, w, klass)
  {
    ChainFrom(w, klass, 0);
    forall d | d in w.chain ensures FollowsKlass(w, w, klass, d) {
      forall i | 0 <= i < |w.chain[d]| && w.chain[d][i] == klass
        ensures w.chain[d] == w.chain[d][..i] + w.chain[klass]
      {
        ChainFrom(w, d, i);
        assert w.chain[d] == w.chain[d][..i] + w.chain[d][i..];
      }
    }
  }

  lemma InsertedBehind(pre: seq<int>, s: seq<int>, at: nat, x: int)
    requires at < |s|
    ensures (pre + s)[..|pre| + at + 1] + [x] + (pre + s)[|pre| + at + 1..] == pre + (s[..at + 1] + [x] + s[at + 1..])
  {
  }

  lemma NotReached(w: World, klass: int, at: nat, d: int)
    requires Ok(w) && OwnLinks(w) && klass in w.classes && InOwnPart(w, w.chain[klass], at) && d in w.classes
    requires klass !in w.chain[d] && forall j :: 1 <= j <= at ==> w.chain[klass][j] != d
    ensures w.chain[klass][at] !in w.chain[d]
  {
    hide OwnLinks;
    forall k | 0 <= k < |w.chain[d]| ensures w.chain[d][k] != w.chain[klass][at] {
      if w.chain[d][k] == w.chain[klass][at] { ThroughOwner(w, klass, at, d, k); }
    }
  }

  lemma GrownThrough(w: World, pre: seq<int>, klass: int, at: nat, c: int, x: int, t: int, d: int)
    requires Ok(w) && klass in w.classes && d in w.classes && at < |w.chain[klass]| && w.chain[klass][at] == c
    requires c in w.classes && x !in w.classes && w.chain[d] == pre + w.chain[klass]
    ensures d in Linked(w, c, x, t).chain && klass in Linked(w, c, x, t).chain
    ensures Linked(w, c, x, t).chain[d] == pre + Linked(w, c, x, t).chain[klass]
  {
    LinkedChain(w, c, x, t, klass);
    LinkedChain(w, c, x, t, d);
    assert w.chain[d][|pre| + at] == c;
    hide Linked, Ok;
    InsertedBehind(pre, w.chain[klass], at, x);
  }

  lemma FollowsOn(w0: World, w: World, klass: int, at: nat, c: int, x: int, t: int, d: int)
    requires Ok(w) && OwnLinks(w) && klass in w.classes && InOwnPart(w, w.chain[klass], at) && w.chain[klass][at] == c
    requires c in w.classes && x !in w.classes && d in w0.chain && d in w.chain && FollowsKlass(w0, w, klass, d)
    requires forall j :: 1 <= j <= at ==> w.chain[klass][j] != d
    ensures d in Linked(w, c, x, t).chain && klass in Linked(w, c, x, t).chain
    ensures FollowsKlass(w0, Linked(w, c, x, t), klass, d)
  {
    assert klass in Linked(w, c, x, t).chain && d in w.classes;
    hide OwnLinks, ChainOk, InsertAfter;
    if klass !in w0.chain[d] {
      NotReached(w, klass, at, d);
      LinkedChain(w, c, x, t, d);
    } else {
      hide Ok, InOwnPart;
      forall i | 0 <= i < |w0.chain[d]| && w0.chain[d][i] == klass
        ensures d in Linked(w, c, x, t).chain
        ensures Linked(w, c, x, t).chain[d] == w0.chain[d][..i] + Linked(w, c, x, t).chain[klass]
      {
        GrownThrough(w, w0.chain[d][..i], klass, at, c, x, t, d);
      }
    }
  }

  /** One more entry for klass. */
  lemma OnlyKlassStep(w0: World, w: World, klass: int, at: nat, c: int, x: int, t: int)
    requires OnlyKlass(w0, w, klass) && Ok(w) && OwnLinks(w) && klass in w.classes
    requires InOwnPart(w, w.chain[klass], at) && w.chain[klass][at] == c && c in w.classes && x !in w.classes && x != 0
    requires forall j :: 1 <= j <= at && w.chain[klass][j] in w0.chain ==> w.chain[klass][j] in OwnEntries(w0, klass)
    ensures OnlyKlass(w0, Linked(w, c, x, t), klass)
  {
    hide OwnLinks, FollowsKlass, OwnEntries, InOwnPart;
    var s, y := w.chain[klass], Linked(w, c, x, t);
    LinkedChain(w, c, x, t, klass);
    AtIn(w, klass, at);
    forall d | d in y.classes && d !in w0.classes ensures d in y.chain[klass] {
      if d == x {
        assert y.chain[klass][at + 1] == x;
      } else {
        assert d in w.chain[klass];
        var i :| 0 <= i < |s| && s[i] == d;
        OldPlace(s, at, x, if i <= at then i else i + 1);
      }
    }
    forall d | d in w0.chain && d !in OwnEntries(w0, klass) ensures d in y.chain && FollowsKlass(w0, y, klass, d) {
      FollowsOn(w0, w, klass, at, c, x, t, d);
    }
  }

  lemma AtIn(w: World, klass: int, at: nat)
    requires klass in w.chain && InOwnPart(w, w.chain[klass], at)
    ensures at < |w.chain[klass]|
  {
  }

  // ---------- the tree stays tidy ----------

  lemma LinkedOwnLinks(w: World, c: int, x: int, t: int)
    requires Ok(w) && OwnLinks(w) && c in w.classes && x !in w.classes && x != 0
    ensures OwnLinks(Linked(w, c, x, t))
  {
    var y := Linked(w, c, x, t);
    forall d | d in w.classes ensures w.classes[d].super != x { assert ChainOk(w, d); }
    hide Ok, ChainOk;
    forall d, e | d in y.classes && e in y.classes && y.classes[d].super == y.classes[e].super
                  && y.classes[d].super in y.classes && y.classes[y.classes[d].super].kind.IClass?
      ensures d == e
    {
      if y.classes[d].super != x {
        OneBelow(w, if d == x then c else d, if e == x then c else e);
      }
    }
  }

  /** Another module keeps its chain; klass, if it is a module, gets an entry for a table it did not have. */
  lemma LinkedModules(w: World, klass: int, at: nat, c: int, x: int, t: int)
    requires Ok(w) && OwnLinks(w) && ModulesOk(w) && klass in w.classes && !w.classes[klass].kind.IClass?
    requires InOwnPart(w, w.chain[klass], at) && w.chain[klass][at] == c && c in w.classes && x !in w.classes && x != 0
    requires !Included(w, w.chain[klass], t) && w.classes[klass].tbl != t
    ensures ModulesOk(Linked(w, c, x, t))
  {
    var y := Linked(w, c, x, t);
    hide OwnLinks, Included;
    forall m | m in y.classes && y.classes[m].kind.Module? ensures IsModule(y, m) {
      assert m != x;
      assert IsModule(w, m);
      if m == klass { OwnModule(w, klass, at, c, x, t); } else { OtherModule(w, klass, at, c, x, t, m); }
    }
  }

  lemma OtherModule(w: World, klass: int, at: nat, c: int, x: int, t: int, m: int)
    requires Ok(w) && OwnLinks(w) && klass in w.classes && !w.classes[klass].kind.IClass? && IsModule(w, m)
    requires m != klass
    requires InOwnPart(w, w.chain[klass], at) && w.chain[klass][at] == c && c in w.classes && x !in w.classes
    ensures IsModule(Linked(w, c, x, t), m) && Linked(w, c, x, t).chain[m] == w.chain[m]
  {
    hide OwnLinks;
    assert forall j :: 0 <= j < |w.chain[m]| ==> w.chain[m][j] != c by {
      hide IsModule;
      forall j | 0 <= j < |w.chain[m]| ensures w.chain[m][j] != c { NoneShared(w, klass, m, at, j); }
    }
    LinkedChain(w, c, x, t, m);
    forall i | 0 <= i < |w.chain[m]| ensures w.chain[m][i] in w.classes { ChainFrom(w, m, i); }
    LinkedKeeps(w, c, x, t);
    hide Ok, Linked;
    SameModule(w, Linked(w, c, x, t), w.chain[m]);
  }

  lemma SameClass(w: World, y: World, d: int)
    requires SameClasses(w, y) && d in w.classes
    ensures d in y.classes && y.classes[d].tbl == w.classes[d].tbl && y.classes[d].kind == w.classes[d].kind
  {
  }

  lemma SameModule(w: World, y: World, s: seq<int>)
    requires EntriesBehind(w, s) && TablesOnce(w, s) && forall i :: 0 <= i < |s| ==> s[i] in w.classes
    requires SameClasses(w, y)
    ensures EntriesBehind(y, s) && TablesOnce(y, s)
  {
    forall i | 1 <= i < |s| ensures s[i] in y.classes && y.classes[s[i]].kind.IClass? {
      SameClass(w, y, s[i]);
    }
    forall i, j | 0 <= i < j < |s|
      ensures s[i] in y.classes && s[j] in y.classes && y.classes[s[i]].tbl != y.classes[s[j]].tbl
    {
      SameClass(w, y, s[i]);
      SameClass(w, y, s[j]);
    }
  }

  /** One more entry, for a table that is new. */
  lemma MoreEntries(w: World, y: World, s: seq<int>, at: nat, x: int)
    requires EntriesBehind(w, s) && TablesOnce(w, s) && at < |s| && x in y.classes && y.classes[x].kind.IClass?
    requires forall i :: 0 <= i < |s| ==> s[i] in w.classes && w.classes[s[i]].tbl != y.classes[x].tbl
    requires SameClasses(w, y)
    ensures EntriesBehind(y, s[..at + 1] + [x] + s[at + 1..]) && TablesOnce(y, s[..at + 1] + [x] + s[at + 1..])
  {
    SameModule(w, y, s);
    forall i | 0 <= i < |s| ensures s[i] in y.classes && y.classes[s[i]].tbl != y.classes[x].tbl {
      SameClass(w, y, s[i]);
    }
    hide SameClasses;
    var u := s[..at + 1] + [x] + s[at + 1..];
    forall i | 1 <= i < |u| ensures u[i] in y.classes && y.classes[u[i]].kind.IClass? {
      OldPlace(s, at, x, i);
    }
    forall i, j | 0 <= i < j < |u| ensures y.classes[u[i]].tbl != y.classes[u[j]].tbl {
      OldPlace(s, at, x, i);
      OldPlace(s, at, x, j);
    }
  }

  lemma OwnModule(w: World, klass: int, at: nat, c: int, x: int, t: int)
    requires Ok(w) && IsModule(w, klass) && klass in w.classes && at < |w.chain[klass]|
    requires w.chain[klass][at] == c && c in w.classes && x !in w.classes
    requires !Included(w, w.chain[klass], t) && w.classes[klass].tbl != t
    ensures IsModule(Linked(w, c, x, t), klass)
  {
    var s := w.chain[klass];
    LinkedChain(w, c, x, t, klass);
    ChainFrom(w, klass, 0);
    LinkedKeeps(w, c, x, t);
    forall i | 0 <= i < |s| ensures s[i] in w.classes && w.classes[s[i]].tbl != t {
      ChainFrom(w, klass, i);
      if i > 0 { assert !IsEntry(w, s[i], t); }
    }
    assert klass in Linked(w, c, x, t).chain && klass in Linked(w, c, x, t).classes;
    assert Linked(w, c, x, t).chain[klass] == s[..at + 1] + [x] + s[at + 1..];
    hide Ok, Included, Linked, EntriesBehind, TablesOnce;
    MoreEntries(w, Linked(w, c, x, t), s, at, x);
  }

  lemma LinkedTidy(w: World, klass: int, at: nat, c: int, x: int, t: int)
    requires Ok(w) && Tidy(w) && klass in w.classes && !w.classes[klass].kind.IClass?
    requires InOwnPart(w, w.chain[klass], at) && w.chain[klass][at] == c && c in w.classes && x !in w.classes && x != 0
    requires !Included(w, w.chain[klass], t) && w.classes[klass].tbl != t
    ensures Tidy(Linked(w, c, x, t))
  {
    var y := Linked(w, c, x, t);
    hide OwnLinks, ModulesOk, Included, InOwnPart;
    LinkedOwnLinks(w, c, x, t);
    LinkedModules(w, klass, at, c, x, t);
    LinkedKeeps(w, c, x, t);
    hide Linked;
    SameTables(w, y, x);
  }

  /** One more entry leaves tables to their owners. */
  lemma SameTables(w: World, y: World, x: int)
    requires OwnTables(w) && SameClasses(w, y) && y.classes.Keys == w.classes.Keys + {x}
    requires x in y.classes && y.classes[x].kind.IClass?
    ensures OwnTables(y)
  {
    forall d, e | d in y.classes && e in y.classes && !y.classes[d].kind.IClass? && !y.classes[e].kind.IClass?
                  && y.classes[d].tbl == y.classes[e].tbl
      ensures d == e
    {
      SameClass(w, y, d);
      SameClass(w, y, e);
    }
  }

  lemma LinkedKeeps(w: World, c: int, x: int, t: int)
    requires c in w.classes && x !in w.classes
    ensures Linked(w, c, x, t).tables == w.tables
    ensures x in Linked(w, c, x, t).classes && Linked(w, c, x, t).classes[x].tbl == t
    ensures Linked(w, c, x, t).classes[x].kind.IClass?
    ensures SameClasses(w, Linked(w, c, x, t))
    ensures Linked(w, c, x, t).classes.Keys == w.classes.Keys + {x}
  {
  }

  // ---------- other changes ----------

  /** A new class below another one, or a new module. */
  lemma NewTidy(w: World, x: World, c: int, t: int)
    requires Ok(w) && Tidy(w) && c !in w.classes && c != 0 && t !in w.tables && c in x.classes
    requires !x.classes[c].kind.IClass? && x.classes[c].tbl == t
    requires x.classes == w.classes[c := x.classes[c]] && x.tables == w.tables[t := map[]]
    requires if x.classes[c].kind.Module? then x.classes[c].super == 0
             else x.classes[c].super in w.classes && w.classes[x.classes[c].super].kind.Class?
    requires x.chain == w.chain[c := [c] + if x.classes[c].super == 0 then [] else w.chain[x.classes[c].super]]
    ensures Tidy(x)
  {
    assert OwnLinks(x) by {
      forall d | d in w.classes ensures w.classes[d].super != c { assert ChainOk(w, d); }
      hide Ok, ChainOk;
      forall d, e | d in x.classes && e in x.classes && x.classes[d].super == x.classes[e].super
                    && x.classes[d].super in x.classes && x.classes[x.classes[d].super].kind.IClass?
        ensures d == e
      {
        OneBelow(w, d, e);
      }
    }
    forall d | d in w.classes ensures w.classes[d].tbl != t { assert ChainOk(w, d); }
    hide OwnLinks;
    forall m | m in x.classes && x.classes[m].kind.Module? ensures IsModule(x, m) {
      if m != c {
        assert IsModule(w, m);
        forall i | 0 <= i < |w.chain[m]| ensures w.chain[m][i] in w.classes { ChainFrom(w, m, i); }
        SameModule(w, x, w.chain[m]);
      }
    }
  }

  /** A new method. */
  lemma InsertTidy(w: World, x: World, t: int, n: int, m: Method)
    requires Tidy(w) && OriginOk(w, m) && t in w.tables
    requires x == World(w.classes, w.tables[t := w.tables[t][n := m]], w.chain)
    ensures Tidy(x)
  {
    assert OwnLinks(x) && ModulesOk(x) by {
      hide KnownOrigins;
      forall k | k in x.classes && x.classes[k].kind.Module? ensures IsModule(x, k) { assert IsModule(w, k); }
    }
  }
}
