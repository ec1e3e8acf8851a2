/**
 * When an inclusion makes cached lookups wrong. rb_include_module clears the cache when it ends; when it
 * finds klass among the modules it raises, and does not.
 */
module StaleCache {
  import opened MethodTable
  import opened SuperChains
  import opened ClassTree
  import opened IncludeMerge
  import opened IncludeChain

  // ---------- lookup ----------

  /** The first place of a chain whose table has the name. */
  function FirstDef(w: World, s: seq<int>, mid: int): (k: nat)
    ensures k <= |s| && (k < |s| ==> mid in TableOf(w, s[k]))
    ensures forall j :: 0 <= j < k ==> mid !in TableOf(w, s[j])
  {
    if s == [] || mid in TableOf(w, s[0]) then 0 else 1 + FirstDef(w, s[1..], mid)
  }

  lemma {:induction false} FindFirst(w: World, s: seq<int>, mid: int)
    ensures var k := FirstDef(w, s, mid);
            Find(w, s, mid) == if k < |s| then Some(Found(s[k], TableOf(w, s[k])[mid])) else None
  {
    if s != [] { FindFirst(w, s[1..], mid); }
  }

  lemma FirstDefIs(w: World, s: seq<int>, mid: int, k: nat)
    requires k <= |s| && (k < |s| ==> mid in TableOf(w, s[k])) && forall j :: 0 <= j < k ==> mid !in TableOf(w, s[j])
    ensures FirstDef(w, s, mid) == k
  {
  }

  /** Find looks at the tables along the chain only. */
  lemma {:induction false} FindSameTables(w: World, x: World, s: seq<int>, mid: int)
    requires forall i :: 0 <= i < |s| ==> TableOf(x, s[i]) == TableOf(w, s[i])
    ensures Find(x, s, mid) == Find(w, s, mid)
  {
    if s != [] { FindSameTables(w, x, s[1..], mid); }
  }

  lemma {:induction false} FindBehind(w: World, pre: seq<int>, s: seq<int>, mid: int)
    ensures Find(w, pre + s, mid) == if Find(w, pre, mid).Some? then Find(w, pre, mid) else Find(w, s, mid)
  {
    if pre == [] {
      assert pre + s == s;
    } else {
      assert (pre + s)[1..] == pre[1..] + s && (pre + s)[0] == pre[0];
      FindBehind(w, pre[1..], s, mid);
    }
  }

  // ---------- the chain without the new entries ----------

  /** The places of g that are in s0. */
  function Kept(g: seq<int>, s0: seq<int>): seq<int> {
    if g == [] then [] else (if g[0] in s0 then [g[0]] else []) + Kept(g[1..], s0)
  }

  lemma KeptOne(x: int, s0: seq<int>)
    ensures Kept([x], s0) == if x in s0 then [x] else []
  {
    assert [x][1..] == [];
  }

  lemma KeptUnfolded(g: seq<int>, s0: seq<int>)
    requires g != []
    ensures Kept(g, s0) == (if g[0] in s0 then [g[0]] else []) + Kept(g[1..], s0)
  {
  }

  lemma KeptStep(g: seq<int>, s0: seq<int>)
    requires g != []
    ensures Kept(g, s0) == Kept(g[..1], s0) + Kept(g[1..], s0)
  {
    hide Kept;
    assert g[..1] == [g[0]];
    KeptOne(g[0], s0);
    KeptUnfolded(g, s0);
  }

  lemma Regroup(x: seq<int>, y: seq<int>, z: seq<int>)
    ensures x + y + z == x + (y + z)
  {
  }

  lemma {:induction false} KeptConcat(a: seq<int>, b: seq<int>, s0: seq<int>)
    ensures Kept(a + b, s0) == Kept(a, s0) + Kept(b, s0)
  {
    if a == [] {
      assert a + b == b;
    } else {
      hide Kept;
      assert (a + b)[1..] == a[1..] + b && (a + b)[..1] == a[..1];
      KeptConcat(a[1..], b, s0);
      KeptStep(a, s0);
      KeptStep(a + b, s0);
      Regroup(Kept(a[..1], s0), Kept(a[1..], s0), Kept(b, s0));
    }
  }

  lemma KeptInsert(g: seq<int>, at: nat, m: int, s0: seq<int>)
    requires at <= |g| && m !in s0
    ensures Kept(g[..at] + [m] + g[at..], s0) == Kept(g, s0)
  {
    hide Kept;
    KeptOne(m, s0);
    var a, b := g[..at], g[at..];
    assert g == a + b;
    KeptConcat(a, [m], s0);
    KeptConcat(a + [m], b, s0);
    KeptConcat(a, b, s0);
    NothingBetween(Kept(a, s0));
  }

  lemma NothingBetween(x: seq<int>)
    ensures x + [] == x
  {
  }

  lemma {:induction false} KeptAll(a: seq<int>, s0: seq<int>)
    requires forall i :: 0 <= i < |a| ==> a[i] in s0
    ensures Kept(a, s0) == a
  {
    if a != [] { KeptAll(a[1..], s0); }
  }

  /** Inclusion leaves the old part of the chain as it was. */
  lemma {:induction false} KeptMerge(w: World, s0: seq<int>, ms: seq<int>, n: nat)
    requires s0 != [] && n <= |ms| && forall i :: 0 <= i < |ms| ==> ms[i] in w.classes && ms[i] !in s0
    ensures Kept(Merge(w, s0, ms, n).0, s0) == s0
  {
    if n == 0 {
      KeptAll(s0, s0);
    } else {
      var (g, at) := Merge(w, s0, ms, n - 1);
      hide Kept;
      KeptMerge(w, s0, ms, n - 1);
      KeptInsert(g, at + 1, ms[n - 1], s0);
    }
  }

  lemma KeptHead(g: seq<int>, s0: seq<int>)
    requires g != [] && g[0] in s0
    ensures Kept(g, s0) != [] && Kept(g, s0)[0] == g[0]
  {
  }

  lemma KeptSuffix(g: seq<int>, s0: seq<int>, j: nat) returns (i: nat)
    requires Kept(g, s0) == s0 && j < |g| && g[j] in s0
    ensures i < |s0| && s0[i] == g[j] && s0[i..] == Kept(g[j..], s0)
  {
    hide Kept;
    var a, b := Kept(g[..j], s0), Kept(g[j..], s0);
    assert g == g[..j] + g[j..];
    KeptConcat(g[..j], g[j..], s0);
    KeptHead(g[j..], s0);
    SecondPart(a, b);
    i := |a|;
  }

  /** From any old place on, the old places are the old chain of the class there. */
  lemma KeptFrom(w: World, klass: int, g: seq<int>, j: nat)
    requires Ok(w) && klass in w.classes && Kept(g, w.chain[klass]) == w.chain[klass]
    requires j < |g| && g[j] in w.chain[klass]
    ensures g[j] in w.classes && Kept(g[j..], w.chain[klass]) == w.chain[g[j]]
  {
    hide Kept, ChainOk;
    var i := KeptSuffix(g, w.chain[klass], j);
    ChainFrom(w, klass, i);
  }

  lemma SecondPart(a: seq<int>, b: seq<int>)
    requires b != []
    ensures (a + b)[|a|] == b[0] && (a + b)[|a|..] == b
  {
  }

  /** Where the first table with the name belongs to an old class, the old lookup finds the same. */
  lemma {:induction false} FindKept(w: World, g: seq<int>, s0: seq<int>, mid: int)
    requires FirstDef(w, g, mid) == |g| || g[FirstDef(w, g, mid)] in s0
    ensures Find(w, Kept(g, s0), mid) == Find(w, g, mid)
  {
    if g != [] && mid !in TableOf(w, g[0]) {
      FindKept(w, g[1..], s0, mid);
      assert Kept(g, s0) == (if g[0] in s0 then [g[0]] else []) + Kept(g[1..], s0);
      FindBehind(w, if g[0] in s0 then [g[0]] else [], Kept(g[1..], s0), mid);
    }
  }

  // ---------- overtaken names ----------

  /** The result of a lookup that finds this entry in a new place differs from was. */
  predicate Differs(m: Method, was: Result) {
    match m.body
    case None => was != Absent
    case Some(FBody(head, mid0, orig)) => was != Hit(orig, mid0, head, m.noex)
    case Some(_) => true
  }

  /**
   * From the old place j of the chain g to be made, the name is in the table of a module newly included,
   * and in none before it; and that is not what a lookup found without that module.
   */
  predicate Overtaken(w0: World, s0: seq<int>, g: seq<int>, j: nat, mid: int) {
    && j < |g| && g[j] in s0
    && var k := j + FirstDef(w0, g[j..], mid);
       k < |g| && g[k] !in s0 && mid in TableOf(w0, g[k]) && Differs(TableOf(w0, g[k])[mid], Lookup(w0, g[j], mid))
  }

  /** Including the first n of the modules ms changes what some lookup finds. */
  ghost predicate SomethingOvertaken(w0: World, klass: int, ms: seq<int>, n: nat)
    requires klass in w0.chain && w0.chain[klass] != [] && n <= |ms|
    requires forall i :: 0 <= i < |ms| ==> ms[i] in w0.classes
  {
    exists j, mid :: mid != 0 && Overtaken(w0, w0.chain[klass], Merge(w0, w0.chain[klass], ms, n).0, j, mid)
  }

  /** What is found is in a class, and names one as its origin. */
  lemma FindKnown(w: World, c: int, mid: int)
    requires Ok(w) && KnownOrigins(w) && c in w.classes
    ensures c in w.chain
    ensures match Find(w, w.chain[c], mid)
            case None => true
            case Some(f) => f.origin in w.classes && OriginOk(w, f.entry)
  {
    var s := w.chain[c];
    FindFirst(w, s, mid);
    var k := FirstDef(w, s, mid);
    if k < |s| {
      ChainFrom(w, c, k);
      assert OriginOk(w, w.tables[w.classes[s[k]].tbl][mid]);
    }
  }

  /** What was foreseen has the tables the chain has. */
  lemma TablesForeseen(w0: World, w: World, s0: seq<int>, s: seq<int>, g: seq<int>)
    requires Realised(w0, w, s0, s, g) && w.tables == w0.tables
    ensures |s| == |g| && forall i :: 0 <= i < |s| ==> TableOf(w, s[i]) == TableOf(w0, g[i])
  {
    forall i | 0 <= i < |s| ensures TableOf(w, s[i]) == TableOf(w0, g[i]) { assert Same(w0, w, s0, s[i], g[i]); }
  }

  lemma FirstDefForeseen(w0: World, w: World, s0: seq<int>, s: seq<int>, g: seq<int>, j: nat, mid: int)
    requires Realised(w0, w, s0, s, g) && w.tables == w0.tables && j <= |s|
    ensures |s| == |g| && FirstDef(w, s[j..], mid) == FirstDef(w0, g[j..], mid)
  {
    TablesForeseen(w0, w, s0, s, g);
    hide Realised, TableOf;
    var k := FirstDef(w0, g[j..], mid);
    assert forall i :: 0 <= i < |s| - j ==> s[j..][i] == s[j + i] && g[j..][i] == g[j + i];
    FirstDefIs(w, s[j..], mid, k);
  }

  lemma OldPlaceChain(w0: World, w: World, klass: int, g: seq<int>, j: nat)
    requires Ok(w) && klass in w.classes && klass in w0.chain && Realised(w0, w, w0.chain[klass], w.chain[klass], g)
    requires j < |g| && g[j] in w0.chain[klass]
    ensures g[j] in w.chain && j < |w.chain[klass]| && w.chain[g[j]] == w.chain[klass][j..]
  {
    assert Same(w0, w, w0.chain[klass], w.chain[klass][j], g[j]);
    ChainFrom(w, klass, j);
  }

  /** From any old place, a lookup changes exactly if the name is overtaken. */
  lemma LookupOvertaken(w0: World, w: World, klass: int, g: seq<int>, j: nat, mid: int)
    requires Ok(w0) && KnownOrigins(w0) && Ok(w) && w.tables == w0.tables && klass in w0.classes && klass in w.classes
    requires Realised(w0, w, w0.chain[klass], w.chain[klass], g) && Kept(g, w0.chain[klass]) == w0.chain[klass]
    requires j < |g| && g[j] in w0.chain[klass]
    ensures Lookup(w, g[j], mid) != Lookup(w0, g[j], mid) <==> Overtaken(w0, w0.chain[klass], g, j, mid)
  {
    var s0, s := w0.chain[klass], w.chain[klass];
    OldPlaceChain(w0, w, klass, g, j);
    KeptFrom(w0, klass, g, j);
    FirstDefForeseen(w0, w, s0, s, g, j, mid);
    TablesForeseen(w0, w, s0, s, g);
    FindFirst(w, s[j..], mid);
    FindFirst(w0, g[j..], mid);
    var d := FirstDef(w0, g[j..], mid);
    var k := j + d;
    if k == |g| {
      FindKept(w0, g[j..], s0, mid);
    } else {
      assert Same(w0, w, s0, s[k], g[k]);
      assert s[j..][d] == s[k] && g[j..][d] == g[k];
      if g[k] in s0 {
        FindKept(w0, g[j..], s0, mid);
      } else {
        NewPlaceDiffers(w0, g[j], s[k], mid, TableOf(w0, g[k])[mid]);
      }
    }
  }

  lemma NewPlaceDiffers(w0: World, c: int, p: int, mid: int, m: Method)
    requires Ok(w0) && KnownOrigins(w0) && c in w0.classes && p !in w0.classes
    ensures ResultOf(Some(Found(p, m)), mid) != Lookup(w0, c, mid) <==> Differs(m, Lookup(w0, c, mid))
  {
    FindKnown(w0, c, mid);
  }

  // ---------- which cache entries go wrong ----------

  lemma MergeKept(w0: World, klass: int, m: int, n: nat)
    requires CanInclude(w0, klass, m) && m in w0.chain && n <= |w0.chain[m]|
    ensures klass in w0.chain && w0.chain[klass] != [] && Ok(w0) && KnownOrigins(w0) && klass in w0.classes
    ensures forall i :: 0 <= i < |w0.chain[m]| ==> w0.chain[m][i] in w0.classes
    ensures Kept(Merge(w0, w0.chain[klass], w0.chain[m], n).0, w0.chain[klass]) == w0.chain[klass]
  {
    ChainHead(w0, klass);
    hide IsModule, ChainOk, OwnLinks, ModulesOk;
    ModuleChain(w0, klass, m);
    forall i | 0 <= i < |w0.chain[m]| ensures w0.chain[m][i] !in w0.chain[klass] { NextModule(w0, klass, m, i); }
    KeptMerge(w0, w0.chain[klass], w0.chain[m], n);
  }

  /** What the result of an inclusion says, and no more. */
  lemma ResultParts(w0: World, w: World, klass: int, ms: seq<int>, n: nat)
    requires IncludeResult(w0, w, klass, ms, n)
    ensures w.tables == w0.tables && SameClasses(w0, w) && OnlyKlass(w0, w, klass)
    ensures Realised(w0, w, w0.chain[klass], w.chain[klass], Merge(w0, w0.chain[klass], ms, n).0)
  {
  }

  lemma {:induction false} KeptIn(g: seq<int>, s0: seq<int>, d: int) returns (j: nat)
    requires d in Kept(g, s0)
    ensures j < |g| && g[j] == d && d in s0
  {
    if g[0] in s0 && d == g[0] {
      j := 0;
    } else {
      var i := KeptIn(g[1..], s0, d);
      j := i + 1;
    }
  }

  lemma SameBehind(w0: World, w: World, pre: seq<int>, s0: seq<int>, s: seq<int>, mid: int)
    requires Find(w, pre, mid) == Find(w0, pre, mid)
    requires ResultOf(Find(w, s, mid), mid) == ResultOf(Find(w0, s0, mid), mid)
    ensures ResultOf(Find(w, pre + s, mid), mid) == ResultOf(Find(w0, pre + s0, mid), mid)
  {
    hide Find, ResultOf;
    FindBehind(w0, pre, s0, mid);
    FindBehind(w, pre, s, mid);
  }

  /** A lookup along a chain through klass that changes, changes for klass. */
  lemma ThroughKlass(w0: World, w: World, klass: int, d: int, i: nat, mid: int)
    requires Ok(w0) && Ok(w) && SameClasses(w0, w) && w.tables == w0.tables && d in w0.classes && klass in w0.classes
    requires i < |w0.chain[d]| && w0.chain[d][i] == klass && d in w.chain && klass in w.chain
    requires w.chain[d] == w0.chain[d][..i] + w.chain[klass] && Lookup(w, d, mid) != Lookup(w0, d, mid)
    ensures Lookup(w, klass, mid) != Lookup(w0, klass, mid)
  {
    hide ChainOk, SameClasses, Find, TableOf, ResultOf;
    var pre := w0.chain[d][..i];
    ChainFrom(w0, d, i);
    assert w0.chain[d] == pre + w0.chain[klass];
    SameAlong(w0, w, d, i);
    FindSameTables(w0, w, pre, mid);
    if Lookup(w, klass, mid) == Lookup(w0, klass, mid) {
      SameBehind(w0, w, pre, w0.chain[klass], w.chain[klass], mid);
    }
  }

  lemma SameAlong(w0: World, w: World, d: int, n: nat)
    requires Ok(w0) && SameClasses(w0, w) && w.tables == w0.tables && d in w0.classes && n <= |w0.chain[d]|
    ensures forall i :: 0 <= i < n ==> TableOf(w, w0.chain[d][..n][i]) == TableOf(w0, w0.chain[d][..n][i])
  {
    forall i | 0 <= i < n ensures TableOf(w, w0.chain[d][..n][i]) == TableOf(w0, w0.chain[d][..n][i]) {
      ChainFrom(w0, d, i);
      SameClass(w0, w, w0.chain[d][i]);
    }
  }

  /** A lookup that changes starts at klass, at an entry of its own, or comes through klass. */
  lemma ChangedComesThrough(w0: World, w: World, klass: int, d: int, mid: int) returns (i: nat)
    requires Ok(w0) && Ok(w) && SameClasses(w0, w) && w.tables == w0.tables && OnlyKlass(w0, w, klass)
    requires d in w0.classes && d !in w0.chain[klass] && klass in w0.classes && Lookup(w, d, mid) != Lookup(w0, d, mid)
    ensures i < |w0.chain[d]| && w0.chain[d][i] == klass && d in w.chain && klass in w.chain
    ensures w.chain[d] == w0.chain[d][..i] + w.chain[klass]
  {
    hide ChainOk, SameClasses;
    assert FollowsKlass(w0, w, klass, d);
    if klass in w0.chain[d] {
      i :| 0 <= i < |w0.chain[d]| && w0.chain[d][i] == klass;
    } else {
      SameAlong(w0, w, d, |w0.chain[d]|);
      assert w0.chain[d][..|w0.chain[d]|] == w0.chain[d];
      FindSameTables(w0, w, w0.chain[d], mid);
      assert false;
    }
  }

  /** Whatever lookup changes, a name has been overtaken in the chain of klass. */
  lemma ChangedIsOvertaken(w0: World, w: World, klass: int, m: int, n: nat, d: int, mid: int) returns (j: nat)
    requires CanInclude(w0, klass, m) && Ok(w) && m in w0.chain && IncludeResult(w0, w, klass, w0.chain[m], n)
    requires d in w0.classes && Lookup(w, d, mid) != Lookup(w0, d, mid) && klass in w0.chain
    ensures Overtaken(w0, w0.chain[klass], Merge(w0, w0.chain[klass], w0.chain[m], n).0, j, mid)
  {
    hide ChainOk, IsModule, Tidy, Realised, OnlyKlass, Merge, Overtaken, Kept;
    ResultParts(w0, w, klass, w0.chain[m], n);
    MergeKept(w0, klass, m, n);
    hide IncludeResult;
    var g := Merge(w0, w0.chain[klass], w0.chain[m], n).0;
    var c := d;
    if d !in w0.chain[klass] {
      var i := ChangedComesThrough(w0, w, klass, d, mid);
      ThroughKlass(w0, w, klass, d, i, mid);
      c := klass;
      ChainHead(w0, klass);
      assert w0.chain[klass][0] == klass;
    }
    j := KeptIn(g, w0.chain[klass], c);
    SameClass(w0, w, klass);
    LookupOvertaken(w0, w, klass, g, j, mid);
  }

  /** A name that is overtaken is found as something else from then on. */
  lemma OvertakenIsChanged(w0: World, w: World, klass: int, m: int, n: nat, j: nat, mid: int) returns (d: int)
    requires CanInclude(w0, klass, m) && Ok(w) && m in w0.chain && IncludeResult(w0, w, klass, w0.chain[m], n)
    requires klass in w0.chain && Overtaken(w0, w0.chain[klass], Merge(w0, w0.chain[klass], w0.chain[m], n).0, j, mid)
    ensures d in w0.classes && Lookup(w, d, mid) != Lookup(w0, d, mid)
  {
    hide ChainOk, IsModule, Tidy, Realised, OnlyKlass, Merge, Kept;
    ResultParts(w0, w, klass, w0.chain[m], n);
    MergeKept(w0, klass, m, n);
    hide IncludeResult;
    var g := Merge(w0, w0.chain[klass], w0.chain[m], n).0;
    d := g[j];
    KeptFrom(w0, klass, g, j);
    SameClass(w0, w, klass);
    LookupOvertaken(w0, w, klass, g, j, mid);
  }

  /**
   * Some cache entry that was right is wrong after an inclusion, or a part of one, if and only if a name
   * is overtaken. That is a condition on the chains and tables before the call.
   */
  lemma StaleIffOvertaken(w0: World, w: World, klass: int, m: int, n: nat)
    requires CanInclude(w0, klass, m) && Ok(w) && m in w0.chain && IncludeResult(w0, w, klass, w0.chain[m], n)
    ensures klass in w0.chain && forall i :: 0 <= i < |w0.chain[m]| ==> w0.chain[m][i] in w0.classes
    ensures (exists e :: EntryOk(w0, e) && !EntryOk(w, e)) <==> SomethingOvertaken(w0, klass, w0.chain[m], n)
  {
    hide ChainOk, IsModule, Tidy, Merge, Overtaken, Ok;
    ResultParts(w0, w, klass, w0.chain[m], n);
    hide IncludeResult;
    if e :| EntryOk(w0, e) && !EntryOk(w, e) {
      SameClass(w0, w, e.klass);
      var j := ChangedIsOvertaken(w0, w, klass, m, n, e.klass, e.mid);
      assert SomethingOvertaken(w0, klass, w0.chain[m], n);
    }
    if SomethingOvertaken(w0, klass, w0.chain[m], n) {
      var j, mid :| mid != 0 && Overtaken(w0, w0.chain[klass], Merge(w0, w0.chain[klass], w0.chain[m], n).0, j, mid);
      var d := OvertakenIsChanged(w0, w, klass, m, n, j, mid);
      var e := EntryFor(Lookup(w0, d, mid), d, mid);
      assert EntryOk(w0, e) && !EntryOk(w, e);
    }
  }

  /** The entry rb_get_method_body stores for a result. */
  function EntryFor(r: Result, c: int, mid: int): (e: Entry)
    ensures e.mid == mid && e.klass == c && EntryResult(e) == r
  {
    match r
    case Absent => Entry(mid, mid, c, c, None, 0)
    case Hit(origin, mid0, body, noex) => Entry(mid, mid0, c, origin, Some(body), noex)
  }

  /** When nothing is overtaken, a cache that was right is still right. */
  lemma NothingOvertaken(w0: World, w: World, klass: int, m: int, n: nat, cache: seq<Entry>)
    requires CanInclude(w0, klass, m) && Ok(w) && m in w0.chain && IncludeResult(w0, w, klass, w0.chain[m], n)
    requires Coherent(w0, cache) && !SomethingOvertaken(w0, klass, w0.chain[m], n)
    ensures Coherent(w, cache)
  {
    StaleIffOvertaken(w0, w, klass, m, n);
    hide CanInclude, IncludeResult, SomethingOvertaken, EntryOk, Ok;
  }
}
