/** What a method name means, told from chains and tables alone, and what a definition makes of it. */
module MethodMeaning {
  import opened MethodTable
  import opened SuperChains
  import opened ClassTree
  import opened StaleCache

  /** The method table of d has an entry for the name. */
  predicate Names(w: World, d: int, mid: int) {
    d in w.classes && w.classes[d].tbl in w.tables && mid in w.tables[w.classes[d].tbl]
  }

  /** The first class of a chain whose table has the name is in place k. */
  predicate FirstNames(w: World, s: seq<int>, mid: int, k: int) {
    0 <= k < |s| && Names(w, s[k], mid) && forall j :: 0 <= j < k ==> !Names(w, s[j], mid)
  }

  /**
   * The first entry along the chain decides: without a body there is no method. An alias has the body, the
   * name and the origin it keeps, any other method its own, and both have the visibility of the entry.
   */
  lemma FoundFirst(w: World, c: int, mid: int, k: int)
    requires Ok(w) && c in w.classes && c in w.chain && FirstNames(w, w.chain[c], mid, k)
    ensures Lookup(w, c, mid)
         == var m := w.tables[w.classes[w.chain[c][k]].tbl][mid];
            match m.body
            case None => Absent
            case Some(FBody(head, mid0, orig)) => Hit(orig, mid0, head, m.noex)
            case Some(CFunc(f)) => Hit(w.chain[c][k], mid, CFunc(f), m.noex)
            case Some(ZSuper) => Hit(w.chain[c][k], mid, ZSuper, m.noex)
            case Some(Other(n)) => Hit(w.chain[c][k], mid, Other(n), m.noex)
  {
    var s := w.chain[c];
    FindFirst(w, s, mid);
    forall j | 0 <= j < k ensures mid !in TableOf(w, s[j]) { assert !Names(w, s[j], mid); }
    FirstDefIs(w, s, mid, k);
  }

  /** There is no method exactly if no table along the chain has the name, or the first entry has no body. */
  lemma AbsentIff(w: World, c: int, mid: int)
    requires Ok(w) && c in w.classes && c in w.chain
    ensures Lookup(w, c, mid) == Absent <==>
              || (forall k :: 0 <= k < |w.chain[c]| ==> !Names(w, w.chain[c][k], mid))
              || (exists k :: FirstNames(w, w.chain[c], mid, k)
                              && w.tables[w.classes[w.chain[c][k]].tbl][mid].body.None?)
  {
    var s := w.chain[c];
    var k := FirstDef(w, s, mid);
    forall j | 0 <= j < |s| ensures Names(w, s[j], mid) <==> mid in TableOf(w, s[j]) {}
    FindFirst(w, s, mid);
    if k < |s| {
      assert FirstNames(w, s, mid, k);
      FoundFirst(w, c, mid, k);
      forall j | FirstNames(w, s, mid, j) ensures j == k {}
    } else {
      forall j | 0 <= j < |s| ensures !Names(w, s[j], mid) {}
    }
  }

  // ---------- definitions ----------

  /** Whoever has the entry in its own table finds it. */
  lemma OwnEntryFound(x: World, c: int, mid: int, m: Method)
    requires Ok(x) && c in x.classes && Names(x, c, mid) && x.tables[x.classes[c].tbl][mid] == m
    ensures Lookup(x, c, mid) == match m.body {
                                   case None => Absent
                                   case Some(body) => if body.FBody? then Hit(body.orig, body.mid, body.head, m.noex)
                                                      else Hit(c, mid, body, m.noex) }
  {
    ChainHead(x, c);
    assert FirstNames(x, x.chain[c], mid, 0);
    FoundFirst(x, c, mid, 0);
  }

  /** The class d has its first entry for the name, if any, behind the table of klass, which is in place k. */
  predicate ComesTo(w: World, klass: int, mid: int, d: int, k: nat) {
    && klass in w.classes && d in w.chain && k < |w.chain[d]| && w.chain[d][k] in w.classes
    && w.classes[w.chain[d][k]].tbl == w.classes[klass].tbl
    && forall j :: 0 <= j < k ==>
         && w.chain[d][j] in w.classes && w.classes[w.chain[d][j]].tbl != w.classes[klass].tbl
         && !Names(w, w.chain[d][j], mid)
  }

  /** After a definition in klass, every class that comes to its table before another entry finds just that. */
  lemma DefinedIsFound(w: World, klass: int, mid: int, m: Method, d: int, k: nat)
    requires Ok(w) && d in w.classes && ComesTo(w, klass, mid, d, k)
    ensures Lookup(WithMethod(w, klass, mid, m), d, mid)
         == match m.body {
              case None => Absent
              case Some(body) => if body.FBody? then Hit(body.orig, body.mid, body.head, m.noex)
                                 else Hit(w.chain[d][k], mid, body, m.noex) }
  {
    hide Ok, Lookup;
    WithMethodOk(w, klass, mid, m);
    FirstAfter(w, klass, mid, m, d, k);
    FoundFirst(WithMethod(w, klass, mid, m), d, mid, k);
  }

  lemma FirstAfter(w: World, klass: int, mid: int, m: Method, d: int, k: nat)
    requires Ok(w) && ComesTo(w, klass, mid, d, k)
    ensures var x := WithMethod(w, klass, mid, m);
            FirstNames(x, w.chain[d], mid, k) && x.tables[w.classes[w.chain[d][k]].tbl][mid] == m
  {
    hide Ok;
    var x, s := WithMethod(w, klass, mid, m), w.chain[d];
    forall j | 0 <= j < k ensures !Names(x, s[j], mid) { assert !Names(w, s[j], mid); }
  }

  /** And a class that has another entry before it, or that table not at all, finds what it found. */
  lemma DefinedBehind(w: World, klass: int, mid: int, m: Method, d: int)
    requires Ok(w) && klass in w.classes && d in w.classes && d in w.chain
    requires forall j :: 0 <= j < |w.chain[d]| && w.chain[d][j] in w.classes
                         && w.classes[w.chain[d][j]].tbl == w.classes[klass].tbl ==>
                           exists i :: 0 <= i < j && Names(w, w.chain[d][i], mid)
    ensures Lookup(WithMethod(w, klass, mid, m), d, mid) == Lookup(w, d, mid)
  {
    var x, s := WithMethod(w, klass, mid, m), w.chain[d];
    var k := FirstDef(w, s, mid);
    FindFirst(w, s, mid);
    forall j | 0 <= j < |s| && j <= k ensures TableOf(x, s[j]) == TableOf(w, s[j]) {
      ChainFrom(w, d, j);
      assert w.classes[s[j]].tbl != w.classes[klass].tbl;
    }
    FirstDefIs(x, s, mid, k);
    FindFirst(x, s, mid);
  }

  lemma WithMethodOk(w: World, klass: int, mid: int, m: Method)
    requires Ok(w) && klass in w.classes
    ensures Ok(WithMethod(w, klass, mid, m))
  {
    forall c | c in w.classes ensures ChainOk(WithMethod(w, klass, mid, m), c) { assert ChainOk(w, c); }
  }
}
