/** Chains of classes along super links, and new entries in them. */
module SuperChains {
  import opened MethodTable

  /** From any place on, a chain is the chain of the class there. */
  lemma {:induction false} ChainFrom(w: World, c: int, i: nat)
    requires Ok(w) && c in w.classes && i < |w.chain[c]|
    ensures w.chain[c][i] in w.classes && w.chain[c][i..] == w.chain[w.chain[c][i]] && w.chain[c][0] == c
    decreases i
  {
    assert ChainOk(w, c);
    if i > 0 {
      var q := w.classes[c].super;
      ChainFrom(w, q, i - 1);
      assert w.chain[c][i..] == w.chain[q][i - 1..];
    } else {
      assert w.chain[c][0..] == w.chain[c];
    }
  }

  lemma ChainHead(w: World, c: int)
    requires Ok(w) && c in w.classes
    ensures c in w.chain && w.chain[c] != [] && w.chain[c][0] == c
  {
    assert ChainOk(w, c);
  }

  /** No class comes twice in a chain. */
  lemma ChainDistinct(w: World, c: int, i: nat, j: nat)
    requires Ok(w) && c in w.classes && i < j < |w.chain[c]|
    ensures w.chain[c][i] != w.chain[c][j]
  {
    ChainFrom(w, c, i);
    ChainFrom(w, c, j);
  }

  function InsertAfter(s: seq<int>, c: int, n: int): seq<int> {
    if s == [] then [] else if s[0] == c then [c, n] + s[1..] else [s[0]] + InsertAfter(s[1..], c, n)
  }

  lemma {:induction false} InsertAfterAbsent(s: seq<int>, c: int, n: int)
    requires c !in s
    ensures InsertAfter(s, c, n) == s
  {
    if s != [] { InsertAfterAbsent(s[1..], c, n); }
  }

  lemma {:induction false} InsertAfterAt(s: seq<int>, i: nat, n: int)
    requires i < |s| && forall j :: 0 <= j < i ==> s[j] != s[i]
    ensures InsertAfter(s, s[i], n) == s[..i + 1] + [n] + s[i + 1..]
  {
    if i > 0 {
      InsertAfterAt(s[1..], i - 1, n);
      assert s[..i + 1] == [s[0]] + s[1..][..i];
      assert [s[0]] + (s[1..][..i] + [n] + s[1..][i..]) == s[..i + 1] + [n] + s[i + 1..];
    } else {
      assert s[..1] == [s[0]];
    }
  }

  /** include_class_new, put behind c: a new entry n with table tbl. */
  function Linked(w: World, c: int, n: int, tbl: int): World
    requires c in w.classes
  {
    World(w.classes[n := RClass(IClass, tbl, w.classes[c].super, false, false)][c := w.classes[c].(super := n)],
          w.tables,
          (map d | d in w.chain :: InsertAfter(w.chain[d], c, n))
            [n := [n] + if w.classes[c].super in w.chain then w.chain[w.classes[c].super] else []])
  }

  lemma LinkedOk(w: World, c: int, n: int, tbl: int)
    requires Ok(w) && c in w.classes && n !in w.classes && n != 0 && tbl in w.tables
    ensures Ok(Linked(w, c, n, tbl))
  {
    var x := Linked(w, c, n, tbl);
    forall d | d in x.classes ensures ChainOk(x, d) {
      if d == n || d == c { LinkedHere(w, c, n, tbl); } else { LinkedElsewhere(w, c, n, tbl, d); }
    }
  }

  lemma LinkedElsewhere(w: World, c: int, n: int, tbl: int, d: int)
    requires Ok(w) && c in w.classes && n !in w.classes && d in w.classes && d != c
    ensures ChainOk(Linked(w, c, n, tbl), d)
  {
    assert ChainOk(w, d) && w.chain[d][0] == d;
    assert InsertAfter(w.chain[d], c, n) == [d] + InsertAfter(w.chain[d][1..], c, n);
    if w.classes[d].super != 0 { assert w.chain[d][1..] == w.chain[w.classes[d].super]; }
  }

  lemma LinkedHere(w: World, c: int, n: int, tbl: int)
    requires Ok(w) && c in w.classes && n !in w.classes && n != 0 && tbl in w.tables
    ensures ChainOk(Linked(w, c, n, tbl), c) && ChainOk(Linked(w, c, n, tbl), n)
  {
    var x, q, rest := Linked(w, c, n, tbl), w.classes[c].super, w.chain[c][1..];
    LinkedFields(w, c, n, tbl);
    BehindInserted(w, c, n);
    hide Linked;
    assert ChainOk(w, c);
    assert x.chain[c] == [c] + x.chain[n];
    assert q != 0 ==> x.chain[n] == [n] + x.chain[q];
  }

  lemma LinkedFields(w: World, c: int, n: int, tbl: int)
    requires Ok(w) && c in w.classes && n !in w.classes && tbl in w.tables
    ensures var x, q := Linked(w, c, n, tbl), w.classes[c].super;
            && x.tables == w.tables && n in x.chain && n in x.classes && c in x.classes && c in x.chain
            && x.classes[n].super == q && x.classes[n].tbl == tbl && x.classes[n].kind == IClass
            && x.classes[c] == w.classes[c].(super := n) && x.chain[c] == InsertAfter(w.chain[c], c, n)
            && x.chain[n] == [n] + w.chain[c][1..]
            && (q != 0 ==> q in x.classes && q in x.chain && x.chain[q] == InsertAfter(w.chain[q], c, n))
            && (forall d :: d in w.classes && d != c ==> d in x.classes && x.classes[d] == w.classes[d])
  {
    assert ChainOk(w, c);
  }

  lemma BehindInserted(w: World, c: int, n: int)
    requires Ok(w) && c in w.classes
    ensures InsertAfter(w.chain[c], c, n) == [c] + ([n] + w.chain[c][1..]) && w.chain[c][0] == c
    ensures w.classes[c].super == 0 ==> w.chain[c][1..] == []
    ensures var q := w.classes[c].super;
            q != 0 ==> q in w.classes && w.chain[c][1..] == w.chain[q] && InsertAfter(w.chain[q], c, n) == w.chain[q]
  {
    hide InsertAfter;
    var s, q := w.chain[c], w.classes[c].super;
    assert ChainOk(w, c);
    InsertAfterAt(s, 0, n);
    assert s[..1] + [n] + s[1..] == [c] + ([n] + s[1..]);
    if q != 0 {
      assert c !in w.chain[q] by {
        forall i | 0 <= i < |w.chain[q]| ensures w.chain[q][i] != c { ChainDistinct(w, c, 0, i + 1); }
      }
      InsertAfterAbsent(w.chain[q], c, n);
    }
  }

  /** Chains that c is not in stay; in the others the new entry follows c. */
  lemma LinkedChain(w: World, c: int, n: int, tbl: int, d: int)
    requires Ok(w) && c in w.classes && n !in w.classes && d in w.classes
    ensures c !in w.chain[d] ==> Linked(w, c, n, tbl).chain[d] == w.chain[d]
    ensures forall i :: 0 <= i < |w.chain[d]| && w.chain[d][i] == c ==>
              Linked(w, c, n, tbl).chain[d] == w.chain[d][..i + 1] + [n] + w.chain[d][i + 1..]
  {
    if c !in w.chain[d] { InsertAfterAbsent(w.chain[d], c, n); }
    forall i | 0 <= i < |w.chain[d]| && w.chain[d][i] == c
      ensures Linked(w, c, n, tbl).chain[d] == w.chain[d][..i + 1] + [n] + w.chain[d][i + 1..]
    {
      forall j | 0 <= j < i ensures w.chain[d][j] != c { ChainDistinct(w, d, j, i); }
      InsertAfterAt(w.chain[d], i, n);
    }
  }

  // ---------- what is in a chain ----------

  predicate IsEntry(w: World, p: int, tbl: int) {
    p in w.classes && w.classes[p].kind.IClass? && w.classes[p].tbl == tbl
  }

  /** The module with this table is included: the chain has an entry for it behind its head. */
  ghost predicate Included(w: World, s: seq<int>, tbl: int) {
    exists i :: 1 <= i < |s| && IsEntry(w, s[i], tbl)
  }

  /** The number of leading classes of a chain that come before its first superclass. */
  function OwnPart(w: World, s: seq<int>, i: nat): (k: nat)
    requires 1 <= i <= |s|
    ensures i <= k <= |s| && (k < |s| ==> s[k] in w.classes && w.classes[s[k]].kind.Class?)
    ensures forall j :: i <= j < k ==> !(s[j] in w.classes && w.classes[s[j]].kind.Class?)
    decreases |s| - i
  {
    if i == |s| || (s[i] in w.classes && w.classes[s[i]].kind.Class?) then i else OwnPart(w, s, i + 1)
  }

  /** The place at lies before the first superclass of a chain. */
  ghost predicate InOwnPart(w: World, s: seq<int>, at: nat) {
    at < |s| && forall j :: 1 <= j <= at ==> s[j] in w.classes && !w.classes[s[j]].kind.Class?
  }

  /** s is t with some elements left out. */
  predicate Subsequence(s: seq<int>, t: seq<int>)
    decreases |t|
  {
    s == [] || (t != [] && (if s[0] == t[0] then Subsequence(s[1..], t[1..]) else Subsequence(s, t[1..])))
  }

  lemma {:induction false} SubsequenceOfItself(s: seq<int>)
    ensures Subsequence(s, s)
  {
    if s != [] { SubsequenceOfItself(s[1..]); }
  }

  lemma {:induction false} SubsequenceInsert(s: seq<int>, t: seq<int>, i: nat, n: int)
    requires Subsequence(s, t) && i <= |t| && n !in s
    ensures Subsequence(s, t[..i] + [n] + t[i..])
    decreases |t|
  {
    var u := t[..i] + [n] + t[i..];
    if s != [] {
      if i == 0 {
        assert u[0] == n && u[1..] == t;
      } else {
        assert u[0] == t[0] && u[1..] == t[1..][..i - 1] + [n] + t[1..][i - 1..];
        if s[0] == t[0] {
          SubsequenceInsert(s[1..], t[1..], i - 1, n);
        } else {
          SubsequenceInsert(s, t[1..], i - 1, n);
        }
      }
    }
  }

  lemma BehindPlace(s: seq<int>, at: nat, x: int, k: nat)
    requires at < k <= |s|
    ensures (s[..at + 1] + [x] + s[at + 1..])[k + 1..] == s[k..] && (s[..at + 1] + [x] + s[at + 1..])[at + 1] == x
  {
  }

  lemma OldPlace(s: seq<int>, at: nat, x: int, i: nat)
    requires at < |s| && i <= |s|
    ensures (s[..at + 1] + [x] + s[at + 1..])[i] == if i <= at then s[i] else if i == at + 1 then x else s[i - 1]
  {
  }
}
