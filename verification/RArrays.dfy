/** Memory with copy-on-write arrays, and why operations on one array leave the others alone. */
module RArrays {

  datatype Value = Nil | Other(id: int) | Array(id: int)

  /** The union aux, with the flag ELTS_SHARED that tells its cases apart. */
  datatype Aux = Capa(capa: nat) | Shared(root: int)

  /** struct RArray: len elements from ptr on, the place off in a block of memory. */
  datatype RArray = RArray(block: int, off: nat, len: nat, aux: Aux, frozen: bool)

  /**
   * All arrays by identity, and what malloc gave out and free did not take back. users are the arrays
   * a program knows; the others are roots of shared blocks. owner tells who may write to, move or free
   * a block.
   */
  datatype Heap = Heap(blocks: map<int, seq<Value>>, arrays: map<int, RArray>, users: set<int>, owner: map<int, int>)

  // ---------- what the operations mean for the elements ----------

  function Nils(n: nat): (s: seq<Value>)
    ensures |s| == n && forall i :: 0 <= i < n ==> s[i] == Nil
  {
    seq(n, _ => Nil)
  }

  /** a[idx] = val; the gap between the old end and idx is filled with nil. */
  function Stored(s: seq<Value>, idx: nat, val: Value): seq<Value> {
    if idx < |s| then s[idx := val] else s + Nils(idx - |s|) + [val]
  }

  /** a[beg, len] = r; the gap between the old end and beg is filled with nil. */
  function Spliced(s: seq<Value>, beg: nat, len: nat, r: seq<Value>): seq<Value> {
    if beg >= |s| then s + Nils(beg - |s|) + r
    else s[..beg] + r + s[if beg + len > |s| then |s| else beg + len..]
  }

  /** Element by element: val at idx, nil in the gap, and everything else as it was. */
  lemma StoredElements(s: seq<Value>, idx: nat, val: Value)
    ensures |Stored(s, idx, val)| == if idx < |s| then |s| else idx + 1
    ensures Stored(s, idx, val)[idx] == val
    ensures forall i :: 0 <= i < |s| && i != idx ==> Stored(s, idx, val)[i] == s[i]
    ensures forall i :: |s| <= i < idx ==> Stored(s, idx, val)[i] == Nil
  {
    if idx >= |s| {
      var t := s + Nils(idx - |s|);
      forall i | |s| <= i < idx ensures t[i] == Nil { assert t[i] == Nils(idx - |s|)[i - |s|]; }
      assert Stored(s, idx, val) == t + [val];
    }
  }

  /**
   * Element by element: what is before beg, with nil in the gap, then the replacement, and then what is
   * behind the elements replaced, of which there are fewer than len at the end.
   */
  lemma SplicedElements(s: seq<Value>, beg: nat, len: nat, r: seq<Value>)
    ensures beg < |s| && beg + len < |s| ==> |Spliced(s, beg, len, r)| == |s| + |r| - len
    ensures beg < |s| <= beg + len || |s| <= beg ==> |Spliced(s, beg, len, r)| == beg + |r|
    ensures forall i :: 0 <= i < beg ==> Spliced(s, beg, len, r)[i] == if i < |s| then s[i] else Nil
    ensures forall i :: 0 <= i < |r| ==> Spliced(s, beg, len, r)[beg + i] == r[i]
    ensures forall i :: beg + len <= i < |s| ==>
              i - len + |r| < |Spliced(s, beg, len, r)| && Spliced(s, beg, len, r)[i - len + |r|] == s[i]
  {
    if beg >= |s| {
      SplicedAfter(s, beg, r);
    } else if beg + len >= |s| {
      SplicedWithin(s, beg, |s|, r);
    } else {
      assert Spliced(s, beg, len, r) == s[..beg] + r + s[beg + len..];
      hide Spliced;
      SplicedWithin(s, beg, beg + len, r);
    }
  }

  lemma SplicedAfter(s: seq<Value>, beg: nat, r: seq<Value>)
    requires |s| <= beg
    ensures var u := s + Nils(beg - |s|) + r;
            && |u| == beg + |r| && (forall i :: 0 <= i < beg ==> u[i] == if i < |s| then s[i] else Nil)
            && (forall i :: 0 <= i < |r| ==> u[beg + i] == r[i])
  {
    var t := s + Nils(beg - |s|);
    forall i | |s| <= i < beg ensures t[i] == Nil { assert t[i] == Nils(beg - |s|)[i - |s|]; }
  }

  lemma SplicedWithin(s: seq<Value>, beg: nat, e: nat, r: seq<Value>)
    requires beg <= e <= |s|
    ensures var u := s[..beg] + r + s[e..];
            && |u| == |s| + |r| - (e - beg) && (forall i :: 0 <= i < beg ==> u[i] == s[i])
            && (forall i :: 0 <= i < |r| ==> u[beg + i] == r[i])
            && (forall i :: e <= i < |s| ==> u[i - (e - beg) + |r|] == s[i])
  {
    var t := s[..beg] + r;
    forall i | e <= i < |s| ensures (t + s[e..])[i - (e - beg) + |r|] == s[i] {
      assert (t + s[e..])[i - (e - beg) + |r|] == s[e..][i - e];
    }
  }

  // ---------- the invariant ----------

  predicate Inside(h: Heap, a: int) {
    && a in h.arrays && h.arrays[a].block in h.blocks
    && h.arrays[a].off + h.arrays[a].len <= |h.blocks[h.arrays[a].block]|
  }

  function Contents(h: Heap, a: int): seq<Value>
    requires Inside(h, a)
  {
    h.blocks[h.arrays[a].block][h.arrays[a].off..h.arrays[a].off + h.arrays[a].len]
  }

  /** The array has its block alone. */
  predicate Alone(h: Heap, a: int) {
    && Inside(h, a) && h.arrays[a].block in h.owner
    && h.arrays[a].aux.Capa? && h.owner[h.arrays[a].block] == a && h.arrays[a].off == 0
    && h.arrays[a].aux.capa == |h.blocks[h.arrays[a].block]|
  }

  /** The array looks into the block of a frozen root that no program knows. */
  predicate Looking(h: Heap, a: int) {
    && Inside(h, a) && h.arrays[a].block in h.owner && h.arrays[a].aux.Shared?
    && var root := h.arrays[a].aux.root;
       h.owner[h.arrays[a].block] == root && root !in h.users && Alone(h, root) && h.arrays[root].frozen
       && h.arrays[root].block == h.arrays[a].block
  }

  predicate Ok(h: Heap) {
    && (forall a :: a in h.users ==> a in h.arrays)
    && (forall a :: a in h.arrays ==> Alone(h, a) || Looking(h, a))
  }

  /** The elements of every array of the program. */
  ghost function View(h: Heap): map<int, seq<Value>>
    requires Ok(h)
  {
    map a | a in h.users :: (assert Alone(h, a) || Looking(h, a); Contents(h, a))
  }

  ghost function FrozenOnes(h: Heap): set<int> {
    set a | a in h.arrays && h.arrays[a].frozen
  }

  lemma FrozenAsBefore(h: Heap, k: Heap)
    requires k.arrays.Keys == h.arrays.Keys && forall a :: a in h.arrays ==> k.arrays[a].frozen == h.arrays[a].frozen
    ensures FrozenOnes(k) == FrozenOnes(h)
  {
    forall a ensures a in FrozenOnes(k) <==> a in FrozenOnes(h) {
      assert a in k.arrays.Keys <==> a in h.arrays.Keys;
    }
  }

  /** The frozen ones among the arrays of the program. */
  ghost function FrozenUsers(h: Heap): set<int> {
    h.users * FrozenOnes(h)
  }

  lemma UsersAsBefore(h: Heap, k: Heap)
    requires Ok(h) && k.users == h.users
    requires forall a :: a in h.users ==> a in k.arrays && (a in h.arrays ==> k.arrays[a].frozen == h.arrays[a].frozen)
    ensures FrozenUsers(k) == FrozenUsers(h)
  {
    forall a ensures a in FrozenUsers(k) <==> a in FrozenUsers(h) {
      assert a in h.users ==> a in h.arrays;
    }
  }

  lemma OneMoreUser(h: Heap, k: Heap, a: int)
    requires Ok(h) && a !in h.arrays && k.users == h.users + {a} && k.arrays.Keys == h.arrays.Keys + {a}
    requires !k.arrays[a].frozen && forall b :: b in h.arrays ==> k.arrays[b] == h.arrays[b]
    ensures FrozenUsers(k) == FrozenUsers(h)
  {
    forall b ensures b in FrozenUsers(k) <==> b in FrozenUsers(h) {
      assert b in h.users ==> b in h.arrays;
    }
  }

  lemma OneMoreFrozen(h: Heap, k: Heap, a: int)
    requires a in h.users && a in h.arrays && k.users == h.users
    requires k.arrays == h.arrays[a := h.arrays[a].(frozen := true)]
    ensures FrozenUsers(k) == FrozenUsers(h) + {a}
  {
  }

  // ---------- isolation ----------

  /** From h to k, an operation on a changed no other array and no block that was not its own. */
  ghost predicate OnlyOwn(h: Heap, k: Heap, a: int) {
    && k.users == h.users && k.arrays.Keys == h.arrays.Keys
    && (forall b :: b in h.arrays && b != a ==> k.arrays[b] == h.arrays[b])
    && (forall p :: p in h.blocks && p in h.owner && h.owner[p] != a ==>
          p in k.blocks && p in k.owner && k.owner[p] == h.owner[p] && k.blocks[p] == h.blocks[p])
  }

  /** Whoever changes only itself and blocks of its own changes no other array of the program. */
  lemma Isolation(h: Heap, k: Heap, a: int)
    requires Ok(h) && a in h.users && OnlyOwn(h, k, a) && Alone(k, a)
    ensures Ok(k) && View(k) == View(h)[a := Contents(k, a)]
  {
    forall b | b in k.arrays ensures Alone(k, b) || Looking(k, b) {
      assert Alone(h, b) || Looking(h, b);
    }
    forall b | b in k.users && b != a ensures Contents(k, b) == Contents(h, b) {
      assert Alone(h, b) || Looking(h, b);
    }
  }

  /** The array changes its own description only: it goes on looking into a shared block. */
  lemma StillLooking(h: Heap, k: Heap, a: int)
    requires Ok(h) && a in h.users && OnlyOwn(h, k, a) && Looking(k, a)
    ensures Ok(k) && View(k) == View(h)[a := Contents(k, a)]
  {
    forall b | b in k.arrays ensures Alone(k, b) || Looking(k, b) {
      assert Alone(h, b) || Looking(h, b);
    }
    forall b | b in k.users && b != a ensures Contents(k, b) == Contents(h, b) {
      assert Alone(h, b) || Looking(h, b);
    }
  }

  /** An array that had its block alone hands it over to a new frozen root and looks into it from now on. */
  lemma HandedOver(h: Heap, k: Heap, a: int, root: int)
    requires Ok(h) && a in h.users && h.arrays[a].aux.Capa? && root !in h.arrays
    requires var r := h.arrays[a];
             k == Heap(h.blocks, h.arrays[root := r.(frozen := true)][a := r.(aux := Shared(root))], h.users,
                       h.owner[r.block := root])
    ensures Ok(k) && View(k) == View(h) && Looking(k, a)
    ensures FrozenUsers(k) == FrozenUsers(h)
  {
    UsersAsBefore(h, k);
    assert Alone(h, a) || Looking(h, a);
    forall b | b in k.arrays ensures Alone(k, b) || Looking(k, b) {
      if b != root && b != a { assert Alone(h, b) || Looking(h, b); }
    }
    forall b | b in k.users ensures Contents(k, b) == Contents(h, b) {
      assert Alone(h, b) || Looking(h, b);
    }
  }

  /** The array moves to a new block of its own; its old block, if it was alone in it, may be freed. */
  lemma Relocated(h: Heap, k: Heap, a: int, p: int, b: seq<Value>)
    requires Ok(h) && a in h.users && p !in h.blocks && Inside(h, a)
    requires var r := h.arrays[a];
             && r.len <= |b| && b[..r.len] == Contents(h, a) && k.users == h.users && k.owner == h.owner[p := a]
             && k.arrays == h.arrays[a := RArray(p, 0, r.len, Capa(|b|), r.frozen)]
             && if r.aux.Shared? then k.blocks == h.blocks[p := b] else k.blocks == h.blocks[p := b] - {r.block}
    ensures Ok(k) && View(k) == View(h) && Alone(k, a) && Contents(k, a) == Contents(h, a)
    ensures FrozenOnes(k) == FrozenOnes(h) && FrozenUsers(k) == FrozenUsers(h)
  {
    FrozenAsBefore(h, k);
    assert Alone(h, a) || Looking(h, a);
    assert Alone(k, a) && OnlyOwn(h, k, a);
    SameView(h, k, a);
  }

  lemma SameView(h: Heap, k: Heap, a: int)
    requires Ok(h) && a in h.users && OnlyOwn(h, k, a) && Alone(k, a) && Inside(h, a)
    requires Contents(k, a) == Contents(h, a)
    ensures Ok(k) && View(k) == View(h)
  {
    Isolation(h, k, a);
  }

  /** From h to k, the array a wrote to its own block, which is b now, and takes up n elements of it. */
  ghost predicate Rewrites(h: Heap, k: Heap, a: int, b: seq<Value>, n: nat) {
    && Ok(h) && a in h.users && Alone(h, a)
    && var r := h.arrays[a];
       && n <= |b| == |h.blocks[r.block]|
       && k == Heap(h.blocks[r.block := b], h.arrays[a := r.(len := n)], h.users, h.owner)
  }

  lemma RewritesNothing(h: Heap, a: int)
    requires Ok(h) && a in h.users && Alone(h, a)
    ensures Rewrites(h, h, a, h.blocks[h.arrays[a].block], h.arrays[a].len)
  {
    assert h.blocks[h.arrays[a].block := h.blocks[h.arrays[a].block]] == h.blocks;
    assert h.arrays[a := h.arrays[a]] == h.arrays;
  }

  /** One more write to the block. */
  lemma RewritesMore(h: Heap, k: Heap, a: int, b: seq<Value>, n: nat, c: seq<Value>, l: Heap)
    requires Rewrites(h, k, a, b, n) && |c| == |b|
    requires l.arrays == k.arrays && l.users == k.users && l.owner == k.owner
    requires l.blocks == k.blocks[h.arrays[a].block := c]
    ensures Rewrites(h, l, a, c, n)
  {
    assert h.blocks[h.arrays[a].block := b][h.arrays[a].block := c] == h.blocks[h.arrays[a].block := c];
  }

  /** Another length. */
  lemma RewritesLen(h: Heap, k: Heap, a: int, b: seq<Value>, n: nat, m: nat, l: Heap)
    requires Rewrites(h, k, a, b, n) && m <= |b|
    requires l.blocks == k.blocks && l.users == k.users && l.owner == k.owner
    requires l.arrays == k.arrays[a := h.arrays[a].(len := m)]
    ensures Rewrites(h, l, a, b, m)
  {
    assert h.arrays[a := h.arrays[a].(len := n)][a := h.arrays[a].(len := m)] == h.arrays[a := h.arrays[a].(len := m)];
  }

  /** What is where after writes to the block. */
  lemma RewritesFacts(h: Heap, k: Heap, a: int, b: seq<Value>, n: nat)
    requires Rewrites(h, k, a, b, n)
    ensures a in h.arrays && k.arrays.Keys == h.arrays.Keys && k.users == h.users && k.owner == h.owner
    ensures h.arrays[a].block in h.blocks && n <= |b| == |h.blocks[h.arrays[a].block]|
    ensures k.arrays[a] == h.arrays[a].(len := n) && h.arrays[a].block in k.blocks && k.blocks[h.arrays[a].block] == b
  {
  }

  lemma RewritesUsers(h: Heap, k: Heap, a: int, b: seq<Value>, n: nat)
    requires Rewrites(h, k, a, b, n)
    ensures FrozenUsers(k) == FrozenUsers(h)
  {
    UsersAsBefore(h, k);
  }

  /** Writes to its own block change the elements of the array and nothing else. */
  lemma Written(h: Heap, k: Heap, a: int, b: seq<Value>, n: nat)
    requires Rewrites(h, k, a, b, n)
    ensures Ok(k) && View(k) == View(h)[a := b[..n]] && Alone(k, a)
  {
    Isolation(h, k, a);
  }

  /** From h to k, the array a was made, and no other array or block changed. */
  ghost predicate OnlyNew(h: Heap, k: Heap, a: int) {
    && a !in h.arrays && k.users == h.users + {a} && k.arrays.Keys == h.arrays.Keys + {a}
    && (forall b :: b in h.arrays ==> k.arrays[b] == h.arrays[b])
    && (forall p :: p in h.blocks && p in h.owner ==>
          p in k.blocks && p in k.owner && k.owner[p] == h.owner[p] && k.blocks[p] == h.blocks[p])
  }

  lemma NewLeavesOthers(h: Heap, k: Heap, a: int, b: int)
    requires Ok(h) && OnlyNew(h, k, a) && b in h.arrays
    ensures (Alone(k, b) || Looking(k, b)) && Inside(k, b) && Inside(h, b) && Contents(k, b) == Contents(h, b)
  {
    assert Alone(h, b) || Looking(h, b);
  }

  /** A new array changes none that was there. */
  lemma NewArray(h: Heap, k: Heap, a: int)
    requires Ok(h) && OnlyNew(h, k, a) && (Alone(k, a) || Looking(k, a))
    ensures Ok(k) && View(k) == View(h)[a := Contents(k, a)]
  {
    hide Alone, Looking, Contents;
    forall b | b in h.arrays
      ensures (Alone(k, b) || Looking(k, b)) && Inside(k, b) && Inside(h, b) && Contents(k, b) == Contents(h, b)
    {
      NewLeavesOthers(h, k, a, b);
    }
  }

  lemma SliceOfSlice(s: seq<Value>, off: nat, len: nat, beg: nat, n: nat)
    requires off + len <= |s| && beg + n <= len
    ensures s[off..off + len][beg..beg + n] == s[off + beg..off + beg + n]
  {
    var t := s[off..off + len];
    var x, y := t[beg..beg + n], s[off + beg..off + beg + n];
    forall i | 0 <= i < |x| ensures x[i] == y[i] { assert t[beg + i] == s[off + beg + i]; }
  }

  /** A new array of the program, looking into the block another one looks into. */
  lemma NewLook(h: Heap, k: Heap, a: int, beg: nat, len: nat, id: int)
    requires Ok(h) && a in h.users && Looking(h, a) && id !in h.arrays && beg + len <= h.arrays[a].len
    requires var r := h.arrays[a];
             k == Heap(h.blocks, h.arrays[id := RArray(r.block, r.off + beg, len, r.aux, false)], h.users + {id},
                       h.owner)
    ensures Ok(k) && View(k) == View(h)[id := Contents(h, a)[beg..beg + len]]
    ensures FrozenUsers(k) == FrozenUsers(h)
  {
    OneMoreUser(h, k, id);
    var r := h.arrays[a];
    assert Looking(k, id) by { assert Alone(k, r.aux.root); }
    SliceOfSlice(h.blocks[r.block], r.off, r.len, beg, len);
    assert Contents(k, id) == Contents(h, a)[beg..beg + len];
    hide Looking, Alone;
    NewArray(h, k, id);
  }

  /** A new array with a block of its own. */
  lemma NewAlone(h: Heap, k: Heap, a: int, p: int, b: seq<Value>, len: nat)
    requires Ok(h) && a !in h.arrays && p !in h.blocks && len <= |b|
    requires k == Heap(h.blocks[p := b], h.arrays[a := RArray(p, 0, len, Capa(|b|), false)], h.users + {a},
                       h.owner[p := a])
    ensures Ok(k) && View(k) == View(h)[a := b[..len]]
    ensures FrozenUsers(k) == FrozenUsers(h)
  {
    OneMoreUser(h, k, a);
    assert Alone(k, a) && Contents(k, a) == b[..len];
    hide Looking, Alone;
    NewArray(h, k, a);
  }

  /** An array looks at a smaller part of what it has. */
  lemma Shrunk(h: Heap, k: Heap, a: int, skip: nat, len: nat)
    requires Ok(h) && a in h.users && Inside(h, a) && skip + len <= h.arrays[a].len
    requires h.arrays[a].aux.Capa? ==> skip == 0
    requires var r := h.arrays[a];
             k == h.(arrays := h.arrays[a := r.(off := r.off + skip, len := len)])
    ensures Ok(k) && View(k) == View(h)[a := Contents(h, a)[skip..skip + len]]
    ensures FrozenUsers(k) == FrozenUsers(h)
  {
    UsersAsBefore(h, k);
    var r := h.arrays[a];
    assert Alone(h, a) || Looking(h, a);
    assert OnlyOwn(h, k, a);
    SliceOfSlice(h.blocks[r.block], r.off, r.len, skip, len);
    assert Inside(k, a) && Contents(k, a) == Contents(h, a)[skip..skip + len];
    if r.aux.Capa? {
      assert Alone(k, a);
      Isolation(h, k, a);
    } else {
      assert Alone(k, r.aux.root);
      StillLooking(h, k, a);
    }
  }

  /** Freezing changes no element. */
  lemma Frosted(h: Heap, k: Heap, a: int)
    requires Ok(h) && a in h.users && k == h.(arrays := h.arrays[a := h.arrays[a].(frozen := true)])
    ensures Ok(k) && View(k) == View(h)
  {
    assert Alone(h, a) || Looking(h, a);
    forall b | b in k.arrays
      ensures (Alone(k, b) || Looking(k, b)) && Inside(k, b) && Inside(h, b) && Contents(k, b) == Contents(h, b)
    {
      assert Alone(h, b) || Looking(h, b);
    }
  }

  /** An array gives up its block and looks at what another one looks at. */
  lemma Adopted(h: Heap, k: Heap, a: int, orig: int)
    requires Ok(h) && a in h.users && Alone(h, a) && orig in h.users && Looking(h, orig)
    requires var r, o := h.arrays[a], h.arrays[orig];
             k == h.(blocks := h.blocks - {r.block},
                     arrays := h.arrays[a := RArray(o.block, o.off, o.len, o.aux, r.frozen)])
    ensures Ok(k) && View(k) == View(h)[a := Contents(h, orig)]
    ensures FrozenUsers(k) == FrozenUsers(h)
  {
    UsersAsBefore(h, k);
    assert Alone(h, h.arrays[orig].aux.root);
    assert OnlyOwn(h, k, a);
    assert Looking(k, a) && Contents(k, a) == Contents(h, orig);
    StillLooking(h, k, a);
  }

  /** Where the elements of a replacement are: in the block of the array itself, or in one nobody writes to. */
  lemma ReplacementPlace(h: Heap, a: int, id: int)
    requires Ok(h) && a in h.users && id in h.users && Alone(h, a)
    ensures Inside(h, id) && (id != a ==> h.arrays[id].block != h.arrays[a].block)
    ensures id == a ==> h.arrays[id].off == 0
  {
    assert Alone(h, id) || Looking(h, id);
  }

  // ---------- memory ----------

  /** The block b with n elements of from, as they were before, at dst. */
  function Moved(b: seq<Value>, dst: nat, from: seq<Value>, src: nat, n: nat): (r: seq<Value>)
    requires dst + n <= |b| && src + n <= |from|
    ensures |r| == |b|
  {
    b[..dst] + from[src..src + n] + b[dst + n..]
  }

  /** Filling a gap with nil and writing an element, in the block. */
  lemma StoredInBlock(b: seq<Value>, len: nat, idx: nat, val: Value)
    requires len <= |b| && idx < |b|
    ensures var cleared := if idx > len then Moved(b, len, Nils(idx - len + 1), 0, idx - len + 1) else b;
            |cleared| == |b| && cleared[idx := val][..if idx >= len then idx + 1 else len] == Stored(b[..len], idx, val)
  {
  }

  /** The block with n elements of from, if there are any, written at beg. */
  function Replaced(b: seq<Value>, beg: nat, from: seq<Value>, off: nat, n: nat): (r: seq<Value>)
    requires beg + n <= |b| && off + n <= |from|
    ensures |r| == |b|
  {
    if n > 0 then Moved(b, beg, from, off, n) else b
  }

  lemma ReplacementWritten(b: seq<Value>, beg: nat, from: seq<Value>, off: nat, n: nat, m: nat)
    requires beg + n <= m <= |b| && off + n <= |from|
    ensures Replaced(b, beg, from, off, n)[..m] == b[..beg] + from[off..off + n] + b[beg + n..m]
  {
  }

  /** The gap cleared behind the old end; what was in the array is still there. */
  lemma GapCleared(b: seq<Value>, len: nat, beg: nat)
    requires len <= beg <= |b|
    ensures Moved(b, len, Nils(beg - len), 0, beg - len)[..beg] == b[..len] + Nils(beg - len)
    ensures Moved(b, len, Nils(beg - len), 0, beg - len)[..len] == b[..len]
  {
    var b1 := Moved(b, len, Nils(beg - len), 0, beg - len);
    assert b1[..beg] == b[..len] + Nils(beg - len)[0..beg - len];
    assert b1[..len] == b1[..beg][..len];
  }

  /**
   * The tail moved from beg + n to make room for rlen elements. What is before the new place of the
   * tail is as it was: that is why an array can be spliced into itself.
   */
  lemma TailMoved(b: seq<Value>, len: nat, beg: nat, n: nat, rlen: nat)
    requires beg + n <= len <= |b| && len + rlen - n <= |b|
    ensures var b1 := Moved(b, beg + rlen, b, beg + n, len - (beg + n));
            b1[..beg + rlen] == b[..beg + rlen] && b1[beg + rlen..len + rlen - n] == b[beg + n..len]
  {
    var b1 := Moved(b, beg + rlen, b, beg + n, len - (beg + n));
    var x, y, z := b[..beg + rlen], b[beg + n..len], b[len + rlen - n..];
    assert b1 == x + y + z;
    assert (x + y + z)[..|x|] == x && (x + y + z)[|x|..|x| + |y|] == y;
  }

  // ---------- splicing ----------

  /** What rb_ary_splice puts in: nothing, or the elements of an array. */
  predicate IsReplacement(h: Heap, rpl: Value, rlen: nat) {
    if rpl.Array? then Inside(h, rpl.id) && rlen <= h.arrays[rpl.id].len else rlen == 0
  }

  /** An array that may be written to, and a replacement for some of its elements. */
  ghost predicate CanSplice(h: Heap, a: int, rpl: Value, rlen: nat) {
    && Ok(h) && a in h.users && Alone(h, a) && IsReplacement(h, rpl, rlen) && (rpl.Array? ==> rpl.id in h.users)
    && (rpl == Array(a) ==> rlen == h.arrays[a].len)
  }

  function PlaceOf(h: Heap, rpl: Value, rlen: nat): seq<Value>
    requires IsReplacement(h, rpl, rlen)
  {
    if rpl.Array? then h.blocks[h.arrays[rpl.id].block] else []
  }

  function OffsetOf(h: Heap, rpl: Value, rlen: nat): (off: nat)
    requires IsReplacement(h, rpl, rlen)
    ensures off + rlen <= |PlaceOf(h, rpl, rlen)|
  {
    if rpl.Array? then h.arrays[rpl.id].off else 0
  }

  function ElementsOf(h: Heap, rpl: Value, rlen: nat): seq<Value>
    requires IsReplacement(h, rpl, rlen)
  {
    PlaceOf(h, rpl, rlen)[OffsetOf(h, rpl, rlen)..OffsetOf(h, rpl, rlen) + rlen]
  }

  lemma SameSplice(h: Heap, k: Heap, a: int, rpl: Value, rlen: nat)
    requires CanSplice(h, a, rpl, rlen) && CanSplice(k, a, rpl, rlen) && View(h) == View(k)
    ensures Contents(h, a) == Contents(k, a) && ElementsOf(h, rpl, rlen) == ElementsOf(k, rpl, rlen)
  {
    assert View(h)[a] == View(k)[a];
    if rpl.Array? {
      assert View(h)[rpl.id] == View(k)[rpl.id];
      FirstOf(h, rpl, rlen);
      FirstOf(k, rpl, rlen);
    }
  }

  lemma FirstOf(h: Heap, rpl: Value, rlen: nat)
    requires IsReplacement(h, rpl, rlen) && rpl.Array?
    ensures rlen <= |Contents(h, rpl.id)| && ElementsOf(h, rpl, rlen) == Contents(h, rpl.id)[..rlen]
  {
    var r := h.arrays[rpl.id];
    SliceOfSlice(h.blocks[r.block], r.off, r.len, 0, rlen);
  }

  /** The block of a with the replacement written at beg. */
  function WithReplacement(h: Heap, a: int, beg: nat, rpl: Value, rlen: nat): seq<Value>
    requires Inside(h, a) && IsReplacement(h, rpl, rlen) && beg + rlen <= |h.blocks[h.arrays[a].block]|
  {
    Replaced(h.blocks[h.arrays[a].block], beg, PlaceOf(h, rpl, rlen), OffsetOf(h, rpl, rlen), rlen)
  }

  /**
   * After a write to a's block that left the first rlen slots alone, if the array is its own
   * replacement, the replacement is still what it was.
   */
  lemma ReplacementStays(h: Heap, k: Heap, a: int, b: seq<Value>, n: nat, rpl: Value, rlen: nat)
    requires Rewrites(h, k, a, b, n) && IsReplacement(h, rpl, rlen) && (rpl.Array? ==> rpl.id in h.users)
    requires rpl == Array(a) ==> rlen <= n && b[..rlen] == h.blocks[h.arrays[a].block][..rlen]
    ensures IsReplacement(k, rpl, rlen) && ElementsOf(k, rpl, rlen) == ElementsOf(h, rpl, rlen)
    ensures Inside(k, a) && k.blocks[k.arrays[a].block] == b
    ensures rpl.Array? && k.arrays[rpl.id].block == k.arrays[a].block ==> rpl.id == a && k.arrays[a].off == 0
  {
    if rpl.Array? { ReplacementPlace(h, a, rpl.id); }
  }

  /** Writing the replacement to a's block. */
  lemma ReplacementPut(h: Heap, k: Heap, l: Heap, a: int, beg: nat, b: seq<Value>, n: nat, rpl: Value, rlen: nat,
        m: nat)
    requires Rewrites(h, k, a, b, n) && IsReplacement(h, rpl, rlen) && (rpl.Array? ==> rpl.id in h.users)
    requires rpl == Array(a) ==> rlen <= n && b[..rlen] == h.blocks[h.arrays[a].block][..rlen]
    requires beg + rlen <= m <= |b| && IsReplacement(k, rpl, rlen) && Inside(k, a) && k.blocks[k.arrays[a].block] == b
    requires l == k.(blocks := k.blocks[k.arrays[a].block := WithReplacement(k, a, beg, rpl, rlen)])
    ensures Rewrites(h, l, a, WithReplacement(k, a, beg, rpl, rlen), n)
    ensures WithReplacement(k, a, beg, rpl, rlen)[..m] == b[..beg] + ElementsOf(h, rpl, rlen) + b[beg + rlen..m]
  {
    hide Ok, View, Looking, Moved, Replaced, Rewrites;
    RewritesFacts(h, k, a, b, n);
    ReplacementStays(h, k, a, b, n, rpl, rlen);
    ReplacementWritten(b, beg, PlaceOf(k, rpl, rlen), OffsetOf(k, rpl, rlen), rlen, m);
    RewritesMore(h, k, a, b, n, WithReplacement(k, a, beg, rpl, rlen), l);
  }

  /** The gap cleared, the replacement written, the length set. */
  lemma SplicedBehind(h: Heap, k1: Heap, k2: Heap, k3: Heap, a: int, beg: nat, rpl: Value, rlen: nat)
    requires CanSplice(h, a, rpl, rlen)
    requires h.arrays[a].len <= beg && beg + rlen <= h.arrays[a].aux.capa
    requires k1 == h.(blocks := h.blocks[h.arrays[a].block := Cleared(h, a, beg)]) && IsReplacement(k1, rpl, rlen)
    requires Inside(k1, a)
    requires |k1.blocks[k1.arrays[a].block]| == h.arrays[a].aux.capa
    requires k2 == k1.(blocks := k1.blocks[k1.arrays[a].block := WithReplacement(k1, a, beg, rpl, rlen)])
    requires k3 == k2.(arrays := k2.arrays[a := h.arrays[a].(len := beg + rlen)])
    ensures Ok(k3)
    ensures View(k3) == View(h)[a := Contents(h, a) + Nils(beg - h.arrays[a].len) + ElementsOf(h, rpl, rlen)]
  {
    hide Ok, View, Looking, Moved, Replaced, Rewrites;
    var p, len := h.arrays[a].block, h.arrays[a].len;
    var b, b1 := h.blocks[p], Cleared(h, a, beg);
    GapCleared(b, len, beg);
    RewritesNothing(h, a);
    RewritesMore(h, h, a, b, len, b1, k1);
    assert rpl == Array(a) ==> b1[..rlen] == b1[..len][..rlen] == b[..len][..rlen] == b[..rlen];
    ReplacementPut(h, k1, k2, a, beg, b1, len, rpl, rlen, beg + rlen);
    var b2 := WithReplacement(k1, a, beg, rpl, rlen);
    RewritesLen(h, k2, a, b2, len, beg + rlen, k3);
    Written(h, k3, a, b2, beg + rlen);
    assert Contents(h, a) == b[..len];
    assert b1[..beg] + ElementsOf(h, rpl, rlen) + b1[beg + rlen..beg + rlen] == b1[..beg] + ElementsOf(h, rpl, rlen);
  }

  /** Clearing the gap leaves the replacement, which lies before it or in another block. */
  lemma ClearingKeeps(h: Heap, k: Heap, a: int, beg: nat, rpl: Value, rlen: nat)
    requires CanSplice(h, a, rpl, rlen)
    requires h.arrays[a].len <= beg <= h.arrays[a].aux.capa
    requires k == h.(blocks := h.blocks[h.arrays[a].block := Cleared(h, a, beg)])
    ensures IsReplacement(k, rpl, rlen) && Inside(k, a) && |k.blocks[k.arrays[a].block]| == h.arrays[a].aux.capa
    ensures rpl.Array? && k.arrays[rpl.id].block == k.arrays[a].block ==> k.arrays[rpl.id].off + rlen <= beg
  {
    if rpl.Array? { ReplacementPlace(h, a, rpl.id); }
  }

  function Cleared(h: Heap, a: int, beg: nat): (r: seq<Value>)
    requires Inside(h, a) && h.arrays[a].len <= beg <= |h.blocks[h.arrays[a].block]|
  {
    Moved(h.blocks[h.arrays[a].block], h.arrays[a].len, Nils(beg - h.arrays[a].len), 0, beg - h.arrays[a].len)
  }

  /** The block of a with the tail from beg + n moved to beg + rlen. */
  function MovedTail(h: Heap, a: int, beg: nat, n: nat, rlen: nat): seq<Value>
    requires Inside(h, a) && beg + n <= h.arrays[a].len && h.arrays[a].len + rlen - n <= |h.blocks[h.arrays[a].block]|
  {
    var b := h.blocks[h.arrays[a].block];
    Moved(b, beg + rlen, b, beg + n, h.arrays[a].len - (beg + n))
  }

  /** The tail moved and the length set, if need be. */
  lemma TailDone(h: Heap, k1: Heap, k2: Heap, a: int, beg: nat, n: nat, rlen: nat) returns (b1: seq<Value>)
    requires Ok(h) && a in h.users && Alone(h, a)
    requires beg + n <= h.arrays[a].len && h.arrays[a].len + rlen - n <= h.arrays[a].aux.capa
    requires if n != rlen then k1 == h.(blocks := h.blocks[h.arrays[a].block := MovedTail(h, a, beg, n, rlen)])
             else k1 == h
    requires if n != rlen then k2 == k1.(arrays := k1.arrays[a := h.arrays[a].(len := h.arrays[a].len + rlen - n)])
             else k2 == h
    ensures Rewrites(h, k2, a, b1, h.arrays[a].len + rlen - n)
    ensures b1[..beg + rlen] == h.blocks[h.arrays[a].block][..beg + rlen]
    ensures b1[beg + rlen..h.arrays[a].len + rlen - n] == h.blocks[h.arrays[a].block][beg + n..h.arrays[a].len]
  {
    hide Ok, View, Looking, Moved, Rewrites;
    var p, len := h.arrays[a].block, h.arrays[a].len;
    RewritesNothing(h, a);
    b1 := h.blocks[p];
    if n != rlen {
      b1 := MovedTail(h, a, beg, n, rlen);
      TailMoved(h.blocks[p], len, beg, n, rlen);
      RewritesMore(h, h, a, h.blocks[p], len, b1, k1);
      RewritesLen(h, k1, a, b1, len, len + rlen - n, k2);
    }
  }

  /** The tail moved and the replacement written. */
  lemma SplicedInside(h: Heap, k1: Heap, k2: Heap, k3: Heap, a: int, beg: nat, n: nat, rpl: Value, rlen: nat)
    requires CanSplice(h, a, rpl, rlen)
    requires beg + n <= h.arrays[a].len && h.arrays[a].len + rlen - n <= h.arrays[a].aux.capa
    requires if n != rlen then k1 == h.(blocks := h.blocks[h.arrays[a].block := MovedTail(h, a, beg, n, rlen)])
             else k1 == h
    requires if n != rlen then k2 == k1.(arrays := k1.arrays[a := h.arrays[a].(len := h.arrays[a].len + rlen - n)])
             else k2 == h
    requires IsReplacement(k2, rpl, rlen) && Inside(k2, a) && beg + rlen <= |k2.blocks[k2.arrays[a].block]|
    requires k3 == k2.(blocks := k2.blocks[k2.arrays[a].block := WithReplacement(k2, a, beg, rpl, rlen)])
    ensures Ok(k3)
    ensures View(k3) == View(h)[a := Contents(h, a)[..beg] + ElementsOf(h, rpl, rlen) + Contents(h, a)[beg + n..]]
  {
    hide Ok, View, Looking, Moved, Replaced, Rewrites, MovedTail;
    var len := h.arrays[a].len;
    var b, m := h.blocks[h.arrays[a].block], len + rlen - n;
    var b1 := TailDone(h, k1, k2, a, beg, n, rlen);
    RewritesFacts(h, k2, a, b1, m);
    PrefixOfPrefix(b1, b, beg + rlen);
    ReplacementPut(h, k2, k3, a, beg, b1, m, rpl, rlen, m);
    Written(h, k3, a, WithReplacement(k2, a, beg, rpl, rlen), m);
    InsideSlices(b, len, beg, n);
  }

  lemma PrefixOfPrefix(b: seq<Value>, c: seq<Value>, n: nat)
    requires n <= |b| && n <= |c| && b[..n] == c[..n]
    ensures forall i :: 0 <= i <= n ==> b[..i] == c[..i]
  {
    forall i | 0 <= i <= n ensures b[..i] == c[..i] { assert b[..i] == b[..n][..i] && c[..i] == c[..n][..i]; }
  }

  lemma InsideSlices(b: seq<Value>, len: nat, beg: nat, n: nat)
    requires beg + n <= len <= |b|
    ensures b[0..len][..beg] == b[..beg] && b[0..len][beg + n..] == b[beg + n..len]
  {
  }

  /** The gap cleared, the length set and the element written. */
  lemma StoredDone(h: Heap, k1: Heap, k2: Heap, k3: Heap, a: int, b: seq<Value>, idx: nat, val: Value)
    requires Ok(h) && a in h.users && Alone(h, a) && idx < h.arrays[a].aux.capa
    requires var b0, len := h.blocks[h.arrays[a].block], h.arrays[a].len;
             b == if idx > len then Moved(b0, len, Nils(idx - len + 1), 0, idx - len + 1) else b0
    requires Rewrites(h, k1, a, b, h.arrays[a].len)
    requires k2 == if idx >= h.arrays[a].len then k1.(arrays := k1.arrays[a := h.arrays[a].(len := idx + 1)]) else k1
    requires k3 == k2.(blocks := k2.blocks[h.arrays[a].block := b[idx := val]])
    ensures Ok(k3) && View(k3) == View(h)[a := Stored(Contents(h, a), idx, val)]
    ensures FrozenUsers(k3) == FrozenUsers(h)
  {
    hide Ok, View, Looking, Moved, Rewrites, Stored, FrozenUsers;
    var len := h.arrays[a].len;
    var n := if idx >= len then idx + 1 else len;
    if idx >= len { RewritesLen(h, k1, a, b, len, n, k2); }
    RewritesMore(h, k2, a, b, n, b[idx := val], k3);
    Written(h, k3, a, b[idx := val], n);
    StoredInBlock(h.blocks[h.arrays[a].block], len, idx, val);
    RewritesUsers(h, k3, a, b[idx := val], n);
  }
}
