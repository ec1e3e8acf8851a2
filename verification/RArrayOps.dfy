/** The operations of array.c that store into, shrink, share and copy arrays. */
module RArrayOps {
  import opened Arith
  import opened RArrays

  const ARY_DEFAULT_SIZE: nat := 16

  datatype Status = Done | IndexError | FrozenError

  class ArraySpace {
    var blocks: map<int, seq<Value>>
    var arrays: map<int, RArray>
    ghost var users: set<int>
    ghost var owner: map<int, int>

    constructor ()
      ensures Valid() && users == {} && View(Now()) == map[]
    {
      blocks, arrays, users, owner := map[], map[], {}, map[];
    }

    ghost function Now(): Heap
      reads this
    {
      Heap(blocks, arrays, users, owner)
    }

    ghost predicate Valid()
      reads this
    {
      Ok(Now())
    }

    /** The elements of an array of the program. */
    ghost function Elements(a: int): seq<Value>
      requires Valid() && a in users
      reads this
    {
      View(Now())[a]
    }

    lemma Facts(a: int)
      requires Valid() && a in users
      ensures a in arrays && Inside(Now(), a) && Elements(a) == Contents(Now(), a) && |Elements(a)| == arrays[a].len
      ensures if arrays[a].aux.Capa? then Alone(Now(), a) else Looking(Now(), a)
    {
      assert Alone(Now(), a) || Looking(Now(), a);
    }

    // ---------- memory ----------

    /** malloc: a block nobody uses, with whatever was in it. */
    method Malloc(n: nat) returns (p: int, ghost junk: seq<Value>)
      modifies this`blocks
      ensures p !in old(blocks) && |junk| == n && blocks == old(blocks)[p := junk]
    {
      ghost var bound := Above(blocks.Keys);
      assert bound !in blocks;
      p :| p !in blocks;
      var memory := new Value[n];
      junk := memory[..];
      blocks := blocks[p := memory[..]];
    }

    /** free. */
    method Free(p: int)
      modifies this`blocks
      ensures blocks == old(blocks) - {p}
    {
      blocks := blocks - {p};
    }

    /** MEMMOVE. */
    method MemMove(p: int, dst: nat, q: int, src: nat, n: nat)
      requires p in blocks && q in blocks && dst + n <= |blocks[p]| && src + n <= |blocks[q]|
      modifies this`blocks
      ensures blocks == old(blocks)[p := Moved(old(blocks)[p], dst, old(blocks)[q], src, n)]
    {
      blocks := blocks[p := Moved(blocks[p], dst, blocks[q], src, n)];
    }

    /** MEMCPY: the places must not overlap. */
    method MemCpy(p: int, dst: nat, q: int, src: nat, n: nat)
      requires p in blocks && q in blocks && dst + n <= |blocks[p]| && src + n <= |blocks[q]|
      requires p == q ==> src + n <= dst || dst + n <= src
      modifies this`blocks
      ensures blocks == old(blocks)[p := Moved(old(blocks)[p], dst, old(blocks)[q], src, n)]
    {
      MemMove(p, dst, q, src, n);
    }

    /** rb_mem_clear. */
    method MemClear(p: int, dst: nat, n: nat)
      requires p in blocks && dst + n <= |blocks[p]|
      modifies this`blocks
      ensures blocks == old(blocks)[p := Moved(old(blocks)[p], dst, Nils(n), 0, n)]
    {
      blocks := blocks[p := Moved(blocks[p], dst, Nils(n), 0, n)];
    }

    /** REALLOC_N: a block of n elements that begins like the old one, which is gone. */
    method Realloc(a: int, n: nat)
      requires Valid() && a in users && arrays[a].aux.Capa? && arrays[a].len <= n
      modifies this`blocks, this`arrays, this`owner
      ensures Valid() && View(Now()) == old(View(Now())) && Elements(a) == old(Elements(a))
      ensures arrays.Keys == old(arrays).Keys && forall b :: b in old(arrays) && b != a ==> arrays[b] == old(arrays)[b]
      ensures arrays[a].len == old(arrays)[a].len && arrays[a].frozen == old(arrays)[a].frozen
      ensures arrays[a].aux == Capa(n)
      ensures FrozenUsers(Now()) == old(FrozenUsers(Now()))
      ensures FrozenOnes(Now()) == old(FrozenOnes(Now()))
    {
      Facts(a);
      hide Ok, View, Looking, FrozenOnes, FrozenUsers;
      ghost var h := Now();
      var r := arrays[a];
      var p, junk := Malloc(n);
      MemMove(p, 0, r.block, 0, r.len);
      Free(r.block);
      owner := owner[p := a];
      arrays := arrays[a := r.(block := p, aux := Capa(n))];
      Relocated(h, Now(), a, p, Moved(junk, 0, h.blocks[r.block], 0, r.len));
    }

    /** rb_ary_modify: give the array a block of its own, unless it is frozen. */
    method Modify(a: int) returns (ok: bool)
      requires Valid() && a in users
      modifies this`blocks, this`arrays, this`owner
      ensures Valid() && View(Now()) == old(View(Now())) && Elements(a) == old(Elements(a))
      ensures arrays.Keys == old(arrays).Keys && forall b :: b in old(arrays) && b != a ==> arrays[b] == old(arrays)[b]
      ensures arrays[a].len == old(arrays)[a].len && arrays[a].frozen == old(arrays)[a].frozen
      ensures ok == !arrays[a].frozen && (ok ==> arrays[a].aux.Capa?)
      ensures FrozenUsers(Now()) == old(FrozenUsers(Now()))
      ensures FrozenOnes(Now()) == old(FrozenOnes(Now()))
    {
      Facts(a);
      hide Ok, View, Alone, Elements, FrozenOnes, FrozenUsers;
      ghost var h := Now();
      var r := arrays[a];
      ok := !r.frozen;
      if ok && r.aux.Shared? {
        var p, junk := Malloc(r.len);
        MemCpy(p, 0, r.block, r.off, r.len);
        owner := owner[p := a];
        arrays := arrays[a := r.(block := p, off := 0, aux := Capa(r.len))];
        Relocated(h, Now(), a, p, Moved(junk, 0, h.blocks[r.block], r.off, r.len));
        Facts(a);
      }
    }

    /** rb_ary_store. */
    method Store(a: int, index: int, val: Value) returns (st: Status)
      requires Valid() && a in users
      modifies this`blocks, this`arrays, this`owner
      ensures Valid() && arrays.Keys == old(arrays).Keys
      ensures var n := |old(Elements(a))|;
              st == (if index + n < 0 then IndexError else if old(arrays)[a].frozen then FrozenError else Done)
              && View(Now()) == if !st.Done? then old(View(Now()))
                 else old(View(Now()))[a := Stored(old(Elements(a)), if index < 0 then index + n else index, val)]
      ensures FrozenUsers(Now()) == old(FrozenUsers(Now()))
    {
      Facts(a);
      hide Ok, View, Inside, Alone, Looking, Contents, Stored, Elements, FrozenUsers;
      var idx := index;
      if idx < 0 {
        idx := idx + arrays[a].len;
        if idx < 0 { return IndexError; }
      }
      st := StoreAt(a, idx, val);
    }

    /** A place that is there or behind the end. */
    method StoreAt(a: int, idx: nat, val: Value) returns (st: Status)
      requires Valid() && a in users
      modifies this`blocks, this`arrays, this`owner
      ensures Valid() && a in old(arrays) && st == if old(arrays)[a].frozen then FrozenError else Done
      ensures arrays.Keys == old(arrays).Keys && FrozenUsers(Now()) == old(FrozenUsers(Now()))
      ensures View(Now()) == if !st.Done? then old(View(Now()))
                else old(View(Now()))[a := Stored(old(Elements(a)), idx, val)]
    {
      Facts(a);
      hide Ok, View, Inside, Alone, Looking, Contents, Stored, Elements, FrozenUsers;
      var ok := Modify(a);
      if !ok { return FrozenError; }
      StoreGrown(a, idx, val);
      st := Done;
    }

    method StoreGrown(a: int, idx: nat, val: Value)
      requires Valid() && a in users && arrays[a].aux.Capa?
      modifies this`blocks, this`arrays, this`owner
      ensures Valid() && arrays.Keys == old(arrays).Keys && FrozenUsers(Now()) == old(FrozenUsers(Now()))
      ensures View(Now()) == old(View(Now()))[a := Stored(old(Elements(a)), idx, val)]
    {
      hide Ok, View, Inside, Looking, Contents, Stored, Elements, FrozenUsers;
      Grow(a, idx);
      Facts(a);
      StoreOwn(a, idx, val);
    }

    /** Make room for an element at idx. */
    method Grow(a: int, idx: nat)
      requires Valid() && a in users && arrays[a].aux.Capa?
      modifies this`blocks, this`arrays, this`owner
      ensures Valid() && View(Now()) == old(View(Now())) && Elements(a) == old(Elements(a))
      ensures arrays.Keys == old(arrays).Keys && forall b :: b in old(arrays) && b != a ==> arrays[b] == old(arrays)[b]
      ensures arrays[a].len == old(arrays)[a].len && arrays[a].frozen == old(arrays)[a].frozen
      ensures arrays[a].aux.Capa? && idx < arrays[a].aux.capa
      ensures FrozenUsers(Now()) == old(FrozenUsers(Now()))
    {
      Facts(a);
      hide Ok, View, Inside, Looking, Contents, Elements, FrozenUsers;
      if idx >= arrays[a].aux.capa {
        var newCapa := arrays[a].aux.capa / 2;
        if newCapa < ARY_DEFAULT_SIZE {
          newCapa := ARY_DEFAULT_SIZE;
        }
        Realloc(a, newCapa + idx);
      }
    }

    /** Write the element, with nil between the old end and idx. */
    method StoreOwn(a: int, idx: nat, val: Value)
      requires Valid() && a in users && Alone(Now(), a) && idx < arrays[a].aux.capa
      modifies this`blocks, this`arrays
      ensures Valid() && arrays.Keys == old(arrays).Keys
      ensures View(Now()) == old(View(Now())[a := Stored(Contents(Now(), a), idx, val)])
      ensures FrozenUsers(Now()) == old(FrozenUsers(Now()))
    {
      hide Ok, View, Looking, Elements, Stored, Contents, Moved, Rewrites, FrozenUsers;
      ghost var h := Now();
      var p := arrays[a].block;
      ghost var b := ClearGap(a, idx);
      ghost var k1 := Now();
      RewritesFacts(h, k1, a, b, arrays[a].len);
      if idx >= arrays[a].len {
        arrays := arrays[a := arrays[a].(len := idx + 1)];
      }
      ghost var k2 := Now();
      blocks := blocks[p := blocks[p][idx := val]];
      StoredDone(h, k1, k2, Now(), a, b, idx, val);
    }

    method ClearGap(a: int, idx: nat) returns (ghost b: seq<Value>)
      requires Valid() && a in users && Alone(Now(), a) && idx < arrays[a].aux.capa
      modifies this`blocks
      ensures var len, b0 := arrays[a].len, old(blocks)[arrays[a].block];
              b == if idx > len then Moved(b0, len, Nils(idx - len + 1), 0, idx - len + 1) else b0
      ensures Rewrites(old(Now()), Now(), a, b, arrays[a].len)
    {
      RewritesNothing(Now(), a);
      var p, len := arrays[a].block, arrays[a].len;
      b := blocks[p];
      if idx > len {
        MemClear(p, len, idx - len + 1);
        b := blocks[p];
      }
    }

    /** ary_make_shared: the array looks into the block of a frozen root from now on. */
    method MakeShared(a: int) returns (root: int)
      requires Valid() && a in users
      modifies this`arrays, this`owner
      ensures Valid() && View(Now()) == old(View(Now())) && Elements(a) == old(Elements(a))
      ensures arrays[a] == old(arrays)[a].(aux := Shared(root))
      ensures forall b :: b in old(arrays) && b != a ==> b in arrays && arrays[b] == old(arrays)[b]
      ensures FrozenUsers(Now()) == old(FrozenUsers(Now()))
    {
      Facts(a);
      hide Ok, View, Elements, Alone, Looking, FrozenUsers;
      var r := arrays[a];
      if r.aux.Shared? { return r.aux.root; }
      ghost var h := Now();
      ghost var bound := Above(arrays.Keys);
      assert bound !in arrays;
      root :| root !in arrays;
      arrays := arrays[root := r.(frozen := true)][a := r.(aux := Shared(root))];
      owner := owner[r.block := root];
      HandedOver(h, Now(), a, root);
      Facts(a);
    }

    /** ary_new: an empty array with room for n elements. */
    method NewArray(n: nat) returns (a: int)
      requires Valid()
      modifies this`blocks, this`arrays, this`users, this`owner
      ensures Valid() && a !in old(arrays) && users == old(users) + {a} && View(Now()) == old(View(Now()))[a := []]
      ensures FrozenUsers(Now()) == old(FrozenUsers(Now()))
    {
      hide Ok, View;
      ghost var h := Now();
      var p, junk := Malloc(if n == 0 then 1 else n);
      ghost var bound := Above(arrays.Keys);
      assert bound !in arrays;
      a :| a !in arrays;
      arrays := arrays[a := RArray(p, 0, 0, Capa(if n == 0 then 1 else n), false)];
      users, owner := users + {a}, owner[p := a];
      NewAlone(h, Now(), a, p, junk, 0);
    }

    /** rb_ary_freeze. */
    method Freeze(a: int)
      requires Valid() && a in users
      modifies this`arrays
      ensures Valid() && arrays[a].frozen && View(Now()) == old(View(Now()))
      ensures FrozenUsers(Now()) == old(FrozenUsers(Now())) + {a}
    {
      ghost var h := Now();
      arrays := arrays[a := arrays[a].(frozen := true)];
      Frosted(h, Now(), a);
      OneMoreFrozen(h, Now(), a);
    }

    lemma Same(v: map<int, seq<Value>>, a: int)
      requires a in v
      ensures v[a := v[a]] == v
    {
    }

    /** rb_ary_pop: nothing is written; an unshared block that is half empty is cut down first. */
    method Pop(a: int) returns (st: Status, last: Value)
      requires Valid() && a in users
      modifies this`blocks, this`arrays, this`owner
      ensures Valid() && st == if old(arrays)[a].frozen then FrozenError else Done
      ensures var s := old(Elements(a));
              if st.FrozenError? || s == [] then last == Nil && View(Now()) == old(View(Now()))
              else last == s[|s| - 1] && View(Now()) == old(View(Now()))[a := s[..|s| - 1]]
      ensures FrozenUsers(Now()) == old(FrozenUsers(Now()))
    {
      Facts(a);
      hide Ok, View, Elements, Alone, Looking, FrozenUsers;
      if arrays[a].frozen { return FrozenError, Nil; }
      if arrays[a].len == 0 { return Done, Nil; }
      CutDown(a);
      last := TakeLast(a);
      st := Done;
    }

    method TakeLast(a: int) returns (last: Value)
      requires Valid() && a in users && Elements(a) != []
      modifies this`arrays
      ensures Valid() && var s := old(Elements(a));
              last == s[|s| - 1] && View(Now()) == old(View(Now()))[a := s[..|s| - 1]]
      ensures FrozenUsers(Now()) == old(FrozenUsers(Now()))
    {
      Facts(a);
      hide Ok, View, Elements, Alone, Looking, FrozenUsers;
      ghost var h := Now();
      var r := arrays[a];
      last := blocks[r.block][r.off + r.len - 1];
      arrays := arrays[a := r.(len := r.len - 1)];
      assert r.(len := r.len - 1) == r.(off := r.off + 0, len := r.len - 1);
      Shrunk(h, Now(), a, 0, r.len - 1);
    }

    method CutDown(a: int)
      requires Valid() && a in users && 0 < arrays[a].len
      modifies this`blocks, this`arrays, this`owner
      ensures Valid() && View(Now()) == old(View(Now())) && Elements(a) == old(Elements(a))
      ensures FrozenUsers(Now()) == old(FrozenUsers(Now()))
    {
      Facts(a);
      hide Ok, View, Elements, Alone, Looking, FrozenUsers;
      var r := arrays[a];
      if r.aux.Capa? && r.len * 2 < r.aux.capa && r.aux.capa > ARY_DEFAULT_SIZE {
        Realloc(a, r.len * 2);
      }
    }

    /** rb_ary_shift: nothing is moved; the array shares its block and looks at one element less. */
    method Shift(a: int) returns (st: Status, top: Value)
      requires Valid() && a in users
      modifies this`arrays, this`owner
      ensures Valid() && st == if old(arrays)[a].frozen then FrozenError else Done
      ensures var s := old(Elements(a));
              if st.FrozenError? || s == [] then top == Nil && View(Now()) == old(View(Now()))
              else top == s[0] && View(Now()) == old(View(Now()))[a := s[1..]]
      ensures FrozenUsers(Now()) == old(FrozenUsers(Now()))
    {
      Facts(a);
      hide Ok, View, Elements, Alone, Looking, FrozenUsers;
      if arrays[a].frozen { return FrozenError, Nil; }
      if arrays[a].len == 0 { return Done, Nil; }
      top := blocks[arrays[a].block][arrays[a].off];
      var root := MakeShared(a);
      SkipFirst(a);
      st := Done;
    }

    method SkipFirst(a: int)
      requires Valid() && a in users && Elements(a) != [] && arrays[a].aux.Shared?
      modifies this`arrays
      ensures Valid() && View(Now()) == old(View(Now()))[a := old(Elements(a))[1..]]
      ensures FrozenUsers(Now()) == old(FrozenUsers(Now()))
    {
      Facts(a);
      hide Ok, View, Elements, Alone, Looking, FrozenUsers;
      ghost var h := Now();
      var r := arrays[a];
      ghost var s := Elements(a);
      assert s[1..1 + (r.len - 1)] == s[1..];
      hide Contents, Inside;
      arrays := arrays[a := r.(off := r.off + 1, len := r.len - 1)];
      Shrunk(h, Now(), a, 1, r.len - 1);
    }

    /** rb_ary_subseq: nil when out of range, else a new array that shares the block. */
    method Subseq(a: int, beg: int, length: int) returns (r: Value)
      requires Valid() && a in users
      modifies this`blocks, this`arrays, this`users, this`owner
      ensures Valid()
      ensures var s := old(Elements(a));
              if beg < 0 || beg > |s| || length < 0
              then r == Nil && users == old(users) && View(Now()) == old(View(Now()))
              else r.Array? && r.id !in old(users) && users == old(users) + {r.id}
                   && View(Now()) == old(View(Now()))[r.id := s[beg..if beg + length > |s| then |s| else beg + length]]
      ensures FrozenUsers(Now()) == old(FrozenUsers(Now()))
    {
      Facts(a);
      hide Ok, View, Elements, Alone, Looking, FrozenUsers;
      var len := length;
      if beg > arrays[a].len { return Nil; }
      if beg < 0 || len < 0 { return Nil; }
      if beg + len > arrays[a].len {
        len := arrays[a].len - beg;
        if len < 0 {
          len := 0;
        }
      }
      var id;
      assert len == 0 ==> Elements(a)[beg..beg + len] == [];
      if len == 0 {
        UsersKnown(Now());
        id := NewArray(0);
      } else {
        id := SharedPart(a, beg, len);
      }
      r := Array(id);
    }

    method SharedPart(a: int, beg: nat, len: nat) returns (id: int)
      requires Valid() && a in users && beg + len <= |Elements(a)|
      modifies this`arrays, this`users, this`owner
      ensures Valid() && id !in old(users) && users == old(users) + {id}
      ensures View(Now()) == old(View(Now()))[id := old(Elements(a))[beg..beg + len]]
      ensures FrozenUsers(Now()) == old(FrozenUsers(Now()))
    {
      hide Ok, View, Elements, Alone, Looking, Inside, Contents, FrozenUsers;
      var root := MakeShared(a);
      id := Look(a, beg, len);
    }

    method Look(a: int, beg: nat, len: nat) returns (id: int)
      requires Valid() && a in users && arrays[a].aux.Shared? && beg + len <= |Elements(a)|
      modifies this`arrays, this`users
      ensures Valid() && id !in old(users) && users == old(users) + {id}
      ensures View(Now()) == old(View(Now()))[id := old(Elements(a))[beg..beg + len]]
      ensures FrozenUsers(Now()) == old(FrozenUsers(Now()))
    {
      Facts(a);
      UsersKnown(Now());
      hide Ok, View, Elements, Alone, Looking, FrozenUsers;
      ghost var h := Now();
      ghost var bound := Above(arrays.Keys);
      assert bound !in arrays;
      id :| id !in arrays;
      arrays := arrays[id := RArray(arrays[a].block, arrays[a].off + beg, len, arrays[a].aux, false)];
      users := users + {id};
      NewLook(h, Now(), a, beg, len, id);
    }

    /** rb_ary_replace: share the block of the other array; the own block is freed. */
    method Replace(copy: int, orig: int) returns (st: Status)
      requires Valid() && copy in users && orig in users
      modifies this`blocks, this`arrays, this`owner
      ensures Valid() && st == if old(arrays)[copy].frozen then FrozenError else Done
      ensures View(Now()) == if st.Done? then old(View(Now()))[copy := old(Elements(orig))] else old(View(Now()))
      ensures FrozenUsers(Now()) == old(FrozenUsers(Now()))
    {
      Facts(copy);
      Facts(orig);
      hide Ok, View, Elements, Alone, Looking, FrozenUsers;
      var ok := Modify(copy);
      if !ok { return FrozenError; }
      st := Done;
      if copy == orig {
        Same(old(View(Now())), copy);
        return;
      }
      Adopt(copy, orig);
    }

    method Adopt(copy: int, orig: int)
      requires Valid() && copy in users && orig in users && copy != orig && arrays[copy].aux.Capa?
      modifies this`blocks, this`arrays, this`owner
      ensures Valid() && View(Now()) == old(View(Now()))[copy := old(Elements(orig))]
      ensures FrozenUsers(Now()) == old(FrozenUsers(Now()))
    {
      Facts(copy);
      Facts(orig);
      hide Ok, View, Elements, Alone, Looking, FrozenUsers;
      var root := MakeShared(orig);
      Facts(copy);
      Facts(orig);
      ghost var h := Now();
      if arrays[copy].aux.Capa? {
        Free(arrays[copy].block);
      }
      var o, frozen := arrays[orig], arrays[copy].frozen;
      arrays := arrays[copy := RArray(o.block, o.off, o.len, Shared(root), frozen)];
      Adopted(h, Now(), copy, orig);
    }

    /**
     * rb_ary_splice: a[beg, len] = rpl, in place. The replacement may be the array itself, and it may
     * look into the same block.
     */
    method Splice(a: int, beg: int, len: int, rpl: Value) returns (st: Status)
      requires Valid() && a in users && (rpl.Nil? || (rpl.Array? && rpl.id in users))
      modifies this`blocks, this`arrays, this`owner
      ensures Valid()
      ensures var s, r := old(Elements(a)), if rpl.Nil? then [] else old(Elements(rpl.id));
              st == (if len < 0 || beg + |s| < 0 then IndexError
                     else if a in FrozenOnes(Now()) then FrozenError else Done)
              && View(Now()) == if !st.Done? then old(View(Now()))
                 else old(View(Now()))[a := Spliced(s, if beg < 0 then beg + |s| else beg, len, r)]
      ensures FrozenOnes(Now()) == old(FrozenOnes(Now()))
      ensures FrozenUsers(Now()) == old(FrozenUsers(Now()))
    {
      Facts(a);
      hide Ok, View, Inside, Alone, Looking, Contents, Elements, Spliced, CanSplice, ElementsOf, FrozenOnes;
      if len < 0 { return IndexError; }
      var b := beg;
      if b < 0 {
        b := b + arrays[a].len;
        if b < 0 { return IndexError; }
      }
      var rlen := 0;
      if rpl.Array? {
        Facts(rpl.id);
        rlen := arrays[rpl.id].len;
      }
      var ok := Modify(a);
      if !ok { return FrozenError; }
      MaySplice(a, rpl, rlen);
      SpliceOwn(a, b, len, rpl, rlen);
      st := Done;
    }

    /** What is known of array and replacement before the first write. */
    lemma MaySplice(a: int, rpl: Value, rlen: nat)
      requires Valid() && a in users && arrays[a].aux.Capa?
      requires if rpl.Array? then rpl.id in users && rlen == |Elements(rpl.id)| else rlen == 0
      ensures CanSplice(Now(), a, rpl, rlen) && Inside(Now(), a) && Elements(a) == Contents(Now(), a)
      ensures ElementsOf(Now(), rpl, rlen) == if rpl.Array? then Elements(rpl.id) else []
    {
      Facts(a);
      if rpl.Array? { Facts(rpl.id); }
    }

    method SpliceOwn(a: int, beg: nat, len: nat, rpl: Value, rlen: nat)
      requires CanSplice(Now(), a, rpl, rlen)
      modifies this`blocks, this`arrays, this`owner
      ensures Valid()
      ensures View(Now()) == old(View(Now())[a := Spliced(Contents(Now(), a), beg, len, ElementsOf(Now(), rpl, rlen))])
      ensures FrozenOnes(Now()) == old(FrozenOnes(Now()))
    {
      var alen := arrays[a].len;
      assert |Contents(Now(), a)| == alen;
      hide Ok, View, Looking, Contents, ElementsOf, FrozenOnes;
      if beg >= alen {
        PutBehind(a, beg, rpl, rlen);
      } else {
        PutInside(a, beg, if beg + len > alen then alen - beg else len, rpl, rlen);
      }
    }

    /** REALLOC_N, if the block is not larger than n. */
    method Reserve(a: int, n: nat, ghost rpl: Value, ghost rlen: nat)
      requires CanSplice(Now(), a, rpl, rlen)
      modifies this`blocks, this`arrays, this`owner
      ensures CanSplice(Now(), a, rpl, rlen) && View(Now()) == old(View(Now()))
      ensures Contents(Now(), a) == old(Contents(Now(), a))
      ensures ElementsOf(Now(), rpl, rlen) == old(ElementsOf(Now(), rpl, rlen))
      ensures arrays[a].len == old(arrays)[a].len && n <= arrays[a].aux.capa
      ensures FrozenOnes(Now()) == old(FrozenOnes(Now()))
    {
      ghost var h := Now();
      if n >= arrays[a].aux.capa {
        hide View;
        Realloc(a, n);
        Facts(a);
        if rpl.Array? { Facts(rpl.id); }
        hide Ok, Looking, Contents, ElementsOf;
        SameSplice(h, Now(), a, rpl, rlen);
      }
    }

    /** The branch of rb_ary_splice for a place at or behind the end. */
    method PutBehind(a: int, beg: nat, rpl: Value, rlen: nat)
      requires CanSplice(Now(), a, rpl, rlen) && arrays[a].len <= beg
      modifies this`blocks, this`arrays, this`owner
      ensures Valid()
      ensures View(Now())
           == old(View(Now())[a := Contents(Now(), a) + Nils(beg - arrays[a].len) + ElementsOf(Now(), rpl, rlen)])
      ensures FrozenOnes(Now()) == old(FrozenOnes(Now()))
    {
      hide Ok, View, Looking, Contents, ElementsOf, FrozenOnes;
      Reserve(a, beg + rlen, rpl, rlen);
      WriteBehind(a, beg, rpl, rlen);
    }

    /** The branch of rb_ary_splice for a place before the end. */
    method PutInside(a: int, beg: nat, n: nat, rpl: Value, rlen: nat)
      requires CanSplice(Now(), a, rpl, rlen) && beg + n <= arrays[a].len
      modifies this`blocks, this`arrays, this`owner
      ensures Valid()
      ensures View(Now()) == old(var s := Contents(Now(), a);
                                 View(Now())[a := s[..beg] + ElementsOf(Now(), rpl, rlen) + s[beg + n..]])
      ensures FrozenOnes(Now()) == old(FrozenOnes(Now()))
    {
      assert |Contents(Now(), a)| == arrays[a].len;
      hide Ok, View, Looking, Contents, ElementsOf, FrozenOnes;
      Reserve(a, arrays[a].len + rlen - n, rpl, rlen);
      WriteInside(a, beg, n, rpl, rlen);
    }

    method WriteInside(a: int, beg: nat, n: nat, rpl: Value, rlen: nat)
      requires CanSplice(Now(), a, rpl, rlen) && beg + n <= arrays[a].len
      requires arrays[a].len + rlen - n <= arrays[a].aux.capa
      modifies this`blocks, this`arrays
      ensures Valid()
      ensures View(Now()) == old(var s := Contents(Now(), a);
                                 View(Now())[a := s[..beg] + ElementsOf(Now(), rpl, rlen) + s[beg + n..]])
      ensures FrozenOnes(Now()) == old(FrozenOnes(Now()))
    {
      hide Ok, View, Looking, Elements, Moved, Replaced, ElementsOf, Contents, FrozenOnes;
      ghost var h := Now();
      ghost var k1, k2 := MoveTail(a, beg, n, rlen, rpl);
      MoveReplacement(a, beg, rpl, rlen);
      FrozenAsBefore(k2, Now());
      SplicedInside(h, k1, k2, Now(), a, beg, n, rpl, rlen);
    }

    /** Move the tail and set the new length, unless nothing has to be moved. */
    method MoveTail(a: int, beg: nat, n: nat, rlen: nat, ghost rpl: Value) returns (ghost k1: Heap, ghost k2: Heap)
      requires CanSplice(Now(), a, rpl, rlen) && beg + n <= arrays[a].len
      requires arrays[a].len + rlen - n <= arrays[a].aux.capa
      modifies this`blocks, this`arrays
      ensures var h := old(Now());
              if n != rlen then k1 == h.(blocks := h.blocks[h.arrays[a].block := MovedTail(h, a, beg, n, rlen)])
                && k2 == k1.(arrays := k1.arrays[a := h.arrays[a].(len := h.arrays[a].len + rlen - n)])
              else k1 == k2 == h
      ensures k2 == Now() && IsReplacement(k2, rpl, rlen) && Inside(k2, a) && beg + rlen <= |blocks[arrays[a].block]|
      ensures FrozenOnes(Now()) == old(FrozenOnes(Now()))
    {
      ghost var h := Now();
      k1, k2 := h, h;
      if n != rlen {
        var p, len := arrays[a].block, arrays[a].len;
        if rpl.Array? { ReplacementPlace(h, a, rpl.id); }
        hide Ok, Looking;
        MemMove(p, beg + rlen, p, beg + n, len - (beg + n));
        k1 := Now();
        arrays := arrays[a := arrays[a].(len := len + rlen - n)];
        k2 := Now();
      }
      FrozenAsBefore(h, Now());
    }

    /** MEMMOVE of the elements of the replacement. */
    method MoveReplacement(a: int, beg: nat, rpl: Value, rlen: nat)
      requires Inside(Now(), a) && IsReplacement(Now(), rpl, rlen) && beg + rlen <= |blocks[arrays[a].block]|
      modifies this`blocks
      ensures blocks == old(blocks)[arrays[a].block := old(WithReplacement(Now(), a, beg, rpl, rlen))]
    {
      hide Moved;
      if rlen > 0 {
        MemMove(arrays[a].block, beg, arrays[rpl.id].block, arrays[rpl.id].off, rlen);
      }
    }

    method WriteBehind(a: int, beg: nat, rpl: Value, rlen: nat)
      requires CanSplice(Now(), a, rpl, rlen) && arrays[a].len <= beg && beg + rlen <= arrays[a].aux.capa
      modifies this`blocks, this`arrays
      ensures Valid()
      ensures View(Now())
           == old(View(Now())[a := Contents(Now(), a) + Nils(beg - arrays[a].len) + ElementsOf(Now(), rpl, rlen)])
      ensures FrozenOnes(Now()) == old(FrozenOnes(Now()))
    {
      hide Ok, View, Looking, Elements, Moved, Replaced, ElementsOf, Contents, FrozenOnes;
      ghost var h := Now();
      var p := arrays[a].block;
      MemClear(p, arrays[a].len, beg - arrays[a].len);
      ghost var k1 := Now();
      ClearingKeeps(h, k1, a, beg, rpl, rlen);
      CopyReplacement(a, beg, rpl, rlen);
      ghost var k2 := Now();
      arrays := arrays[a := arrays[a].(len := beg + rlen)];
      SplicedBehind(h, k1, k2, Now(), a, beg, rpl, rlen);
      FrozenAsBefore(h, Now());
    }

    /** MEMCPY of the elements of the replacement, which do not overlap the place they go to. */
    method CopyReplacement(a: int, beg: nat, rpl: Value, rlen: nat)
      requires Inside(Now(), a) && IsReplacement(Now(), rpl, rlen) && beg + rlen <= |blocks[arrays[a].block]|
      requires rpl.Array? && arrays[rpl.id].block == arrays[a].block ==> arrays[rpl.id].off + rlen <= beg
      modifies this`blocks
      ensures blocks == old(blocks)[arrays[a].block := old(WithReplacement(Now(), a, beg, rpl, rlen))]
    {
      hide Moved;
      if rlen > 0 {
        MemCpy(arrays[a].block, beg, arrays[rpl.id].block, arrays[rpl.id].off, rlen);
      }
    }
  }

  lemma UsersKnown(h: Heap)
    requires Ok(h)
    ensures forall a :: a in h.users ==> a in h.arrays
  {
  }
}