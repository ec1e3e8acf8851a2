/** The global method cache of eval.c, and the operations that keep or clear it. */
module MethodCache {
  import opened Arith
  import opened MethodTable
  import opened SuperChains
  import opened ClassTree
  import opened IncludeMerge
  import opened IncludeChain
  import opened StaleCache
  import opened MethodMeaning

  const CACHE_SIZE: nat := 0x800
  const NOEX_PUBLIC := 0
  const NOEX_PRIVATE := 2
  const ID_ALLOCATOR := 1       // names are numbers; these are the ones rb_add_method knows
  const INITIALIZE := 2
  const INITIALIZE_COPY := 3
  const ALLOCATE := 4

  datatype Status = Done | FrozenError | UndefinedMethod | TypeError | CyclicInclude

  /** EXPR1: the slot for a class, which is an address, and a name. */
  function Slot(c: int, m: int): (k: nat)
    ensures k < CACHE_SIZE
  {
    (((c / 8) % 0x800) as bv11 ^ (m % 0x800) as bv11) as int
  }

  /** NOEX_PRIVATE | noex: bit 1 is set, the others stay. */
  function Private(noex: int): (r: int)
    ensures (r / 2) % 2 == 1 && r % 2 == noex % 2 && r / 4 == noex / 4
  {
    if (noex / 2) % 2 == 1 then noex else noex + NOEX_PRIVATE
  }

  /** With ruby_running set. */
  class Interpreter {
    var classes: map<int, RClass>
    var tables: map<int, map<int, Method>>
    ghost var chain: map<int, seq<int>>
    const cache: array<Entry>
    const rbCObject: int

    ghost function Now(): World
      reads this
    {
      World(classes, tables, chain)
    }

    /** Classes, modules and tables are in order, whatever is in the cache. */
    ghost predicate Sound()
      reads this
    {
      Ok(Now()) && Tidy(Now()) && cache.Length == CACHE_SIZE && rbCObject in classes
    }

    /** And whatever is in the cache is what a fresh walk finds. */
    ghost predicate Valid()
      reads this, cache
    {
      Sound() && Coherent(Now(), cache[..])
    }

    /** Object alone, and an empty cache. */
    constructor (object_: int)
      requires object_ != 0
      ensures Valid() && fresh(cache) && rbCObject == object_ && classes.Keys == {object_}
      ensures tables[classes[object_].tbl] == map[]
    {
      classes, tables := map[object_ := RClass(Class, 0, 0, false, false)], map[0 := map[]];
      chain, rbCObject := map[object_ := [object_]], object_;
      cache := new Entry[CACHE_SIZE](_ => Entry(0, 0, 0, 0, None, 0));
    }

    /**
     * rb_class_boot and rb_module_new: a new class below another, or a module, with an empty table of its
     * own. rb_make_metaclass makes singleton classes.
     */
    method NewClass(kind: Kind, super: int, singleton: bool) returns (c: int)
      requires Sound() && !kind.IClass? && (singleton ==> kind.Class?)
      requires if kind.Module? then super == 0 else super in classes && classes[super].kind.Class?
      modifies this`classes, this`tables, this`chain
      ensures Sound() && (old(Valid()) ==> Valid())
      ensures NewClassMade(old(Now()), Now(), kind, super, singleton, c)
    {
      ghost var w := Now();
      ghost var bound := Above(classes.Keys + {0});
      assert bound !in classes && bound != 0;
      c :| c !in classes && c != 0;
      ghost var most := Above(tables.Keys);
      assert most !in tables;
      var t: int :| t !in tables;
      classes := classes[c := RClass(kind, t, super, false, singleton)];
      tables := tables[t := map[]];
      chain := chain[c := [c] + if super == 0 then [] else chain[super]];
      NewClassOk(w, Now(), kind, super, singleton, c);
      NewClassCoherent(w, Now(), kind, super, singleton, c, cache[..]);
    }

    /** rb_obj_freeze, for a class. */
    method Freeze(klass: int)
      requires Sound() && klass in classes
      modifies this`classes
      ensures Sound() && (old(Valid()) ==> Valid()) && Now() == old(FrozenClass(Now(), klass))
      ensures classes == old(classes)[klass := old(classes)[klass].(frozen := true)]
    {
      ghost var w := Now();
      classes := classes[klass := classes[klass].(frozen := true)];
      FrozenOk(w, klass);
      FrozenCoherent(w, klass, cache[..]);
    }

    /** rb_clear_cache. */
    method ClearCache()
      requires cache.Length == CACHE_SIZE
      modifies cache
      ensures forall k :: 0 <= k < cache.Length ==> cache[k].mid == 0
    {
      var ent := 0;
      while ent < CACHE_SIZE
        invariant 0 <= ent <= CACHE_SIZE
        invariant forall k :: 0 <= k < ent ==> cache[k].mid == 0
      {
        cache[ent] := cache[ent].(mid := 0);
        ent := ent + 1;
      }
    }

    /** rb_clear_cache_by_id. */
    method ClearCacheById(id: int)
      requires cache.Length == CACHE_SIZE
      modifies cache
      ensures forall k :: 0 <= k < cache.Length ==>
                cache[k] == if old(cache[k]).mid == id then old(cache[k]).(mid := 0) else old(cache[k])
    {
      var ent := 0;
      while ent < CACHE_SIZE
        invariant 0 <= ent <= CACHE_SIZE
        invariant forall k :: 0 <= k < ent ==>
                    cache[k] == if old(cache[k]).mid == id then old(cache[k]).(mid := 0) else old(cache[k])
        invariant forall k :: ent <= k < cache.Length ==> cache[k] == old(cache[k])
      {
        if cache[ent].mid == id {
          cache[ent] := cache[ent].(mid := 0);
        }
        ent := ent + 1;
      }
    }

    /** search_method: walk the super chain. */
    method SearchMethod(klass: int, id: int) returns (found: Option<Found>)
      requires Ok(Now()) && klass in classes
      ensures found == Find(Now(), chain[klass], id)
    {
      var c := klass;
      assert ChainOk(Now(), c);
      while id !in tables[classes[c].tbl]
        invariant c in classes && ChainOk(Now(), c)
        invariant Find(Now(), chain[c], id) == Find(Now(), chain[klass], id)
        decreases |chain[c]|
      {
        assert chain[c][0] == c;
        c := classes[c].super;
        if c == 0 { return None; }
        assert ChainOk(Now(), c);
      }
      return Some(Found(c, tables[classes[c].tbl][id]));
    }

    /** rb_get_method_body: walk the chain and store what is found, or that nothing is. */
    method GetMethodBody(klass: int, id: int) returns (r: Result)
      requires Sound() && klass in classes
      modifies cache
      ensures Sound() && (old(Valid()) ==> Valid()) && r == Lookup(Now(), klass, id)
      ensures EntryResult(cache[Slot(klass, id)]) == r && cache[Slot(klass, id)].klass == klass
      ensures cache[Slot(klass, id)].mid == id
    {
      var found := SearchMethod(klass, id);
      var ent := Slot(klass, id);
      if found.None? || found.value.entry.body.None? {
        cache[ent] := Entry(id, id, klass, klass, None, 0);
        return Absent;
      }
      var m := found.value.entry;
      var body := m.body.value;
      if body.FBody? {
        cache[ent] := Entry(id, body.mid, klass, body.orig, Some(body.head), m.noex);
        return Hit(body.orig, body.mid, body.head, m.noex);
      } else {
        cache[ent] := Entry(id, id, klass, found.value.origin, Some(body), m.noex);
        return Hit(found.value.origin, id, body, m.noex);
      }
    }

    /** The lookup of rb_call: from the cache when it is there. A hit is as good as a walk. */
    method Call(klass: int, mid: int) returns (r: Result)
      requires Sound() && klass in classes && mid != 0
      modifies cache
      ensures Sound() && (old(Valid()) ==> Valid() && r == Lookup(Now(), klass, mid))
    {
      var ent := cache[Slot(klass, mid)];
      if ent.mid == mid && ent.klass == klass {
        assert Valid() ==> EntryOk(Now(), cache[..][Slot(klass, mid)]);
        if ent.node.None? { return Absent; }
        return Hit(ent.origin, ent.mid0, ent.node.value, ent.noex);
      }
      r := GetMethodBody(klass, mid);
    }

    /** st_insert into a method table, with the cache cleared for the name before. */
    method Insert(klass: int, mid: int, m: Method)
      requires Sound() && klass in classes && OriginOk(Now(), m)
      modifies this`tables, cache
      ensures Sound() && (old(Valid()) ==> Valid()) && Now() == old(WithMethod(Now(), klass, mid, m))
      ensures Names(Now(), klass, mid) && tables[classes[klass].tbl][mid] == m
    {
      ghost var w, before := Now(), cache[..];
      ClearCacheById(mid);
      assert ChainOk(w, klass);
      tables := tables[classes[klass].tbl := tables[classes[klass].tbl][mid := m]];
      WithMethodOk(w, klass, mid, m);
      InsertTidy(w, Now(), classes[klass].tbl, mid, m);
      hide Ok, Tidy;
      if Coherent(w, before) { InsertIsCoherent(w, before, cache[..], klass, mid, m); }
    }

    /** rb_add_method; without a node it is rb_undef. */
    method AddMethod(klass: int, name: int, node: Option<Body>, visibility: int) returns (st: Status)
      requires Sound() && klass in classes && OriginOk(Now(), Method(visibility, node))
      modifies this`tables, cache
      ensures Sound() && (old(Valid()) ==> Valid()) && st == if classes[klass].frozen then FrozenError else Done
      ensures Now() == if st.FrozenError? then old(Now()) else
                old(WithMethod(Now(), klass, DefinedAs(classes[klass], name, node),
                               Method(Visibility(classes[klass], name, node, visibility), node)))
      ensures st.Done? ==> MethodDefined(Now(), classes[klass].singleton, klass, name, node, visibility)
    {
      var mid, noex := name, visibility;
      if !classes[klass].singleton && node.Some? && !node.value.ZSuper?
         && (mid == INITIALIZE || mid == INITIALIZE_COPY)
      {
        noex := Private(noex);
      } else if classes[klass].singleton && node.Some? && node.value.CFunc? && mid == ALLOCATE {
        mid := ID_ALLOCATOR;
      }
      if classes[klass].frozen { return FrozenError; }
      Insert(klass, mid, Method(noex, node));
      NowDefined(Now(), klass, name, node, visibility, mid, noex);
      st := Done;
    }

    /** rb_undef: a method that is there is undefined for klass and everything below it. */
    method Undef(klass: int, id: int) returns (st: Status)
      requires Sound() && klass in classes
      modifies this`tables, cache
      ensures Sound() && (old(Valid()) ==> Valid()) && klass in chain
      ensures st == UndefStatus(old(Now()), klass, id)
      ensures Now() == if !st.Done? then old(Now()) else old(WithMethod(Now(), klass, id, Method(NOEX_PUBLIC, None)))
      ensures st == if old(classes)[klass].frozen then FrozenError
                    else if old(Lookup(Now(), klass, id)) == Absent then UndefinedMethod else Done
      ensures st.Done? ==> Lookup(Now(), klass, id) == Absent
    {
      assert klass in chain;
      if classes[klass].frozen { return FrozenError; }
      var body := SearchMethod(klass, id);
      if body.None? || body.value.entry.body.None? { return UndefinedMethod; }
      st := AddMethod(klass, id, None, NOEX_PUBLIC);
      assert ChainOk(Now(), klass);
    }

    /** rb_alias: the new name gets the body the old one has now, and remembers where that is from. */
    method Alias(klass: int, name: int, def: int) returns (st: Status)
      requires Sound() && klass in classes
      modifies this`tables, cache
      ensures Sound() && (old(Valid()) ==> Valid())
      ensures st == AliasStatus(old(Now()), rbCObject, klass, name, def)
      ensures Now() == if !st.Done? || name == def then old(Now()) else
                old(var f := AliasTarget(Now(), rbCObject, klass, def).value;
                    WithMethod(Now(), klass, name, Method(f.entry.noex, Some(AliasBody(f, def)))))
      ensures st.FrozenError? <==> old(classes)[klass].frozen
      ensures st.UndefinedMethod? <==>
                && !old(classes)[klass].frozen && name != def && old(Lookup(Now(), klass, def)) == Absent
                && (old(classes)[klass].kind.Module? ==> old(Lookup(Now(), rbCObject, def)) == Absent)
      ensures st in {Done, FrozenError, UndefinedMethod}
      ensures st.Done? && name != def && old(Lookup(Now(), klass, def)) != Absent ==>
                Lookup(Now(), klass, name) == old(Lookup(Now(), klass, def))
      ensures st.Done? && name != def && old(Lookup(Now(), klass, def)) == Absent ==>
                Lookup(Now(), klass, name) == old(Lookup(Now(), rbCObject, def))
    {
      ghost var w := Now();
      AliasMeans(w, rbCObject, klass, def);
      hide Lookup, EntryResult;
      if classes[klass].frozen { return FrozenError; }
      if name == def { return Done; }
      var orig := SearchMethod(klass, def);
      if (orig.None? || orig.value.entry.body.None?) && classes[klass].kind.Module? {
        orig := SearchMethod(rbCObject, def);
      }
      if orig.None? || orig.value.entry.body.None? { return UndefinedMethod; }
      AliasKnown(Now(), rbCObject, klass, def);
      var body, mid, origin := orig.value.entry.body.value, def, orig.value.origin;
      if body.FBody? {
        mid, origin, body := body.mid, body.orig, body.head;
      }
      Insert(klass, name, Method(orig.value.entry.noex, Some(FBody(body, mid, origin))));
      OwnEntryFound(Now(), klass, name, Method(orig.value.entry.noex, Some(FBody(body, mid, origin))));
      st := Done;
    }

    // ---------- including modules ----------

    /** The inner loop of rb_include_module: the first entry for a table, and whether no superclass comes before it. */
    method FindEntry(klass: int, tbl: int) returns (p: int, ghost at: nat, movable: bool)
      requires Ok(Now()) && klass in classes
      ensures p == 0 ==> !Included(Now(), chain[klass], tbl)
      ensures p != 0 ==> FirstEntry(Now(), chain[klass], tbl, at, movable) && chain[klass][at] == p
    {
      assert ChainOk(Now(), klass);
      p, at, movable := classes[klass].super, 1, true;
      while p != 0
        invariant 1 <= at <= |chain[klass]|
        invariant if p == 0 then at == |chain[klass]| else p in classes && chain[klass][at..] == chain[p]
        invariant forall j :: 1 <= j < at ==> !IsEntry(Now(), chain[klass][j], tbl)
        invariant forall j :: 1 <= j < at ==> chain[klass][j] in classes
        invariant movable <==> forall j :: 1 <= j < at ==> !classes[chain[klass][j]].kind.Class?
        decreases |chain[klass]| - at
      {
        assert ChainOk(Now(), p);
        assert chain[klass][at] == chain[klass][at..][0] == p;
        if classes[p].kind.IClass? {
          if classes[p].tbl == tbl { return; }
        } else if classes[p].kind.Class? {
          movable := false;
        }
        assert chain[klass][at + 1..] == chain[klass][at..][1..];
        p, at := classes[p].super, at + 1;
      }
    }

    /** include_class_new, linked in behind c. */
    method AddEntry(c: int, tbl: int) returns (n: int)
      requires Ok(Now()) && c in classes
      modifies this`classes, this`chain
      ensures n != 0 && n !in old(classes) && Now() == Linked(old(Now()), c, n, tbl)
    {
      ghost var w := Now();
      ghost var bound := Above(classes.Keys + {0});
      assert bound !in classes && bound != 0;
      n :| n !in classes && n != 0;
      classes := classes[n := RClass(IClass, tbl, classes[c].super, false, false)][c := classes[c].(super := n)];
      chain := Linked(w, c, n, tbl).chain;
    }

    /** One round of the outer loop of rb_include_module. */
    method IncludeOne(ghost w0: World, klass: int, ghost m: int, ghost n: nat, mod: int, c0: int, ghost at0: nat,
          ghost changed0: bool)
      returns (c: int, ghost at: nat, changed: bool)
      requires CanInclude(w0, klass, m) && m in w0.chain
      requires Including(w0, Now(), klass, w0.chain[m], n, c0, at0, changed0)
      requires n < |w0.chain[m]| && Ok(Now()) && klass in classes
      requires mod == w0.chain[m][n] && mod in classes && classes[mod].tbl != classes[klass].tbl
      modifies this`classes, this`chain
      ensures Including(w0, Now(), klass, w0.chain[m], n + 1, c, at, changed0 || changed)
    {
      hide Including, CanInclude, Included, InOwnPart, IsEntry, Linked, ChainOk, FirstEntry;
      ghost var w := Now();
      var p, j, movable := FindEntry(klass, classes[mod].tbl);
      if p != 0 {
        IncludeSkips(w0, w, klass, m, n, c0, at0, changed0, j, movable);
        return if movable then p else c0, if movable then j else at0, false;
      }
      c := InsertOne(w0, klass, m, n, mod, c0, at0, changed0);
      at, changed := at0 + 1, true;
    }

    /** And on to the next module. */
    method IncludeNext(ghost w0: World, klass: int, ghost m: int, ghost n: nat, mod: int, c0: int, ghost at0: nat,
          ghost changed0: bool)
      returns (c: int, ghost at: nat, changed: bool, next: int)
      requires CanInclude(w0, klass, m) && m in w0.chain
      requires Including(w0, Now(), klass, w0.chain[m], n, c0, at0, changed0)
      requires n < |w0.chain[m]| && Ok(Now()) && klass in classes
      requires mod == w0.chain[m][n] && mod in classes && classes[mod].tbl != classes[klass].tbl
      modifies this`classes, this`chain
      ensures Including(w0, Now(), klass, w0.chain[m], n + 1, c, at, changed0 || changed)
      ensures next == if n + 1 < |w0.chain[m]| then w0.chain[m][n + 1] else 0
    {
      hide Including, CanInclude, Ok;
      c, at, changed := IncludeOne(w0, klass, m, n, mod, c0, at0, changed0);
      NextLink(w0, Now(), klass, m, n, n + 1, c, at, changed0 || changed);
      next := classes[mod].super;
    }

    method InsertOne(ghost w0: World, klass: int, ghost m: int, ghost n: nat, mod: int, c0: int, ghost at0: nat,
          ghost changed0: bool) returns (c: int)
      requires CanInclude(w0, klass, m) && m in w0.chain
      requires Including(w0, Now(), klass, w0.chain[m], n, c0, at0, changed0)
      requires n < |w0.chain[m]| && klass in chain
      requires mod == w0.chain[m][n] && mod in classes && klass in classes && classes[mod].tbl != classes[klass].tbl
      requires !Included(Now(), chain[klass], classes[mod].tbl)
      modifies this`classes, this`chain
      ensures Including(w0, Now(), klass, w0.chain[m], n + 1, c, at0 + 1, true)
    {
      hide Including, CanInclude, Included, InOwnPart, IsEntry, Linked, Ok;
      ghost var w := Now();
      LoopFacts(w0, w, klass, m, n, c0, at0, changed0);
      c := AddEntry(c0, classes[mod].tbl);
      IncludeInserts(w0, w, klass, m, n, c0, at0, changed0, c);
    }

    /**
     * rb_include_module. When it succeeds, all modules have their places in the chain of klass, and the
     * cache has been cleared if anything changed. When it finds klass among the modules, it fails, with
     * the modules before klass included but the cache as it was: right only if no name is overtaken.
     */
    method IncludeModule(klass: int, m: int) returns (st: Status)
      requires Sound() && klass in classes && m in classes && !classes[klass].kind.IClass?
      modifies this`classes, this`chain, cache
      ensures Sound() && m in old(chain) && st == IncludeStatus(old(Now()), klass, m)
      ensures st.FrozenError? <==> old(classes)[klass].frozen
      ensures st.TypeError? <==> !old(classes)[klass].frozen && klass != m && !old(classes)[m].kind.Module?
      ensures IncludeOutcome(old(Now()), Now(), klass, m, st)
      ensures st.Done? && Now() != old(Now()) ==> Valid()
      ensures !st.Done? || Now() == old(Now()) ==> cache[..] == old(cache[..])
      ensures old(Valid()) && !Overtakes(old(Now()), klass, m, st) ==> Valid()
    {
      hide Included, IncludeResult, KlassAt, Coherent, ChainOk, OwnLinks, OwnTables, IsModule, KnownOrigins;
      hide SomethingOvertaken;
      if classes[klass].frozen { return FrozenError; }
      if klass == m { return Done; }
      if !classes[m].kind.Module? { return TypeError; }
      st := IncludeOther(klass, m);
    }

    /** A second inclusion of the same module changes nothing. */
    method IncludeTwice(klass: int, m: int) returns (st: Status, again: Status, ghost between: World)
      requires Sound() && klass in classes && m in classes && !classes[klass].kind.IClass?
      modifies this`classes, this`chain, cache
      ensures Sound() && IncludeOutcome(old(Now()), between, klass, m, st)
      ensures st.Done? ==> again.Done? && Now() == between
    {
      hide Included, IncludeResult, KlassAt, Coherent, ChainOk, Tidy, SomethingOvertaken, Overtakes;
      ghost var w0 := Now();
      st := IncludeModule(klass, m);
      between, again := Now(), st;
      ClassesStay(w0, between, klass, m, st);
      if st.Done? {
        again := IncludeModule(klass, m);
        SecondChangesNothing(w0, between, Now(), klass, m, again);
      }
    }

    method IncludeOther(klass: int, m: int) returns (st: Status)
      requires Sound() && CanInclude(Now(), klass, m) && m in chain && klass in classes
      modifies this`classes, this`chain, cache
      ensures Sound() && klass in old(classes)
      ensures IncludeResult(old(Now()), Now(), klass, old(chain)[m], KlassAt(old(Now()), klass, old(chain)[m], 0))
      ensures st == if KlassAt(old(Now()), klass, old(chain)[m], 0) < |old(chain)[m]| then CyclicInclude else Done
      ensures st.Done? && Now() != old(Now()) ==> Valid()
      ensures !st.Done? || Now() == old(Now()) ==> cache[..] == old(cache[..])
      ensures old(Valid()) && !Overtakes(old(Now()), klass, m, st) ==> Valid()
    {
      hide CanInclude, Included, Ok, Tidy, IsModule, IncludeResult, KlassAt, Coherent, SomethingOvertaken;
      ghost var w0, before := Now(), cache[..];
      var cyclic, changed := IncludeWalk(klass, m);
      if cyclic {
        StillRight(w0, Now(), klass, m, before);
        return CyclicInclude;
      }
      st := Done;
      if changed {
        ClearCache();
        EmptyIsCoherent(Now(), cache[..]);
      }
    }

    /** The outer loop of rb_include_module. */
    method IncludeWalk(klass: int, m: int) returns (cyclic: bool, changed: bool)
      requires CanInclude(Now(), klass, m) && klass in classes && m in chain && rbCObject in classes
      modifies this`classes, this`chain
      ensures Ok(Now()) && Tidy(Now()) && rbCObject in classes && changed == (Now() != old(Now()))
      ensures IncludeResult(old(Now()), Now(), klass, old(chain)[m], KlassAt(old(Now()), klass, old(chain)[m], 0))
      ensures cyclic == (KlassAt(old(Now()), klass, old(chain)[m], 0) < |old(chain)[m]|)
    {
      hide Including, Included, ChainOk, Tidy, IsModule, IncludeResult, KlassAt;
      ghost var w0 := Now();
      ghost var n: nat, c: int, at: nat;
      cyclic, changed, n, c, at := IncludeLoop(klass, m);
      LoopEnds(w0, Now(), klass, w0.chain[m], n, c, at, changed, rbCObject);
      IncludeStops(w0, Now(), klass, w0.chain[m], n, c, at, changed);
    }

    method IncludeLoop(klass: int, m: int) returns (cyclic: bool, changed: bool, ghost n: nat, ghost c: int,
          ghost at: nat)
      requires CanInclude(Now(), klass, m) && klass in classes && m in chain
      modifies this`classes, this`chain
      ensures Including(old(Now()), Now(), klass, old(chain)[m], n, c, at, changed)
      ensures n <= |old(chain)[m]| && cyclic == (n < |old(chain)[m]|) && klass in old(classes)
      ensures cyclic ==> var q := old(chain)[m][n]; q in old(classes) && old(classes)[q].tbl == old(classes)[klass].tbl
    {
      hide Including, ChainOk, Tidy, CanInclude;
      ghost var w0, ms := Now(), chain[m];
      var mod, c' := m, klass;
      n, at, cyclic, changed := 0, 0, false, false;
      IncludeStarts(w0, klass, m);
      ModuleHead(w0, klass, m);
      while mod != 0 && !cyclic
        invariant Including(w0, Now(), klass, ms, n, c', at, changed)
        invariant n <= |ms| && mod == if n < |ms| then ms[n] else 0
        invariant cyclic ==> n < |ms| && ms[n] in w0.classes && w0.classes[ms[n]].tbl == w0.classes[klass].tbl
        decreases |ms| - n, !cyclic
      {
        LoopFacts(w0, Now(), klass, m, n, c', at, changed);
        if classes[klass].tbl == classes[mod].tbl {
          cyclic := true;
        } else {
          var isNew;
          c', at, isNew, mod := IncludeNext(w0, klass, m, n, mod, c', at, changed);
          changed, n := changed || isNew, n + 1;
        }
      }
      LoopFacts(w0, Now(), klass, m, n, c', at, changed);
      c := c';
    }
  }

  lemma ModuleHead(w: World, klass: int, m: int)
    requires CanInclude(w, klass, m)
    ensures m in w.chain && w.chain[m] != [] && w.chain[m][0] == m && klass in w.classes && m != 0
  {
    ModuleChain(w, klass, m);
  }

  /** What rb_include_module does to classes and chains. */
  ghost predicate IncludeOutcome(w0: World, w: World, klass: int, m: int, st: Status)
    requires klass in w0.classes && m in w0.chain
  {
    if (st.Done? && klass != m) || st.CyclicInclude? then
      IncludeResult(w0, w, klass, w0.chain[m], KlassAt(w0, klass, w0.chain[m], 0))
    else w == w0
  }

  /** The inclusion raises after a name has been overtaken. */
  ghost predicate Overtakes(w0: World, klass: int, m: int, st: Status)
    requires klass in w0.classes && m in w0.chain
  {
    && st.CyclicInclude? && klass in w0.chain && w0.chain[klass] != []
    && (forall i :: 0 <= i < |w0.chain[m]| ==> w0.chain[m][i] in w0.classes)
    && SomethingOvertaken(w0, klass, w0.chain[m], KlassAt(w0, klass, w0.chain[m], 0))
  }

  lemma StillRight(w0: World, w: World, klass: int, m: int, cache: seq<Entry>)
    requires CanInclude(w0, klass, m) && Ok(w) && m in w0.chain && klass in w0.classes
    requires IncludeResult(w0, w, klass, w0.chain[m], KlassAt(w0, klass, w0.chain[m], 0))
    ensures Coherent(w0, cache) && !Overtakes(w0, klass, m, CyclicInclude) ==> Coherent(w, cache)
  {
    hide CanInclude, SomethingOvertaken, Coherent, KlassAt, Ok;
    StaleIffOvertaken(w0, w, klass, m, KlassAt(w0, klass, w0.chain[m], 0));
    assert klass in w0.chain && w0.chain[klass] != [];
    hide IncludeResult;
    if Coherent(w0, cache) && !Overtakes(w0, klass, m, CyclicInclude) {
      NothingOvertaken(w0, w, klass, m, KlassAt(w0, klass, w0.chain[m], 0), cache);
    }
  }

  /** The outcome of rb_include_module. */
  ghost function IncludeStatus(w: World, klass: int, m: int): Status
    requires klass in w.classes && m in w.classes && m in w.chain
  {
    if w.classes[klass].frozen then FrozenError
    else if klass == m then Done
    else if !w.classes[m].kind.Module? then TypeError
    else if KlassAt(w, klass, w.chain[m], 0) < |w.chain[m]| then CyclicInclude
    else Done
  }

  lemma ClassesStay(w0: World, w: World, klass: int, m: int, st: Status)
    requires Ok(w0) && klass in w0.classes && m in w0.classes && m in w0.chain && IncludeOutcome(w0, w, klass, m, st)
    ensures klass in w.classes && m in w.classes && w.classes[klass].kind == w0.classes[klass].kind
    ensures w.classes[klass].frozen == w0.classes[klass].frozen && w.classes[m].kind == w0.classes[m].kind
  {
    if w != w0 {
      SoFarParts(w0, w, klass, w0.chain[m], KlassAt(w0, klass, w0.chain[m], 0));
      hide IncludeResult;
      assert w.classes[klass] == w0.classes[klass].(super := w.classes[klass].super);
      assert w.classes[m] == w0.classes[m].(super := w.classes[m].super);
    }
  }

  lemma SecondChangesNothing(w0: World, w: World, x: World, klass: int, m: int, st: Status)
    requires Ok(w0) && Tidy(w0) && Ok(w) && Tidy(w) && klass in w0.classes && !w0.classes[klass].kind.IClass?
    requires m in w0.classes && m in w0.chain && klass in w.classes && m in w.classes && m in w.chain
    requires IncludeStatus(w0, klass, m).Done? && IncludeOutcome(w0, w, klass, m, Done)
    requires st == IncludeStatus(w, klass, m) && IncludeOutcome(w, x, klass, m, st)
    ensures st.Done? && x == w
  {
    hide ChainOk, OwnLinks, OwnTables, IsModule, KnownOrigins, KlassAt, IncludeResult, SomeNew;
    ClassesStay(w0, w, klass, m, Done);
    if klass != m {
      IncludedAlready(w0, w, klass, m);
      NothingNew(w, x, klass, w.chain[m], |w.chain[m]|);
    }
  }

  lemma NothingNew(w: World, x: World, klass: int, ms: seq<int>, n: nat)
    requires IncludeResult(w, x, klass, ms, n) && !SomeNew(w, klass, ms, n)
    ensures x == w
  {
  }

  /** Below whatever class, a new class with an empty table. */
  ghost predicate NewClassMade(w: World, x: World, kind: Kind, super: int, singleton: bool, c: int) {
    && c !in w.classes && c != 0 && (super == 0 || super in w.chain) && c in x.classes && x.classes[c].tbl !in w.tables
    && x == World(w.classes[c := RClass(kind, x.classes[c].tbl, super, false, singleton)],
                  w.tables[x.classes[c].tbl := map[]],
                  w.chain[c := [c] + if super == 0 then [] else w.chain[super]])
  }

  lemma NewClassOk(w: World, x: World, kind: Kind, super: int, singleton: bool, c: int)
    requires Ok(w) && Tidy(w) && NewClassMade(w, x, kind, super, singleton, c) && !kind.IClass?
    requires if kind.Module? then super == 0 else super in w.classes && w.classes[super].kind.Class?
    ensures Ok(x) && Tidy(x)
  {
    assert Ok(x) by {
      forall d | d in x.classes ensures ChainOk(x, d) {
        if d != c { assert ChainOk(w, d); }
      }
    }
    hide Ok, Tidy;
    NewTidy(w, x, c, x.classes[c].tbl);
  }

  /** A new class changes no chain; what is cached is about older ones. */
  lemma NewClassCoherent(w: World, x: World, kind: Kind, super: int, singleton: bool, c: int, cache: seq<Entry>)
    requires Ok(w) && NewClassMade(w, x, kind, super, singleton, c)
    ensures Coherent(w, cache) ==> Coherent(x, cache)
  {
    if Coherent(w, cache) {
      forall k | 0 <= k < |cache| && cache[k].mid != 0 ensures EntryOk(x, cache[k]) {
        assert EntryOk(w, cache[k]);
        LookupInNew(w, x, kind, super, singleton, c, cache[k].klass, cache[k].mid);
      }
    }
  }

  lemma LookupInNew(w: World, x: World, kind: Kind, super: int, singleton: bool, c: int, d: int, mid: int)
    requires Ok(w) && NewClassMade(w, x, kind, super, singleton, c) && d in w.classes
    ensures d in x.classes && Lookup(x, d, mid) == Lookup(w, d, mid)
  {
    var s := w.chain[d];
    forall i | 0 <= i < |s| ensures TableOf(x, s[i]) == TableOf(w, s[i]) {
      ChainFrom(w, d, i);
      assert ChainOk(w, s[i]);
    }
    FindSameTables(w, x, s, mid);
  }

  /** A new class finds what its superclass finds; a new module finds nothing. */
  lemma NewClassInherits(w: World, x: World, kind: Kind, super: int, singleton: bool, c: int, mid: int)
    requires Ok(w) && Ok(x) && NewClassMade(w, x, kind, super, singleton, c) && (super != 0 ==> super in w.classes)
    ensures c in x.classes && Lookup(x, c, mid) == if super == 0 then Absent else Lookup(w, super, mid)
  {
    assert ChainOk(x, c);
    var s := x.chain[c];
    assert !Names(x, c, mid);
    assert Find(x, s, mid) == Find(x, s[1..], mid);
    if super != 0 {
      assert s[1..] == x.chain[super];
      LookupInNew(w, x, kind, super, singleton, c, super, mid);
    } else {
      assert s[1..] == [];
    }
  }

  /** The class does not accept changes from now on. */
  function FrozenClass(w: World, klass: int): World
    requires klass in w.classes
  {
    World(w.classes[klass := w.classes[klass].(frozen := true)], w.tables, w.chain)
  }

  lemma FrozenOk(w: World, klass: int)
    requires Ok(w) && Tidy(w) && klass in w.classes
    ensures Ok(FrozenClass(w, klass)) && Tidy(FrozenClass(w, klass))
  {
    assert Ok(FrozenClass(w, klass)) by {
      hide OwnLinks, OwnTables, KnownOrigins, ModulesOk;
      forall d | d in w.classes ensures ChainOk(FrozenClass(w, klass), d) { assert ChainOk(w, d); }
    }
    hide Ok;
    assert OwnLinks(FrozenClass(w, klass)) by { hide OwnTables, KnownOrigins, ModulesOk; }
    assert OwnTables(FrozenClass(w, klass)) by { hide OwnLinks, KnownOrigins, ModulesOk; }
    hide OwnLinks, OwnTables;
    assert ModulesOk(FrozenClass(w, klass)) by {
      hide KnownOrigins;
      forall m | m in w.classes && w.classes[m].kind.Module? ensures IsModule(FrozenClass(w, klass), m) {
        assert IsModule(w, m);
      }
    }
  }

  lemma LookupInFrozen(w: World, klass: int, d: int, mid: int)
    requires klass in w.classes
    ensures Lookup(FrozenClass(w, klass), d, mid) == Lookup(w, d, mid)
  {
    if d in w.chain { FindSameTables(w, FrozenClass(w, klass), w.chain[d], mid); }
  }

  lemma FrozenCoherent(w: World, klass: int, cache: seq<Entry>)
    requires klass in w.classes
    ensures Coherent(w, cache) ==> Coherent(FrozenClass(w, klass), cache)
  {
    if Coherent(w, cache) {
      forall k | 0 <= k < |cache| ensures EntryOk(FrozenClass(w, klass), cache[k]) {
        assert EntryOk(w, cache[k]);
        LookupInFrozen(w, klass, cache[k].klass, cache[k].mid);
      }
    }
  }

  /** What Find finds is in a table along the chain, and it finds something if there is something. */
  lemma {:induction false} FindInTables(w: World, s: seq<int>, mid: int)
    ensures match Find(w, s, mid)
            case None => forall i :: 0 <= i < |s| ==> mid !in TableOf(w, s[i])
            case Some(f) => mid in TableOf(w, f.origin) && f.entry == TableOf(w, f.origin)[mid]
  {
    if s != [] {
      FindInTables(w, s[1..], mid);
      if Find(w, s, mid).None? {
        forall i | 0 <= i < |s| ensures mid !in TableOf(w, s[i]) {
          if i > 0 { assert s[i] == s[1..][i - 1]; }
        }
      }
    }
  }

  /** Beside Object, module 16 includes module 8 and defines method 5; it was found that 8 has no method 5. */
  ghost predicate TwoModules(w: World, e: Entry) {
    && w.classes == map[4 := RClass(Class, 0, 0, false, false), 8 := RClass(Module, 1, 0, false, false),
                        16 := RClass(Module, 2, 24, false, false), 24 := RClass(IClass, 1, 0, false, false)]
    && w.tables == map[0 := map[], 1 := map[], 2 := map[5 := Method(NOEX_PUBLIC, Some(Other(0)))]]
    && w.chain == map[4 := [4], 8 := [8], 16 := [16, 24], 24 := [24]]
    && e == Entry(5, 5, 8, 8, None, 0)
  }

  /** An interpreter whose Object is 4 may be in this state. */
  lemma TwoModulesOk(w: World, e: Entry)
    requires TwoModules(w, e)
    ensures Ok(w) && Tidy(w) && 4 in w.classes && w.classes[4].kind.Class?
    ensures CanInclude(w, 8, 16) && EntryOk(w, e)
    ensures 16 in w.chain && KlassAt(w, 8, w.chain[16], 0) == 1
  {
    assert ChainOk(w, 4) && ChainOk(w, 8) && ChainOk(w, 16) && ChainOk(w, 24);
    TwoModulesTidy(w, e);
    hide Tidy;
    assert TableOf(w, 8) == map[];
    assert Find(w, [8], 5) == Find(w, [8][1..], 5) == None;
  }

  lemma TwoModulesTidy(w: World, e: Entry)
    requires TwoModules(w, e)
    ensures Tidy(w)
  {
    assert OwnLinks(w) by { hide OwnTables, ModulesOk, KnownOrigins; }
    assert OwnTables(w) by { hide OwnLinks, ModulesOk, KnownOrigins; }
    hide OwnLinks, OwnTables;
    assert IsModule(w, 8) && IsModule(w, 16);
    hide IsModule;
  }

  /**
   * When rb_include_module finds klass among the modules after it has included others, the cache stays
   * as it was and can be wrong: let 8 include 16; whatever the failed inclusion leaves, method 5 is
   * there now and the cache says it is not.
   */
  lemma CyclicIncludeLeavesStale(w0: World, e: Entry, w: World)
    requires TwoModules(w0, e) && Ok(w) && IncludeResult(w0, w, 8, w0.chain[16], 1)
    ensures !EntryOk(w, e)
  {
    hide OnlyKlass, Realised, Merge, ChainOk, FirstEntry;
    var s := w.chain[8];
    SoFarParts(w0, w, 8, w0.chain[16], 1);
    var i := FirstIncluded(w0, w);
    hide IncludeResult, Included, Subsequence, NewOnce;
    FoundInTwo(w, s, i);
    assert Lookup(w, 8, 5) == ResultOf(Find(w, s, 5), 5);
  }

  lemma FirstIncluded(w0: World, w: World) returns (i: nat)
    requires w0.classes.Keys == {4, 8, 16, 24} && w0.classes[16].tbl == 2 && 16 in w0.chain && 0 < |w0.chain[16]|
    requires w0.chain[16][0] == 16
    requires IncludeResult(w0, w, 8, w0.chain[16], 1)
    ensures 1 <= i < |w.chain[8]| && IsEntry(w, w.chain[8][i], 2)
  {
    assert w0.classes[16].tbl in Tables(w0, w0.chain[16], 1);
    assert Included(w, w.chain[8], 2);
    i :| 1 <= i < |w.chain[8]| && IsEntry(w, w.chain[8][i], 2);
  }

  lemma FoundInTwo(w: World, s: seq<int>, i: nat)
    requires w.tables == map[0 := map[], 1 := map[], 2 := map[5 := Method(NOEX_PUBLIC, Some(Other(0)))]]
    requires i < |s| && IsEntry(w, s[i], 2)
    ensures ResultOf(Find(w, s, 5), 5) != Absent
  {
    assert 5 in TableOf(w, s[i]);
    FindInTables(w, s, 5);
  }

  lemma EmptyIsCoherent(w: World, cache: seq<Entry>)
    requires forall k :: 0 <= k < |cache| ==> cache[k].mid == 0
    ensures Coherent(w, cache)
  {
  }

  lemma LoopFacts(w0: World, w: World, klass: int, m: int, n: nat, c: int, at: nat, changed: bool)
    requires CanInclude(w0, klass, m) && m in w0.chain && Including(w0, w, klass, w0.chain[m], n, c, at, changed)
    ensures Ok(w) && klass in w.classes && klass in w.chain && c in w.classes
    ensures klass in w0.classes && w.classes[klass].tbl == w0.classes[klass].tbl
    ensures n < |w0.chain[m]| ==> var q := w0.chain[m][n];
              q in w.classes && q in w0.classes && q != 0 && w.classes[q].tbl == w0.classes[q].tbl
  {
    ModuleChain(w0, klass, m);
    SoFarParts(w0, w, klass, w0.chain[m], n);
    hide ChainOk, Tidy, Placed, OnlyKlass, IncludedSoFar, SomeNew, IsModule, CanInclude, SameClasses;
    SameClass(w0, w, klass);
    if n < |w0.chain[m]| { SameClass(w0, w, w0.chain[m][n]); }
  }

  /** The super link of a module still leads to the next one. */
  lemma NextLink(w0: World, w: World, klass: int, m: int, i: nat, n: nat, c: int, at: nat, changed: bool)
    requires CanInclude(w0, klass, m) && m in w0.chain && Including(w0, w, klass, w0.chain[m], n, c, at, changed)
    requires i < |w0.chain[m]|
    ensures w0.chain[m][i] in w.classes
    ensures w.classes[w0.chain[m][i]].super == if i + 1 < |w0.chain[m]| then w0.chain[m][i + 1] else 0
  {
    hide ChainOk, Tidy, Placed, OnlyKlass, IncludedSoFar, SomeNew, IsModule, CanInclude, SameClasses;
    ModuleStays(w0, w, klass, m);
    ChainFrom(w, m, i);
    LastLink(w, m, i);
    if i + 1 < |w0.chain[m]| { NextInChain(w, m, i + 1); }
  }

  lemma LastLink(w: World, c: int, i: nat)
    requires Ok(w) && c in w.classes && i < |w.chain[c]|
    ensures w.chain[c][i] in w.classes && (i + 1 == |w.chain[c]| ==> w.classes[w.chain[c][i]].super == 0)
  {
    ChainFrom(w, c, i);
    assert ChainOk(w, w.chain[c][i]);
    var q := w.classes[w.chain[c][i]].super;
    if q != 0 { assert ChainOk(w, q); }
  }

  lemma LoopEnds(w0: World, w: World, klass: int, ms: seq<int>, n: nat, c: int, at: nat, changed: bool, object_: int)
    requires Including(w0, w, klass, ms, n, c, at, changed) && object_ in w0.classes
    ensures Ok(w) && Tidy(w) && object_ in w.classes
  {
    SoFarParts(w0, w, klass, ms, n);
    hide Ok, Tidy, Placed, OnlyKlass, IncludedSoFar, SomeNew;
  }

  /**
   * After rb_add_method, klass finds just the body given, or nothing where none was given. An alias is
   * known by its own name and origin. Initializers are private, unless the class is a singleton class or the
   * body stands for super; allocate in C of a singleton class has another name.
   */
  ghost predicate MethodDefined(w: World, singleton: bool, klass: int, name: int, node: Option<Body>, visibility: int) {
    match node
    case None => Lookup(w, klass, name) == Absent
    case Some(FBody(head, mid0, orig)) =>
      Lookup(w, klass, name) == Hit(orig, mid0, head, InitNoex(singleton, name, visibility))
    case Some(ZSuper) => Lookup(w, klass, name) == Hit(klass, name, ZSuper, visibility)
    case Some(Other(n)) => Lookup(w, klass, name) == Hit(klass, name, Other(n), InitNoex(singleton, name, visibility))
    case Some(CFunc(f)) =>
      if singleton && name == ALLOCATE
      then Lookup(w, klass, ID_ALLOCATOR) == Hit(klass, ID_ALLOCATOR, CFunc(f), visibility)
      else Lookup(w, klass, name) == Hit(klass, name, CFunc(f), InitNoex(singleton, name, visibility))
  }

  function InitNoex(singleton: bool, name: int, noex: int): (r: int)
    ensures singleton || (name != INITIALIZE && name != INITIALIZE_COPY) ==> r == noex
    ensures !singleton && (name == INITIALIZE || name == INITIALIZE_COPY) ==>
              (r / 2) % 2 == 1 && r % 2 == noex % 2 && r / 4 == noex / 4
  {
    if !singleton && (name == INITIALIZE || name == INITIALIZE_COPY) then Private(noex) else noex
  }

  lemma NowDefined(x: World, klass: int, name: int, node: Option<Body>, visibility: int, mid: int, noex: int)
    requires Ok(x) && klass in x.classes && mid == DefinedAs(x.classes[klass], name, node)
    requires noex == Visibility(x.classes[klass], name, node, visibility)
    requires Names(x, klass, mid) && x.tables[x.classes[klass].tbl][mid] == Method(noex, node)
    ensures MethodDefined(x, x.classes[klass].singleton, klass, name, node, visibility)
  {
    hide Ok, Lookup;
    OwnEntryFound(x, klass, mid, Method(noex, node));
  }

  /** The name rb_add_method really defines. */
  function DefinedAs(c: RClass, name: int, node: Option<Body>): int {
    if c.singleton && node.Some? && node.value.CFunc? && name == ALLOCATE then ID_ALLOCATOR else name
  }

  /** Initializers are private, wherever they are defined. */
  function Visibility(c: RClass, name: int, node: Option<Body>, noex: int): int {
    if !c.singleton && node.Some? && !node.value.ZSuper? && (name == INITIALIZE || name == INITIALIZE_COPY)
    then Private(noex) else noex
  }

  /** The method an alias names: in a module also what Object has. */
  function AliasTarget(w: World, rbCObject: int, klass: int, def: int): Option<Found> {
    var own := if klass in w.chain then Find(w, w.chain[klass], def) else None;
    if own.Some? && own.value.entry.body.Some? then own
    else if klass in w.classes && w.classes[klass].kind.Module? && rbCObject in w.chain then
      var other := Find(w, w.chain[rbCObject], def);
      if other.Some? && other.value.entry.body.Some? then other else None
    else None
  }

  /** An alias of an alias names the method behind it. */
  function AliasBody(f: Found, def: int): Body
    requires f.entry.body.Some?
  {
    match f.entry.body.value
    case FBody(head, mid, orig) => FBody(head, mid, orig)
    case body => FBody(body, def, f.origin)
  }

  ghost function UndefStatus(w: World, klass: int, id: int): Status
    requires klass in w.classes && klass in w.chain
  {
    var found := Find(w, w.chain[klass], id);
    if w.classes[klass].frozen then FrozenError
    else if found.None? || found.value.entry.body.None? then UndefinedMethod
    else Done
  }

  ghost function AliasStatus(w: World, rbCObject: int, klass: int, name: int, def: int): Status
    requires klass in w.classes
  {
    if w.classes[klass].frozen then FrozenError
    else if name != def && AliasTarget(w, rbCObject, klass, def).None? then UndefinedMethod
    else Done
  }

  /** The method an alias names is what a call of the old name finds. */
  lemma AliasMeans(w: World, rbCObject: int, klass: int, def: int)
    requires Ok(w) && klass in w.classes && rbCObject in w.classes
    ensures var f := AliasTarget(w, rbCObject, klass, def);
            && (f.None? <==> Lookup(w, klass, def) == Absent
                             && (w.classes[klass].kind.Module? ==> Lookup(w, rbCObject, def) == Absent))
            && (f.Some? ==> f.value.entry.body.Some? && var b := AliasBody(f.value, def);
                  b.FBody? && Hit(b.orig, b.mid, b.head, f.value.entry.noex)
                    == if Lookup(w, klass, def) != Absent then Lookup(w, klass, def) else Lookup(w, rbCObject, def))
  {
  }

  /** What an alias gets names a class as its origin. */
  lemma AliasKnown(w: World, rbCObject: int, klass: int, def: int)
    requires Ok(w) && KnownOrigins(w) && klass in w.classes && AliasTarget(w, rbCObject, klass, def).Some?
    ensures var f := AliasTarget(w, rbCObject, klass, def).value;
            f.entry.body.Some? && OriginOk(w, Method(f.entry.noex, Some(AliasBody(f, def))))
  {
    FindKnown(w, klass, def);
    if rbCObject in w.classes { FindKnown(w, rbCObject, def); }
  }

  /** A new method for a name, in whatever table: clearing the name everywhere is enough. */
  lemma InsertIsCoherent(w: World, before: seq<Entry>, after: seq<Entry>, klass: int, mid: int, m: Method)
    requires Ok(w) && Coherent(w, before) && klass in w.classes && |after| == |before|
    requires forall k :: 0 <= k < |before| ==>
               after[k] == if before[k].mid == mid then before[k].(mid := 0) else before[k]
    ensures Coherent(WithMethod(w, klass, mid, m), after)
  {
    var x := WithMethod(w, klass, mid, m);
    assert ChainOk(w, klass);
    forall k | 0 <= k < |after| ensures EntryOk(x, after[k]) {
      assert EntryOk(w, before[k]);
      if after[k].mid != 0 {
        FindOtherName(w, x, w.chain[after[k].klass], after[k].mid, mid);
      }
    }
  }
}
