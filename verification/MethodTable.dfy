/** Classes, modules and their method tables, and the lookup of a method along the super chain. */
module MethodTable {

  datatype Option<T> = None | Some(value: T)

  /** T_CLASS, T_MODULE, and T_ICLASS, the entry of an included module in the chain of its includer. */
  datatype Kind = Class | Module | IClass

  /**
   * struct RClass. tbl is the method table, which an included module shares with its entries. super is 0
   * at the end.
   */
  datatype RClass = RClass(kind: Kind, tbl: int, super: int, frozen: bool, singleton: bool)

  /** The body of a method: an alias (NODE_FBODY) keeps the body, name and origin of the method it names. */
  datatype Body = CFunc(code: int) | ZSuper | Other(code: int) | FBody(head: Body, mid: int, orig: int)

  /** A table entry; without a body the method is undefined on purpose. */
  datatype Method = Method(noex: int, body: Option<Body>)

  datatype Found = Found(origin: int, entry: Method)

  /** chain is the sequence of classes a lookup visits. */
  datatype World = World(classes: map<int, RClass>, tables: map<int, map<int, Method>>, chain: map<int, seq<int>>)

  predicate ChainOk(w: World, c: int)
    requires c in w.classes
  {
    && c in w.chain && w.classes[c].tbl in w.tables
    && if w.classes[c].super == 0 then w.chain[c] == [c]
       else w.classes[c].super in w.classes && w.classes[c].super in w.chain
            && w.chain[c] == [c] + w.chain[w.classes[c].super]
  }

  predicate Ok(w: World) {
    w.chain.Keys == w.classes.Keys && 0 !in w.classes && forall c :: c in w.classes ==> ChainOk(w, c)
  }

  /** The method table of a class. */
  function TableOf(w: World, c: int): map<int, Method> {
    if c in w.classes && w.classes[c].tbl in w.tables then w.tables[w.classes[c].tbl] else map[]
  }

  /** The first entry for mid along a chain. */
  function Find(w: World, s: seq<int>, mid: int): Option<Found> {
    if s == [] then None
    else if mid in TableOf(w, s[0]) then Some(Found(s[0], TableOf(w, s[0])[mid]))
    else Find(w, s[1..], mid)
  }

  /** What a call gets: a body with its origin, original name and visibility, or method_missing. */
  datatype Result = Absent | Hit(origin: int, mid0: int, body: Body, noex: int)

  function ResultOf(found: Option<Found>, mid: int): Result {
    if found.None? || found.value.entry.body.None? then Absent
    else
      var m := found.value.entry;
      match m.body.value
      case FBody(head, mid0, orig) => Hit(orig, mid0, head, m.noex)
      case body => Hit(found.value.origin, mid, body, m.noex)
  }

  /** The meaning of a method name: a fresh walk of the chain. */
  function Lookup(w: World, c: int, mid: int): Result {
    if c in w.chain then ResultOf(Find(w, w.chain[c], mid), mid) else Absent
  }

  // ---------- changing tables ----------

  /** The table of klass has a new entry. */
  function WithMethod(w: World, klass: int, mid: int, m: Method): World
    requires klass in w.classes
  {
    World(w.classes, w.tables[w.classes[klass].tbl := TableOf(w, klass)[mid := m]], w.chain)
  }

  /** A table changed for one name only: other names mean what they meant. */
  lemma {:induction false} FindOtherName(w: World, x: World, s: seq<int>, mid: int, name: int)
    requires x.classes == w.classes && x.tables.Keys == w.tables.Keys && mid != name
    requires forall t, m :: t in w.tables && m != name ==> (m in x.tables[t] <==> m in w.tables[t])
    requires forall t, m :: t in w.tables && m != name && m in w.tables[t] ==> x.tables[t][m] == w.tables[t][m]
    ensures Find(x, s, mid) == Find(w, s, mid)
  {
    if s != [] { FindOtherName(w, x, s[1..], mid, name); }
  }

  // ---------- the cache ----------

  /** struct cache_entry; mid is 0 when the entry is empty, node is None when the name is known to be missing. */
  datatype Entry = Entry(mid: int, mid0: int, klass: int, origin: int, node: Option<Body>, noex: int)

  function EntryResult(e: Entry): Result {
    if e.node.None? then Absent else Hit(e.origin, e.mid0, e.node.value, e.noex)
  }

  predicate EntryOk(w: World, e: Entry) {
    e.mid != 0 ==> e.klass in w.classes && EntryResult(e) == Lookup(w, e.klass, e.mid)
  }

  /** Whatever is in the cache is what a fresh walk finds. */
  predicate Coherent(w: World, cache: seq<Entry>) {
    forall k :: 0 <= k < |cache| ==> EntryOk(w, cache[k])
  }
}
