/** What flattening means: for arrays seen as trees, and as a walk that watches for cycles. */
module FlattenSpec {
  import opened RArrays

  datatype Option<T> = None | Some(value: T)

  type Views = map<int, seq<Value>>

  predicate IsArray(v: Views, x: Value) {
    x.Array? && x.id in v
  }

  function Joined(a: seq<Value>, b: Option<seq<Value>>): Option<seq<Value>> {
    if b.None? then None else Some(a + b.value)
  }

  /** The elements of s and of all arrays in it, unless one of the arrays seen on the way is met again. */
  function Flat(v: Views, s: seq<Value>, seen: set<int>): Option<seq<Value>>
    decreases v.Keys - seen, |s|
  {
    if s == [] then Some([])
    else if !IsArray(v, s[0]) then Joined([s[0]], Flat(v, s[1..], seen))
    else if s[0].id in seen then None
    else
      assert s[0].id in v.Keys - seen;
      var first := Flat(v, v[s[0].id], seen + {s[0].id});
      if first.None? then None else Joined(first.value, Flat(v, s[1..], seen))
  }

  // ---------- flattening in steps ----------

  lemma JoinedTwice(a: seq<Value>, b: seq<Value>, c: Option<seq<Value>>)
    ensures Joined(a, Joined(b, c)) == Joined(a + b, c)
  {
    if c.Some? { assert a + (b + c.value) == (a + b) + c.value; }
  }

  /** An array that is seen is not looked into: its elements do not matter. */
  lemma {:induction false} FlatFrame(v: Views, w: Views, s: seq<Value>, seen: set<int>, a: int)
    requires a in seen && v.Keys == w.Keys && forall b :: b in v && b != a ==> w[b] == v[b]
    ensures Flat(w, s, seen) == Flat(v, s, seen)
    decreases v.Keys - seen, |s|
  {
    if s != [] {
      if IsArray(v, s[0]) && s[0].id !in seen {
        assert s[0].id in v.Keys - seen;
        FlatFrame(v, w, v[s[0].id], seen + {s[0].id}, a);
      }
      FlatFrame(v, w, s[1..], seen, a);
    }
  }

  // ---------- trees ----------

  datatype Tree = Leaf(x: Value) | Node(id: int, kids: seq<Tree>)

  /** The tree below an element; there is one unless an array contains itself. */
  ghost predicate Represents(v: Views, t: Tree, x: Value)
    decreases t
  {
    match t
    case Leaf(y) => x == y && !IsArray(v, x)
    case Node(id, kids) => IsArray(v, x) && x.id == id && RepresentsAll(v, kids, v[id])
  }

  ghost predicate RepresentsAll(v: Views, ts: seq<Tree>, s: seq<Value>)
    decreases ts
  {
    |ts| == |s| && forall i :: 0 <= i < |ts| ==> Represents(v, ts[i], s[i])
  }

  function Leaves(t: Tree): seq<Value>
    decreases t
  {
    match t
    case Leaf(x) => [x]
    case Node(_, kids) => AllLeaves(kids)
  }

  function AllLeaves(ts: seq<Tree>): seq<Value>
    decreases ts
  {
    if ts == [] then [] else assert ts[0] in ts; Leaves(ts[0]) + AllLeaves(ts[1..])
  }

  function Size(t: Tree): (n: nat)
    ensures n > 0
    decreases t
  {
    match t
    case Leaf(_) => 1
    case Node(_, kids) => 1 + AllSizes(kids)
  }

  function AllSizes(ts: seq<Tree>): nat
    decreases ts
  {
    if ts == [] then 0 else assert ts[0] in ts; Size(ts[0]) + AllSizes(ts[1..])
  }

  /** There is at most one tree below an element. */
  lemma {:induction false} TreeIsUnique(v: Views, t: Tree, u: Tree, x: Value)
    requires Represents(v, t, x) && Represents(v, u, x)
    ensures t == u
    decreases t
  {
    if t.Node? {
      forall i | 0 <= i < |t.kids| ensures t.kids[i] == u.kids[i] {
        TreeIsUnique(v, t.kids[i], u.kids[i], v[t.id][i]);
      }
    }
  }

  /** The arrays seen on the way, as far as they are trees, are larger than n. */
  ghost predicate SeenAreLarger(v: Views, seen: set<int>, n: nat) {
    forall t, id :: id in seen && Represents(v, t, Array(id)) ==> Size(t) > n
  }

  /** Of a tree the walk finds all leaves, in order, and nothing twice on one path. */
  lemma {:induction false} FlatOfTrees(v: Views, ts: seq<Tree>, s: seq<Value>, seen: set<int>)
    requires RepresentsAll(v, ts, s) && SeenAreLarger(v, seen, AllSizes(ts))
    ensures Flat(v, s, seen) == Some(AllLeaves(ts))
    decreases AllSizes(ts), |ts|
  {
    if s != [] {
      var t := ts[0];
      assert AllSizes(ts) == Size(t) + AllSizes(ts[1..]);
      assert Represents(v, t, s[0]);
      assert RepresentsAll(v, ts[1..], s[1..]);
      FlatOfTrees(v, ts[1..], s[1..], seen);
      if t.Node? {
        assert s[0] == Array(t.id) && Size(t) == 1 + AllSizes(t.kids);
        forall u, id | id in seen + {t.id} && Represents(v, u, Array(id)) ensures Size(u) > AllSizes(t.kids) {
          if id == t.id { TreeIsUnique(v, t, u, s[0]); }
        }
        FlatOfTrees(v, t.kids, v[t.id], seen + {t.id});
      }
    }
  }

  /** When the walk finds an end, what it walked over is trees. */
  lemma {:induction false} TreesOfFlat(v: Views, s: seq<Value>, seen: set<int>) returns (ts: seq<Tree>)
    requires Flat(v, s, seen).Some?
    ensures RepresentsAll(v, ts, s)
    decreases v.Keys - seen, |s|
  {
    ts := [];
    if s != [] {
      var rest := TreesOfFlat(v, s[1..], seen);
      if IsArray(v, s[0]) {
        assert s[0].id in v.Keys - seen;
        var kids := TreesOfFlat(v, v[s[0].id], seen + {s[0].id});
        ts := [Node(s[0].id, kids)] + rest;
      } else {
        ts := [Leaf(s[0])] + rest;
      }
    }
  }

  lemma NodeIsTree(v: Views, a: int, ts: seq<Tree>)
    requires a in v && RepresentsAll(v, ts, v[a])
    ensures Represents(v, Node(a, ts), Array(a))
  {
  }

  /**
   * Flattening an array fails exactly when it contains itself, directly or through other arrays, that
   * is, when it is no finite tree; otherwise it gives the leaves of the tree.
   */
  lemma FlatIffTree(v: Views, a: int)
    requires a in v
    ensures Flat(v, v[a], {a}).Some? <==> exists t :: Represents(v, t, Array(a))
    ensures forall t :: Represents(v, t, Array(a)) ==> Flat(v, v[a], {a}) == Some(Leaves(t))
  {
    forall t | Represents(v, t, Array(a)) ensures Flat(v, v[a], {a}) == Some(Leaves(t)) {
      assert Size(t) == 1 + AllSizes(t.kids);
      forall u, id | id in {a} && Represents(v, u, Array(id)) ensures Size(u) > AllSizes(t.kids) {
        TreeIsUnique(v, t, u, Array(a));
      }
      FlatOfTrees(v, t.kids, v[a], {a});
    }
    if Flat(v, v[a], {a}).Some? {
      var ts := TreesOfFlat(v, v[a], {a});
      NodeIsTree(v, a, ts);
      assert exists t :: Represents(v, t, Array(a));
    }
  }
}
