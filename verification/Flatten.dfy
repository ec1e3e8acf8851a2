/** Array#flatten! works in place: a nested array is spliced over the element that refers to it. */
module Flatten {
  import opened RArrays
  import opened RArrayOps
  import opened FlattenSpec

  datatype Outcome = Flattened | Unchanged | Recursive | Frozen

  /** Every array that is an element is an array of the program. */
  ghost predicate Known(v: Views) {
    forall b, i :: b in v && 0 <= i < |v[b]| && v[b][i].Array? ==> v[b][i].id in v
  }

  function Members(memo: seq<int>): set<int> {
    set x | x in memo
  }

  lemma OneMoreMember(memo: seq<int>, x: int)
    ensures Members(memo + [x]) == Members(memo) + {x}
  {
  }

  /** Only the elements of ary are other than before. */
  ghost predicate OnlyElementsOf(v: Views, w: Views, ary: int) {
    ary in v && w.Keys == v.Keys && forall b :: b in v && b != ary ==> w[b] == v[b]
  }

  /** What flatten does from v to w: the element at idx, which is ary2, gives way to all its leaves. */
  ghost predicate FlattensAt(v: Views, frozen: bool, w: Views, ary: int, idx: nat, ary2: int, seen: set<int>,
        out: Outcome, grown: int)
    requires ary in v && ary2 in v && idx < |v[ary]|
  {
    && OnlyElementsOf(v, w, ary)
    && if ary2 in seen then out == Recursive
       else if frozen then out == Frozen && w == v
       else if ary2 == ary then out == Recursive
       else match Flat(v, v[ary2], seen + {ary2} + {ary})
            case None => out == Recursive
            case Some(r) => out == Flattened && grown == |r| - 1 && w[ary] == v[ary][..idx] + r + v[ary][idx + 1..]
  }

  // ---------- unfolding ----------

  /** One element that is an array gives way to the elements of that array, which may be the one it is in. */
  ghost predicate OneUnfolding(v: Views, ary: int, s: seq<Value>, t: seq<Value>) {
    exists j :: 0 <= j < |s| && s[j].Array? && s[j].id in v
                && t == s[..j] + (if s[j].id == ary then s else v[s[j].id]) + s[j + 1..]
  }

  ghost predicate Unfolding(v: Views, ary: int, ss: seq<seq<Value>>) {
    ss != [] && forall i :: 0 <= i < |ss| - 1 ==> OneUnfolding(v, ary, ss[i], ss[i + 1])
  }

  /** From v to w, arrays among the elements of ary were unfolded, one after the other, and nothing else. */
  ghost predicate Unfolds(v: Views, w: Views, ary: int) {
    && OnlyElementsOf(v, w, ary)
    && exists ss :: Unfolding(v, ary, ss) && ss[0] == v[ary] && ss[|ss| - 1] == w[ary]
  }

  lemma UnfoldsNothing(v: Views, ary: int)
    requires ary in v
    ensures Unfolds(v, v, ary)
  {
    assert Unfolding(v, ary, [v[ary]]);
  }

  lemma UnfoldsOnce(v: Views, w: Views, ary: int, idx: nat, ary2: int)
    requires ary in v && ary2 in v && idx < |v[ary]| && v[ary][idx] == Array(ary2)
    requires w == v[ary := Spliced(v[ary], idx, 1, v[ary2])]
    ensures Unfolds(v, w, ary)
  {
    assert OneUnfolding(v, ary, v[ary], w[ary]);
    var ss := [v[ary], w[ary]];
    assert Unfolding(v, ary, ss) && ss[0] == v[ary] && ss[|ss| - 1] == w[ary];
  }

  lemma UnfoldsOn(v: Views, w: Views, x: Views, ary: int)
    requires Unfolds(v, w, ary) && Unfolds(w, x, ary)
    ensures Unfolds(v, x, ary)
  {
    var ss :| Unfolding(v, ary, ss) && ss[0] == v[ary] && ss[|ss| - 1] == w[ary];
    var ts :| Unfolding(w, ary, ts) && ts[0] == w[ary] && ts[|ts| - 1] == x[ary];
    var us := ss + ts[1..];
    forall i | 0 <= i < |us| - 1 ensures OneUnfolding(v, ary, us[i], us[i + 1]) {
      if i < |ss| - 1 {
        assert OneUnfolding(v, ary, ss[i], ss[i + 1]);
      } else {
        var j := i - (|ss| - 1);
        assert us[i] == ts[j] && us[i + 1] == ts[j + 1];
        SameUnfolding(v, w, ary, ts[j], ts[j + 1]);
      }
    }
    assert us[0] == v[ary] && us[|us| - 1] == x[ary];
  }

  lemma SameUnfolding(v: Views, w: Views, ary: int, s: seq<Value>, t: seq<Value>)
    requires OnlyElementsOf(v, w, ary) && OneUnfolding(w, ary, s, t)
    ensures OneUnfolding(v, ary, s, t)
  {
    var j :| 0 <= j < |s| && s[j].Array? && s[j].id in w
             && t == s[..j] + (if s[j].id == ary then s else w[s[j].id]) + s[j + 1..];
    assert s[j].id in v;
  }

  ghost predicate AllKnown(v: Views, s: seq<Value>) {
    forall i :: 0 <= i < |s| && s[i].Array? ==> s[i].id in v
  }

  lemma UnfoldingKnown(v: Views, ary: int, s: seq<Value>, t: seq<Value>)
    requires Known(v) && AllKnown(v, s) && OneUnfolding(v, ary, s, t)
    ensures AllKnown(v, t)
  {
  }

  lemma {:induction false} UnfoldingAllKnown(v: Views, ary: int, ss: seq<seq<Value>>, i: nat)
    requires Known(v) && Unfolding(v, ary, ss) && AllKnown(v, ss[0]) && i < |ss|
    ensures AllKnown(v, ss[i])
    decreases i
  {
    if i > 0 {
      UnfoldingAllKnown(v, ary, ss, i - 1);
      assert OneUnfolding(v, ary, ss[i - 1], ss[i - 1 + 1]);
      UnfoldingKnown(v, ary, ss[i - 1], ss[i]);
    }
  }

  /** Unfolding brings no array into play that the program does not have. */
  lemma UnfoldsKnown(v: Views, w: Views, ary: int)
    requires Known(v) && Unfolds(v, w, ary)
    ensures Known(w)
  {
    var ss :| Unfolding(v, ary, ss) && ss[0] == v[ary] && ss[|ss| - 1] == w[ary];
    UnfoldingAllKnown(v, ary, ss, |ss| - 1);
  }

  /** In the loop of flatten: done is put in for the first k elements of ary2, the others are still as they were. */
  ghost predicate InLoop(v: Views, w: Views, ary: int, idx: nat, ary2: int, seen: set<int>, k: nat,
        done: seq<Value>, i: int, lim: int)
    requires ary in v && ary2 in v && idx < |v[ary]|
  {
    && OnlyElementsOf(v, w, ary) && k <= |v[ary2]| && i == idx + |done| && lim == i + |v[ary2]| - k
    && w[ary] == v[ary][..idx] + done + v[ary2][k..] + v[ary][idx + 1..]
    && ary in seen && Flat(v, v[ary2], seen) == Joined(done, Flat(v, v[ary2][k..], seen))
    && (ary2 == ary ==> k <= idx && v[ary][idx] == Array(ary)) && forall j :: 0 <= j < |done| ==> !done[j].Array?
  }

  lemma KnownStays(v: Views, w: Views, ary: int, idx: nat, ary2: int, seen: set<int>, k: nat, done: seq<Value>,
        i: int, lim: int)
    requires ary in v && ary2 in v && idx < |v[ary]| && Known(v)
    requires InLoop(v, w, ary, idx, ary2, seen, k, done, i, lim)
    ensures Known(w)
  {
  }

  /** No array is left among the leaves. */
  lemma {:induction false} LeavesAreNoArrays(v: Views, s: seq<Value>, seen: set<int>)
    requires Known(v) && forall i :: 0 <= i < |s| && s[i].Array? ==> s[i].id in v
    requires Flat(v, s, seen).Some?
    ensures forall j :: 0 <= j < |Flat(v, s, seen).value| ==> !Flat(v, s, seen).value[j].Array?
    decreases v.Keys - seen, |s|
  {
    if s != [] {
      LeavesAreNoArrays(v, s[1..], seen);
      if IsArray(v, s[0]) {
        assert s[0].id in v.Keys - seen;
        LeavesAreNoArrays(v, v[s[0].id], seen + {s[0].id});
      }
    }
  }

  // ---------- the loop, step by step ----------

  /** The splice puts the elements of ary2 in place of the reference to it. */
  lemma LoopStarts(v: Views, w: Views, ary: int, idx: nat, ary2: int, seen: set<int>)
    requires ary in v && ary2 in v && idx < |v[ary]| && v[ary][idx] == Array(ary2) && ary in seen
    requires w == v[ary := Spliced(v[ary], idx, 1, v[ary2])]
    ensures InLoop(v, w, ary, idx, ary2, seen, 0, [], idx, idx + |v[ary2]|)
  {
    assert v[ary2][0..] == v[ary2];
    var f := Flat(v, v[ary2], seen);
    if f.Some? { assert [] + f.value == f.value; }
  }

  /** The element at i is the next one of ary2. */
  lemma NextElement(v: Views, w: Views, ary: int, idx: nat, ary2: int, seen: set<int>, k: nat, done: seq<Value>,
        i: int, lim: int)
    requires ary in v && ary2 in v && idx < |v[ary]| && InLoop(v, w, ary, idx, ary2, seen, k, done, i, lim) && i < lim
    ensures k < |v[ary2]| && 0 <= i < |w[ary]| && w[ary][i] == v[ary2][k]
    ensures w[ary][..i] == v[ary][..idx] + done && w[ary][i + 1..] == v[ary2][k + 1..] + v[ary][idx + 1..]
    ensures v[ary2][k..] == [v[ary2][k]] + v[ary2][k + 1..]
  {
    var x, y, z := v[ary][..idx] + done, v[ary2][k..], v[ary][idx + 1..];
    assert w[ary] == x + y + z && |x| == i;
    assert y[1..] == v[ary2][k + 1..];
    assert (x + y + z)[i + 1..] == y[1..] + z;
  }

  lemma PlainElement(v: Views, w: Views, ary: int, idx: nat, ary2: int, seen: set<int>, k: nat, done: seq<Value>,
        i: int, lim: int)
    requires ary in v && ary2 in v && idx < |v[ary]| && InLoop(v, w, ary, idx, ary2, seen, k, done, i, lim) && i < lim
    requires 0 <= i < |w[ary]| && !w[ary][i].Array?
    ensures k < |v[ary2]| && InLoop(v, w, ary, idx, ary2, seen, k + 1, done + [v[ary2][k]], i + 1, lim)
  {
    NextElement(v, w, ary, idx, ary2, seen, k, done, i, lim);
    var e, rest := v[ary2][k], v[ary2][k + 1..];
    assert v[ary2][k..][0] == e && v[ary2][k..][1..] == rest;
    assert Flat(v, v[ary2][k..], seen) == Joined([e], Flat(v, rest, seen));
    JoinedTwice(done, [e], Flat(v, rest, seen));
    assert w[ary] == w[ary][..i] + [w[ary][i]] + w[ary][i + 1..];
    Regrouped(v[ary][..idx], done, [e], rest, v[ary][idx + 1..]);
  }

  /** Seen from inside the loop, what a nested array stands for. */
  lemma NestedFlat(v: Views, w: Views, ary: int, idx: nat, ary2: int, seen: set<int>, k: nat, done: seq<Value>,
        i: int, lim: int)
    requires ary in v && ary2 in v && idx < |v[ary]| && InLoop(v, w, ary, idx, ary2, seen, k, done, i, lim) && i < lim
    requires 0 <= i < |w[ary]| && IsArray(v, w[ary][i])
    ensures k < |v[ary2]| && v[ary2][k] == w[ary][i]
    ensures var id := w[ary][i].id; var rest := Flat(v, v[ary2][k + 1..], seen);
            Flat(v, v[ary2][k..], seen) == if id in seen then None
              else match Flat(v, v[id], seen + {id}) case None => None case Some(r) => Joined(r, rest)
    ensures var id := w[ary][i].id;
            id !in seen ==> id in w && Flat(w, w[id], seen + {id}) == Flat(v, v[id], seen + {id})
  {
    NextElement(v, w, ary, idx, ary2, seen, k, done, i, lim);
    var id := w[ary][i].id;
    assert v[ary2][k..][0] == v[ary2][k] && v[ary2][k..][1..] == v[ary2][k + 1..];
    if id !in seen {
      FlatFrame(v, w, v[id], seen + {id}, ary);
    }
  }

  /** A nested array has been flattened: the loop goes on behind its leaves. */
  lemma ArrayElement(v: Views, w: Views, x: Views, ary: int, idx: nat, ary2: int, seen: set<int>, k: nat,
        done: seq<Value>,
                     i: nat, lim: int, n: int) returns (r: seq<Value>)
    requires ary in v && ary2 in v && idx < |v[ary]| && InLoop(v, w, ary, idx, ary2, seen, k, done, i, lim) && i < lim
    requires Known(v) && ary in w && i < |w[ary]| && IsArray(v, w[ary][i]) && w[ary][i].id in w
    requires FlattensAt(w, false, x, ary, i, w[ary][i].id, seen, Flattened, n)
    ensures n == |r| - 1 && InLoop(v, x, ary, idx, ary2, seen, k + 1, done + r, i + n + 1, lim + n)
  {
    var id := w[ary][i].id;
    NestedFlat(v, w, ary, idx, ary2, seen, k, done, i, lim);
    NextElement(v, w, ary, idx, ary2, seen, k, done, i, lim);
    assert seen + {id} + {ary} == seen + {id};
    hide Flat, Known;
    r := Flat(v, v[id], seen + {id}).value;
    LeavesAreNoArrays(v, v[id], seen + {id});
    var rest, tail := v[ary2][k + 1..], v[ary][idx + 1..];
    JoinedTwice(done, r, Flat(v, rest, seen));
    Regrouped(v[ary][..idx], done, r, rest, tail);
  }

  lemma Regrouped(a: seq<Value>, d: seq<Value>, r: seq<Value>, rest: seq<Value>, tail: seq<Value>)
    ensures a + d + r + (rest + tail) == a + (d + r) + rest + tail
  {
  }

  /** A nested array could not be flattened: neither can ary2. */
  lemma ArrayFails(v: Views, w: Views, x: Views, ary: int, idx: nat, ary2: int, seen: set<int>, k: nat,
        done: seq<Value>,
                   i: nat, lim: int, out: Outcome, n: int)
    requires ary in v && ary2 in v && idx < |v[ary]| && InLoop(v, w, ary, idx, ary2, seen, k, done, i, lim) && i < lim
    requires ary in w && i < |w[ary]| && IsArray(v, w[ary][i]) && w[ary][i].id in w
    requires FlattensAt(w, false, x, ary, i, w[ary][i].id, seen, out, n) && out != Flattened
    ensures out == Recursive && Flat(v, v[ary2], seen) == None && OnlyElementsOf(v, x, ary)
  {
    var id := w[ary][i].id;
    NestedFlat(v, w, ary, idx, ary2, seen, k, done, i, lim);
    assert seen + {id} + {ary} == seen + {id};
  }

  /** The loop is through: all of ary2 is flattened, and ary2 is not ary. */
  lemma LoopEnds(v: Views, w: Views, ary: int, idx: nat, ary2: int, seen: set<int>, k: nat, done: seq<Value>,
        i: int, lim: int)
    requires ary in v && ary2 in v && idx < |v[ary]| && InLoop(v, w, ary, idx, ary2, seen, k, done, i, lim) && i >= lim
    ensures LoopResult(v, w, ary, idx, ary2, seen, Flattened, lim - idx - 1)
  {
    assert v[ary2][k..] == [];
    assert done + [] == done;
  }

  lemma NothingDone(v: Views, frozen: bool, ary: int, idx: nat, ary2: int, seen: set<int>)
    requires ary in v && ary2 in v && idx < |v[ary]|
    ensures ary2 in seen ==> FlattensAt(v, frozen, v, ary, idx, ary2, seen, Recursive, 0)
    ensures ary2 !in seen && frozen ==> FlattensAt(v, frozen, v, ary, idx, ary2, seen, Frozen, 0)
  {
  }

  /** For an array that can be written to, whether ary itself counts as seen makes no difference. */
  lemma AryIsSeen(v: Views, w: Views, ary: int, idx: nat, ary2: int, seen: set<int>, out: Outcome, grown: int)
    requires ary in v && ary2 in v && idx < |v[ary]| && FlattensAt(v, false, w, ary, idx, ary2, seen, out, grown)
    ensures FlattensAt(v, false, w, ary, idx, ary2, seen + {ary}, out, grown)
    ensures out == Flattened || out == Recursive
  {
    assert seen + {ary} + {ary2} + {ary} == seen + {ary2} + {ary};
  }

  /** What the loop of flatten leaves. */
  ghost predicate LoopResult(v: Views, w: Views, ary: int, idx: nat, ary2: int, seen: set<int>, out: Outcome,
        grown: int)
    requires ary in v && ary2 in v && idx < |v[ary]|
  {
    && OnlyElementsOf(v, w, ary)
    && if ary2 == ary then out == Recursive
       else match Flat(v, v[ary2], seen)
            case None => out == Recursive
            case Some(r) => out == Flattened && grown == |r| - 1 && w[ary] == v[ary][..idx] + r + v[ary][idx + 1..]
  }

  lemma LoopFailed(v: Views, w: Views, ary: int, idx: nat, ary2: int, seen: set<int>, grown: int)
    requires ary in v && ary2 in v && idx < |v[ary]| && OnlyElementsOf(v, w, ary) && Flat(v, v[ary2], seen) == None
    ensures LoopResult(v, w, ary, idx, ary2, seen, Recursive, grown)
  {
  }

  lemma LoopDone(v: Views, w: Views, ary: int, idx: nat, ary2: int, seen: set<int>, out: Outcome, grown: int)
    requires ary in v && ary2 in v && idx < |v[ary]| && ary2 !in seen
    requires LoopResult(v, w, ary, idx, ary2, seen + {ary2} + {ary}, out, grown)
    ensures FlattensAt(v, false, w, ary, idx, ary2, seen, out, grown)
  {
  }

  // ---------- the program ----------

  /** The elements of all arrays of the program. */
  ghost function ViewOf(space: ArraySpace): Views
    requires space.Valid()
    reads space
  {
    View(space.Now())
  }

  ghost predicate IsFrozen(space: ArraySpace, a: int)
    reads space
  {
    a in FrozenOnes(space.Now())
  }

  lemma ViewFacts(space: ArraySpace)
    requires space.Valid()
    ensures ViewOf(space).Keys == space.users && forall a :: a in space.users ==> space.Elements(a) == ViewOf(space)[a]
  {
  }

  /** rb_ary_elt, inside the array. */
  method Elt(space: ArraySpace, a: int, i: nat) returns (x: Value)
    requires space.Valid() && a in space.users && i < |space.Elements(a)|
    ensures x == space.Elements(a)[i]
  {
    space.Facts(a);
    x := space.blocks[space.arrays[a].block][space.arrays[a].off + i];
  }

  method Len(space: ArraySpace, a: int) returns (n: nat)
    requires space.Valid() && a in space.users
    ensures n == |space.Elements(a)|
  {
    space.Facts(a);
    n := space.arrays[a].len;
  }

  /** The splice of flatten. */
  method SpliceOver(space: ArraySpace, ary: int, idx: nat, ary2: int) returns (frozen: bool)
    requires space.Valid() && ary in ViewOf(space) && ary2 in ViewOf(space) && idx < |ViewOf(space)[ary]|
    modifies space
    ensures space.Valid() && space.users == old(space.users)
    ensures IsFrozen(space, ary) == old(IsFrozen(space, ary)) == frozen
    ensures FrozenUsers(space.Now()) == old(FrozenUsers(space.Now()))
    ensures ViewOf(space) == if frozen then old(ViewOf(space)) else
              old(ViewOf(space))[ary := Spliced(old(ViewOf(space))[ary], idx, 1, old(ViewOf(space))[ary2])]
  {
    hide Spliced, Ok, View, FrozenOnes, FrozenUsers;
    ViewFacts(space);
    var st := space.Splice(ary, idx, 1, Array(ary2));
    frozen := st.FrozenError?;
  }

  /** One round of the loop of flatten: the element at i, and the leaves it stands for. */
  method FlattenNext(space: ArraySpace, ghost v: Views, ary: int, ghost idx: nat, ghost ary2: int, memo: seq<int>,
                     ghost k: nat, ghost done: seq<Value>, i: nat, ghost lim: int)
    returns (out: Outcome, n: int, ghost r: seq<Value>)
    requires space.Valid() && Known(v) && ary in v && ary2 in v && idx < |v[ary]| && Members(memo) <= space.users
    requires InLoop(v, ViewOf(space), ary, idx, ary2, Members(memo) + {ary}, k, done, i, lim) && i < lim
    requires !IsFrozen(space, ary) && v.Keys == space.users
    modifies space
    ensures space.Valid() && space.users == old(space.users) && !IsFrozen(space, ary)
    ensures Unfolds(old(ViewOf(space)), ViewOf(space), ary) && FrozenUsers(space.Now()) == old(FrozenUsers(space.Now()))
    ensures if out == Flattened
            then InLoop(v, ViewOf(space), ary, idx, ary2, Members(memo) + {ary}, k + 1, done + r, i + n + 1, lim + n)
                 && n >= -1
            else out == Recursive && Flat(v, v[ary2], Members(memo) + {ary}) == None
                 && OnlyElementsOf(v, ViewOf(space), ary)
    decreases space.users - Members(memo), 2
  {
    hide Flat, FlattensAt, InLoop, Known, OnlyElementsOf, Ok, View, FrozenOnes, FrozenUsers, Members, Unfolds;
    ViewFacts(space);
    ghost var w, seen := ViewOf(space), Members(memo) + {ary};
    UnfoldsNothing(w, ary);
    KnownStays(v, w, ary, idx, ary2, seen, k, done, i, lim);
    NextElement(v, w, ary, idx, ary2, seen, k, done, i, lim);
    var tmp := Elt(space, ary, i);
    if !tmp.Array? {
      PlainElement(v, w, ary, idx, ary2, seen, k, done, i, lim);
      return Flattened, 0, [v[ary2][k]];
    }
    IsKnown(w, ary, i);
    out, n := FlattenAt(space, ary, i, tmp.id, memo);
    r := NestedDone(v, w, ViewOf(space), ary, idx, ary2, Members(memo), k, done, i, lim, out, n);
  }

  /** What the result for a nested array means for the loop. */
  lemma NestedDone(v: Views, w: Views, x: Views, ary: int, idx: nat, ary2: int, memo: set<int>, k: nat,
        done: seq<Value>,
                   i: nat, lim: int, out: Outcome, n: int) returns (r: seq<Value>)
    requires ary in v && ary2 in v && idx < |v[ary]| && InLoop(v, w, ary, idx, ary2, memo + {ary}, k, done, i, lim)
    requires i < lim
    requires Known(v) && ary in w && i < |w[ary]| && IsArray(v, w[ary][i]) && w[ary][i].id in w
    requires FlattensAt(w, false, x, ary, i, w[ary][i].id, memo, out, n)
    ensures if out == Flattened
            then InLoop(v, x, ary, idx, ary2, memo + {ary}, k + 1, done + r, i + n + 1, lim + n) && n >= -1
            else out == Recursive && Flat(v, v[ary2], memo + {ary}) == None && OnlyElementsOf(v, x, ary)
  {
    hide Flat, FlattensAt, InLoop, Known, OnlyElementsOf;
    r := [];
    AryIsSeen(w, x, ary, i, w[ary][i].id, memo, out, n);
    if out == Flattened {
      r := ArrayElement(v, w, x, ary, idx, ary2, memo + {ary}, k, done, i, lim, n);
    } else {
      ArrayFails(v, w, x, ary, idx, ary2, memo + {ary}, k, done, i, lim, out, n);
    }
  }

  lemma IsKnown(v: Views, a: int, i: nat)
    requires Known(v) && a in v && i < |v[a]| && v[a][i].Array?
    ensures v[a][i].id in v && IsArray(v, v[a][i])
  {
  }

  /** The loop of flatten over the elements of ary2, which stand in ary from idx on. */
  method FlattenLoop(space: ArraySpace, ghost v: Views, ary: int, idx: nat, ghost ary2: int, len2: nat, memo: seq<int>)
    returns (out: Outcome, grown: int)
    requires space.Valid() && Known(v) && ary in v && ary2 in v && idx < |v[ary]| && Members(memo) <= space.users
    requires len2 == |v[ary2]|
    requires InLoop(v, ViewOf(space), ary, idx, ary2, Members(memo) + {ary}, 0, [], idx, idx + len2)
    requires !IsFrozen(space, ary) && v.Keys == space.users
    modifies space
    ensures space.Valid() && space.users == old(space.users) && !IsFrozen(space, ary)
    ensures Unfolds(old(ViewOf(space)), ViewOf(space), ary) && FrozenUsers(space.Now()) == old(FrozenUsers(space.Now()))
    ensures LoopResult(v, ViewOf(space), ary, idx, ary2, Members(memo) + {ary}, out, grown)
    decreases space.users - Members(memo), 3
  {
    ghost var seen := Members(memo) + {ary};
    ghost var k: nat, done: seq<Value> := 0, [];
    hide Flat, InLoop, Known, OnlyElementsOf, Ok, View, FrozenOnes, FrozenUsers, Members, LoopResult, Unfolds;
    ViewFacts(space);
    ghost var w0 := ViewOf(space);
    UnfoldsNothing(w0, ary);
    var i, lim := idx, idx + len2;
    while i < lim
      invariant space.Valid() && space.users == old(space.users) && !IsFrozen(space, ary) && i >= 0
      invariant Unfolds(w0, ViewOf(space), ary) && FrozenUsers(space.Now()) == old(FrozenUsers(space.Now()))
      invariant InLoop(v, ViewOf(space), ary, idx, ary2, seen, k, done, i, lim)
      decreases lim - i
    {
      var n;
      ghost var r;
      ghost var w := ViewOf(space);
      out, n, r := FlattenNext(space, v, ary, idx, ary2, memo, k, done, i, lim);
      UnfoldsOn(w0, w, ViewOf(space), ary);
      if out != Flattened {
        LoopFailed(v, ViewOf(space), ary, idx, ary2, seen, 0);
        return out, 0;
      }
      k, done := k + 1, done + r;
      i, lim := i + n, lim + n;
      i := i + 1;
    }
    LoopEnds(v, ViewOf(space), ary, idx, ary2, seen, k, done, i, lim);
    out, grown := Flattened, lim - idx - 1;
  }

  /**
   * flatten: replace the element of ary at idx, which is ary2, by the elements of ary2, and go on with
   * the nested arrays among them. memo holds the arrays being flattened. grown is the number of
   * elements ary has more than before, or -1.
   */
  method FlattenAt(space: ArraySpace, ary: int, idx: nat, ary2: int, memo: seq<int>) returns (out: Outcome, grown: int)
    requires space.Valid() && Known(ViewOf(space)) && ary in ViewOf(space) && ary2 in ViewOf(space)
    requires idx < |ViewOf(space)[ary]| && ViewOf(space)[ary][idx] == Array(ary2) && Members(memo) <= space.users
    modifies space
    ensures space.Valid() && space.users == old(space.users) && IsFrozen(space, ary) == old(IsFrozen(space, ary))
    ensures Unfolds(old(ViewOf(space)), ViewOf(space), ary) && FrozenUsers(space.Now()) == old(FrozenUsers(space.Now()))
    ensures FlattensAt(old(ViewOf(space)), IsFrozen(space, ary), ViewOf(space), ary, idx, ary2, Members(memo), out,
                       grown)
    decreases space.users - Members(memo), 1
  {
    assert ary2 in memo <==> ary2 in Members(memo);
    hide Flat, FlattensAt, InLoop, Known, OnlyElementsOf, Spliced, Ok, View, FrozenOnes, FrozenUsers, Members;
    hide LoopResult, Unfolds;
    if ary2 in memo {
      UnfoldsNothing(ViewOf(space), ary);
      NothingDone(ViewOf(space), IsFrozen(space, ary), ary, idx, ary2, Members(memo));
      return Recursive, 0;
    }
    out, grown := FlattenUnseen(space, ary, idx, ary2, memo);
  }

  method FlattenUnseen(space: ArraySpace, ary: int, idx: nat, ary2: int, memo: seq<int>) returns (out: Outcome,
        grown: int)
    requires space.Valid() && Known(ViewOf(space)) && ary in ViewOf(space) && ary2 in ViewOf(space)
    requires idx < |ViewOf(space)[ary]| && ViewOf(space)[ary][idx] == Array(ary2)
    requires Members(memo) <= space.users && ary2 !in Members(memo)
    modifies space
    ensures space.Valid() && space.users == old(space.users) && IsFrozen(space, ary) == old(IsFrozen(space, ary))
    ensures Unfolds(old(ViewOf(space)), ViewOf(space), ary) && FrozenUsers(space.Now()) == old(FrozenUsers(space.Now()))
    ensures FlattensAt(old(ViewOf(space)), IsFrozen(space, ary), ViewOf(space), ary, idx, ary2, Members(memo), out,
                       grown)
    decreases space.users - Members(memo), 0
  {
    hide Flat, FlattensAt, InLoop, Known, OnlyElementsOf, Spliced, Ok, View, FrozenOnes, FrozenUsers, Members;
    hide LoopResult, Unfolds;
    ghost var v := ViewOf(space);
    UnfoldsNothing(v, ary);
    NothingDone(v, IsFrozen(space, ary), ary, idx, ary2, Members(memo));
    ViewFacts(space);
    var len2 := Len(space, ary2);
    var frozen := SpliceOver(space, ary, idx, ary2);
    if frozen { return Frozen, 0; }
    OneMoreMember(memo, ary2);
    LoopStarts(v, ViewOf(space), ary, idx, ary2, Members(memo + [ary2]) + {ary});
    ghost var w := ViewOf(space);
    UnfoldsOnce(v, w, ary, idx, ary2);
    out, grown := FlattenLoop(space, v, ary, idx, ary2, len2, memo + [ary2]);
    UnfoldsOn(v, w, ViewOf(space), ary);
    LoopDone(v, ViewOf(space), ary, idx, ary2, Members(memo), out, grown);
  }

  // ---------- Array#flatten! ----------

  ghost predicate HasArray(s: seq<Value>) {
    exists i :: 0 <= i < |s| && s[i].Array?
  }

  /** In the loop of flatten!: done stands for the first k elements; mod tells whether there was an array among them. */
  ghost predicate InBang(v: Views, w: Views, frozen: bool, ary: int, k: nat, done: seq<Value>, mod: bool) {
    && OnlyElementsOf(v, w, ary) && k <= |v[ary]| && w[ary] == done + v[ary][k..]
    && Flat(v, v[ary], {ary}) == Joined(done, Flat(v, v[ary][k..], {ary}))
    && (forall j :: 0 <= j < |done| ==> !done[j].Array?)
    && mod == HasArray(v[ary][..k]) && (!mod ==> w == v && done == v[ary][..k]) && (frozen ==> !mod)
  }

  /** What flatten! does from v to w. */
  ghost predicate BangResult(v: Views, w: Views, frozen: bool, ary: int, out: Outcome) {
    && OnlyElementsOf(v, w, ary)
    && if !HasArray(v[ary]) then out == Unchanged && w == v
       else if frozen then out == Frozen && w == v
       else match Flat(v, v[ary], {ary})
            case None => out == Recursive
            case Some(r) => out == Flattened && w[ary] == r
  }

  lemma BangStarts(v: Views, frozen: bool, ary: int)
    requires ary in v
    ensures InBang(v, v, frozen, ary, 0, [], false)
  {
    assert v[ary][0..] == v[ary] && [] + v[ary] == v[ary];
    var f := Flat(v, v[ary], {ary});
    if f.Some? { assert [] + f.value == f.value; }
  }

  lemma BangNext(v: Views, w: Views, frozen: bool, ary: int, k: nat, done: seq<Value>, mod: bool)
    requires InBang(v, w, frozen, ary, k, done, mod) && Known(v)
    ensures Known(w) && ary in v && ary in w && k <= |v[ary]| && (k < |v[ary]| <==> |done| < |w[ary]|)
    ensures k < |v[ary]| ==> w[ary][|done|] == v[ary][k] && w[ary][..|done|] == done
    ensures k < |v[ary]| ==> w[ary][|done| + 1..] == v[ary][k + 1..] && v[ary][k..] == [v[ary][k]] + v[ary][k + 1..]
    ensures k < |v[ary]| ==> v[ary][..k + 1] == v[ary][..k] + [v[ary][k]]
  {
  }

  lemma BangPlain(v: Views, w: Views, frozen: bool, ary: int, k: nat, done: seq<Value>, mod: bool)
    requires InBang(v, w, frozen, ary, k, done, mod) && Known(v) && k < |v[ary]| && !v[ary][k].Array?
    ensures InBang(v, w, frozen, ary, k + 1, done + [v[ary][k]], mod)
  {
    BangNext(v, w, frozen, ary, k, done, mod);
    var e, rest := v[ary][k], v[ary][k + 1..];
    assert v[ary][k..][0] == e && v[ary][k..][1..] == rest;
    JoinedTwice(done, [e], Flat(v, rest, {ary}));
    assert done + [e] + rest == done + v[ary][k..];
    assert HasArray(v[ary][..k + 1]) == HasArray(v[ary][..k]) by {
      if HasArray(v[ary][..k]) {
        var j :| 0 <= j < k && v[ary][..k][j].Array?;
        assert v[ary][..k + 1][j].Array?;
      }
    }
  }

  /** What the result of flatten for the next element means. */
  lemma BangArray(v: Views, w: Views, x: Views, frozen: bool, ary: int, k: nat, done: seq<Value>, mod: bool,
        out: Outcome, n: int)
    returns (r: seq<Value>)
    requires InBang(v, w, frozen, ary, k, done, mod) && Known(v) && k < |v[ary]| && v[ary][k].Array? && ary in w
    requires |done| < |w[ary]| && v[ary][k].id in w && FlattensAt(w, frozen, x, ary, |done|, v[ary][k].id, {}, out, n)
    ensures HasArray(v[ary])
    ensures if out == Flattened then !frozen && InBang(v, x, frozen, ary, k + 1, done + r, true) && n == |r| - 1
            else BangResult(v, x, frozen, ary, out)
  {
    r := [];
    BangNext(v, w, frozen, ary, k, done, mod);
    var id, rest := v[ary][k].id, v[ary][k + 1..];
    assert v[ary][k..][0] == v[ary][k] && v[ary][k..][1..] == rest;
    assert {} + {id} + {ary} == {ary} + {id};
    if !frozen && id != ary {
      FlatFrame(v, w, v[id], {ary} + {id}, ary);
      if out == Flattened {
        r := Flat(v, v[id], {ary} + {id}).value;
        LeavesAreNoArrays(v, v[id], {ary} + {id});
        JoinedTwice(done, r, Flat(v, rest, {ary}));
        assert v[ary][..k + 1][k].Array?;
      }
    }
  }

  lemma BangEnds(v: Views, w: Views, frozen: bool, ary: int, k: nat, done: seq<Value>, mod: bool)
    requires InBang(v, w, frozen, ary, k, done, mod) && Known(v) && ary in w && |done| >= |w[ary]|
    ensures BangResult(v, w, frozen, ary, if mod then Flattened else Unchanged)
  {
    BangNext(v, w, frozen, ary, k, done, mod);
    assert v[ary][..k] == v[ary] && v[ary][k..] == [] && done + [] == done;
  }

  /** One round of flatten!. */
  method BangRound(space: ArraySpace, ghost v: Views, ghost frozen: bool, ary: int, ghost k: nat,
        ghost done: seq<Value>,
                   ghost mod: bool, i: nat) returns (out: Outcome, n: int, isArray: bool, ghost d: seq<Value>)
    requires space.Valid() && Known(v) && ary in v && frozen == IsFrozen(space, ary) && v.Keys == space.users
    requires InBang(v, ViewOf(space), frozen, ary, k, done, mod) && ary in ViewOf(space)
    requires i == |done| < |ViewOf(space)[ary]|
    modifies space
    ensures space.Valid() && space.users == old(space.users) && IsFrozen(space, ary) == frozen
    ensures Unfolds(old(ViewOf(space)), ViewOf(space), ary) && FrozenUsers(space.Now()) == old(FrozenUsers(space.Now()))
    ensures if out == Flattened then InBang(v, ViewOf(space), frozen, ary, k + 1, d, mod || isArray) && i + n + 1 == |d|
            else BangResult(v, ViewOf(space), frozen, ary, out)
    ensures k < |v[ary]|
  {
    assert Members([]) == {};
    hide Flat, FlattensAt, Known, Ok, View, FrozenOnes, FrozenUsers, InBang, HasArray, OnlyElementsOf, Members, Unfolds;
    ViewFacts(space);
    ghost var w := ViewOf(space);
    UnfoldsNothing(w, ary);
    BangNext(v, w, frozen, ary, k, done, mod);
    var tmp := Elt(space, ary, i);
    isArray := tmp.Array?;
    if !isArray {
      BangPlain(v, w, frozen, ary, k, done, mod);
      return Flattened, 0, false, done + [v[ary][k]];
    }
    IsKnown(w, ary, i);
    out, n := FlattenAt(space, ary, i, tmp.id, []);
    ghost var r := BangArray(v, w, ViewOf(space), frozen, ary, k, done, mod, out, n);
    d := done + r;
  }

  /**
   * Array#flatten!: without nested arrays nothing changes; otherwise the array gets its leaves, in
   * order, or the call fails because the array is recursive or frozen. No other array changes. Whatever
   * comes out, and so also when the array turns out to be recursive, the elements are what they were with
   * some nested arrays unfolded.
   */
  method FlattenBang(space: ArraySpace, ary: int) returns (out: Outcome)
    requires space.Valid() && Known(ViewOf(space)) && ary in ViewOf(space)
    modifies space
    ensures space.Valid() && BangResult(old(ViewOf(space)), ViewOf(space), old(IsFrozen(space, ary)), ary, out)
    ensures Unfolds(old(ViewOf(space)), ViewOf(space), ary) && Known(ViewOf(space))
    ensures space.users == old(space.users) && FrozenUsers(space.Now()) == old(FrozenUsers(space.Now()))
  {
    ghost var v, frozen := ViewOf(space), IsFrozen(space, ary);
    ghost var k: nat, done: seq<Value> := 0, [];
    var i, mod := 0, false;
    hide Flat, FlattensAt, Known, Ok, View, FrozenOnes, FrozenUsers, InBang, HasArray, OnlyElementsOf, BangResult;
    hide Unfolds;
    ViewFacts(space);
    BangStarts(v, frozen, ary);
    UnfoldsNothing(v, ary);
    UnfoldsKnown(v, v, ary);
    var len := Len(space, ary);
    while i < len
      invariant space.Valid() && space.users == old(space.users) && IsFrozen(space, ary) == frozen
      invariant Unfolds(v, ViewOf(space), ary) && Known(ViewOf(space))
      invariant FrozenUsers(space.Now()) == old(FrozenUsers(space.Now()))
      invariant InBang(v, ViewOf(space), frozen, ary, k, done, mod) && i == |done|
      invariant ary in ViewOf(space) && len == |ViewOf(space)[ary]| && k <= |v[ary]|
      decreases |v[ary]| - k
    {
      var n, isArray;
      ghost var w := ViewOf(space);
      out, n, isArray, done := BangRound(space, v, frozen, ary, k, done, mod, i);
      UnfoldsOn(v, w, ViewOf(space), ary);
      UnfoldsKnown(v, ViewOf(space), ary);
      if out != Flattened { return; }
      k, mod := k + 1, mod || isArray;
      i := i + n + 1;
      ViewFacts(space);
      len := Len(space, ary);
    }
    BangEnds(v, ViewOf(space), frozen, ary, k, done, mod);
    out := if mod then Flattened else Unchanged;
  }
}
