/** The ring of started threads: insertion, removal, and the scheduler's choice. */
module ThreadRing {
  import opened ThreadChoice

  /** struct thread, as far as the ring goes; links are 0 when there is none. */
  datatype Thread = Thread(next: int, prev: int, status: Status, priority: int, saved: bool)

  type Threads = map<int, Thread>

  predicate Distinct(r: seq<int>) {
    forall i, j :: 0 <= i < j < |r| ==> r[i] != r[j]
  }

  /** Going round: the place behind i. */
  function Behind(n: nat, i: nat): (j: nat)
    requires i < n
    ensures j < n
  {
    if i + 1 < n then i + 1 else 0
  }

  /** The started, not killed threads are linked both ways, in this order, and the last one with the first. */
  ghost predicate Linked(ts: Threads, r: seq<int>) {
    && (forall i :: 0 <= i < |r| ==> r[i] in ts && r[i] != 0 && !ts[r[i]].status.Killed?)
    && (forall i :: 0 <= i < |r| ==> ts[r[i]].next == r[Behind(|r|, i)] && ts[r[Behind(|r|, i)]].prev == r[i])
  }

  /** A removed thread still has a link back: to the ring, or to a thread removed later. */
  ghost predicate LeadsBack(ts: Threads, r: seq<int>, dead: seq<int>, k: nat)
    requires k < |dead|
  {
    dead[k] in ts && ts[dead[k]].status.Killed? && (ts[dead[k]].prev in r || ts[dead[k]].prev in dead[k + 1..])
  }

  ghost predicate RingOk(ts: Threads, r: seq<int>, dead: seq<int>) {
    && r != [] && Distinct(r) && Linked(ts, r)
    && (forall k :: 0 <= k < |dead| ==> LeadsBack(ts, r, dead, k))
    && (forall t :: t in r ==> t !in dead)
  }

  function InfoOf(t: Thread): Info {
    Info(t.status, t.priority, t.saved)
  }

  function Infos(ts: Threads, r: seq<int>): (s: seq<Info>)
    requires forall i :: 0 <= i < |r| ==> r[i] in ts
    ensures |s| == |r|
  {
    seq(|r|, i requires 0 <= i < |r| => InfoOf(ts[r[i]]))
  }

  // ---------- insertion ----------

  /** The links after th has been merged in behind curr, whose next one is n, one assignment after the other. */
  function Merged(ts: Threads, curr: int, n: int, th: int): Threads
    requires curr in ts && n in ts && th in ts && th != curr && th != n
  {
    var a := ts[th := ts[th].(prev := curr)];
    var b := a[n := a[n].(prev := th)];
    var c := b[th := b[th].(next := b[curr].next)];
    var d := c[curr := c[curr].(next := th)];
    d[th := d[th].(priority := d[curr].priority)]
  }

  lemma MergedAt(ts: Threads, curr: int, n: int, th: int)
    requires curr in ts && n in ts && th in ts && th != curr && th != n && ts[curr].next == n
    ensures var m := Merged(ts, curr, n, th);
            && m.Keys == ts.Keys && m[th] == ts[th].(prev := curr, next := n, priority := ts[curr].priority)
            && (forall t :: t in ts && t != th ==>
                  m[t] == ts[t].(next := if t == curr then th else ts[t].next,
                                 prev := if t == n then th else ts[t].prev))
  {
  }

  /** A place of the ring after an insertion behind place at. */
  lemma InsertedPlace(r: seq<int>, at: nat, th: int, i: nat)
    requires at < |r| && i <= |r|
    ensures (r[..at + 1] + [th] + r[at + 1..])[i] == if i <= at then r[i] else if i == at + 1 then th else r[i - 1]
  {
  }

  lemma LinkAt(ts: Threads, r: seq<int>, i: nat)
    requires Linked(ts, r) && i < |r|
    ensures r[i] in ts && r[i] != 0 && !ts[r[i]].status.Killed? && r[Behind(|r|, i)] in ts
    ensures ts[r[i]].next == r[Behind(|r|, i)] && ts[r[Behind(|r|, i)]].prev == r[i]
  {
  }

  lemma DistinctAt(r: seq<int>, i: nat, j: nat)
    requires Distinct(r) && i < |r| && j < |r| && i != j
    ensures r[i] != r[j]
  {
  }

  /** Links other than the one cut open stay. */
  lemma OtherLink(ts: Threads, r: seq<int>, at: nat, th: int, m: Threads, x: nat)
    requires Distinct(r) && Linked(ts, r) && at < |r| && th in ts && th !in r && x < |r| && x != at
    requires r[at] in ts && r[Behind(|r|, at)] in ts && m == Merged(ts, r[at], r[Behind(|r|, at)], th)
    ensures r[x] in m && r[x] != 0 && !m[r[x]].status.Killed? && r[Behind(|r|, x)] in m
    ensures m[r[x]].next == r[Behind(|r|, x)] && m[r[Behind(|r|, x)]].prev == r[x]
  {
    var n := |r|;
    LinkAt(ts, r, at);
    MergedAt(ts, r[at], r[Behind(n, at)], th);
    LinkAt(ts, r, x);
    LinkAt(ts, r, Behind(n, x));
    DistinctAt(r, x, at);
    DistinctAt(r, Behind(n, x), Behind(n, at));
    assert r[x] != th && r[Behind(n, x)] != th;
    hide Merged, Linked, Distinct;
  }

  lemma InsertedLink(ts: Threads, r: seq<int>, at: nat, th: int, m: Threads, q: seq<int>, i: nat)
    requires Distinct(r) && Linked(ts, r) && at < |r| && th in ts && th != 0 && th !in r && !ts[th].status.Killed?
    requires i <= |r|
    requires r[at] in ts && r[Behind(|r|, at)] in ts && m == Merged(ts, r[at], r[Behind(|r|, at)], th)
    requires q == r[..at + 1] + [th] + r[at + 1..]
    ensures q[i] in m && q[i] != 0 && !m[q[i]].status.Killed? && q[Behind(|r| + 1, i)] in m
    ensures m[q[i]].next == q[Behind(|r| + 1, i)] && m[q[Behind(|r| + 1, i)]].prev == q[i]
  {
    hide Merged, Linked, Distinct;
    var n := |r|;
    InsertedPlace(r, at, th, i);
    InsertedPlace(r, at, th, Behind(n + 1, i));
    if i < at {
      OtherLink(ts, r, at, th, m, i);
    } else if i <= at + 1 {
      LinkAt(ts, r, at);
      MergedAt(ts, r[at], r[Behind(n, at)], th);
    } else {
      OtherLink(ts, r, at, th, m, i - 1);
    }
  }

  lemma InsertedLinked(ts: Threads, r: seq<int>, at: nat, th: int, m: Threads)
    requires Distinct(r) && Linked(ts, r) && at < |r| && th in ts && th != 0 && th !in r && !ts[th].status.Killed?
    requires r[at] in ts && r[Behind(|r|, at)] in ts && m == Merged(ts, r[at], r[Behind(|r|, at)], th)
    ensures Linked(m, r[..at + 1] + [th] + r[at + 1..])
  {
    var q := r[..at + 1] + [th] + r[at + 1..];
    forall i | 0 <= i < |q|
      ensures q[i] in m && q[i] != 0 && !m[q[i]].status.Killed? && q[Behind(|q|, i)] in m
      ensures m[q[i]].next == q[Behind(|q|, i)] && m[q[Behind(|q|, i)]].prev == q[i]
    {
      InsertedLink(ts, r, at, th, m, q, i);
    }
    hide Merged, Distinct;
  }

  /** Merging in a thread keeps the ring, with the new one behind the current one. */
  lemma InsertedRing(ts: Threads, r: seq<int>, dead: seq<int>, at: nat, th: int)
    requires RingOk(ts, r, dead) && at < |r| && th in ts && th != 0 && th !in r && th !in dead && !ts[th].status.Killed?
    requires r[at] in ts && r[Behind(|r|, at)] in ts
    ensures RingOk(Merged(ts, r[at], r[Behind(|r|, at)], th), r[..at + 1] + [th] + r[at + 1..], dead)
  {
    var m, q := Merged(ts, r[at], r[Behind(|r|, at)], th), r[..at + 1] + [th] + r[at + 1..];
    LinkAt(ts, r, at);
    MergedAt(ts, r[at], r[Behind(|r|, at)], th);
    hide Merged, LeadsBack, Linked, Distinct;
    InsertedLinked(ts, r, at, th, m);
    InsertedDistinct(r, at, th);
    InsertedDead(ts, m, r, q, dead, at, th);
  }

  lemma InsertedDistinct(r: seq<int>, at: nat, th: int)
    requires Distinct(r) && at < |r| && th !in r
    ensures Distinct(r[..at + 1] + [th] + r[at + 1..])
    ensures forall t :: t in r[..at + 1] + [th] + r[at + 1..] <==> t in r || t == th
  {
    var q := r[..at + 1] + [th] + r[at + 1..];
    forall i, j | 0 <= i < j < |q| ensures q[i] != q[j] {
      InsertedPlace(r, at, th, i);
      InsertedPlace(r, at, th, j);
    }
    forall t ensures t in q <==> t in r || t == th {
      if t in r {
        var i :| 0 <= i < |r| && r[i] == t;
        InsertedPlace(r, at, th, if i <= at then i else i + 1);
        assert q[if i <= at then i else i + 1] == t;
      }
      if t == th { assert q[at + 1] == t; }
    }
  }

  lemma InsertedDead(ts: Threads, m: Threads, r: seq<int>, q: seq<int>, dead: seq<int>, at: nat, th: int)
    requires RingOk(ts, r, dead) && at < |r| && th !in dead && m.Keys == ts.Keys
    requires forall t :: t in q <==> t in r || t == th
    requires forall t :: t in ts && t != th && t !in r ==> m[t] == ts[t]
    ensures forall k :: 0 <= k < |dead| ==> LeadsBack(m, q, dead, k)
  {
    forall k | 0 <= k < |dead| ensures LeadsBack(m, q, dead, k) {
      assert LeadsBack(ts, r, dead, k);
      assert dead[k] in dead;
    }
  }

  // ---------- removal ----------

  function Before(n: nat, i: nat): (j: nat)
    requires i < n
    ensures j < n && Behind(n, j) == i
  {
    if i > 0 then i - 1 else n - 1
  }

  /** The links after th has been killed and taken out between p and n. */
  function Unlinked(ts: Threads, p: int, n: int, th: int): Threads
    requires p in ts && n in ts && th in ts && th != p && th != n
  {
    var a := ts[th := ts[th].(status := Killed, saved := false)];
    var b := a[p := a[p].(next := n)];
    b[n := b[n].(prev := p)]
  }

  lemma UnlinkedAt(ts: Threads, p: int, n: int, th: int)
    requires p in ts && n in ts && th in ts && th != p && th != n
    ensures var m := Unlinked(ts, p, n, th);
            && m.Keys == ts.Keys && m[th] == ts[th].(status := Killed, saved := false)
            && (forall t :: t in ts && t != th ==>
                  m[t] == ts[t].(next := if t == p then n else ts[t].next, prev := if t == n then p else ts[t].prev))
  {
  }

  lemma RemovedPlace(r: seq<int>, at: nat, i: nat)
    requires at < |r| && i + 1 < |r|
    ensures (r[..at] + r[at + 1..])[i] == if i < at then r[i] else r[i + 1]
  {
  }

  /** Links that do not touch the removed thread stay. */
  lemma LinkKept(ts: Threads, r: seq<int>, at: nat, m: Threads, x: nat)
    requires Distinct(r) && Linked(ts, r) && at < |r| && x < |r| && x != at && Behind(|r|, x) != at
    requires r[at] in ts && r[Before(|r|, at)] in ts && r[Behind(|r|, at)] in ts
    requires r[at] != r[Before(|r|, at)] && r[at] != r[Behind(|r|, at)]
    requires m == Unlinked(ts, r[Before(|r|, at)], r[Behind(|r|, at)], r[at])
    ensures r[x] in m && r[x] != 0 && !m[r[x]].status.Killed? && r[Behind(|r|, x)] in m
    ensures m[r[x]].next == r[Behind(|r|, x)] && m[r[Behind(|r|, x)]].prev == r[x]
  {
    var n := |r|;
    LinkAt(ts, r, x);
    DistinctAt(r, x, at);
    DistinctAt(r, Behind(n, x), at);
    DistinctAt(r, x, Before(n, at));
    DistinctAt(r, Behind(n, x), Behind(n, at));
    UnlinkedAt(ts, r[Before(n, at)], r[Behind(n, at)], r[at]);
    hide Unlinked, Linked, Distinct;
  }

  lemma LinkClosed(ts: Threads, r: seq<int>, at: nat, m: Threads)
    requires Distinct(r) && Linked(ts, r) && at < |r|
    requires r[at] in ts && r[Before(|r|, at)] in ts && r[Behind(|r|, at)] in ts
    requires r[at] != r[Before(|r|, at)] && r[at] != r[Behind(|r|, at)]
    requires m == Unlinked(ts, r[Before(|r|, at)], r[Behind(|r|, at)], r[at])
    ensures var p, n := r[Before(|r|, at)], r[Behind(|r|, at)];
            p in m && p != 0 && !m[p].status.Killed? && n in m && m[p].next == n && m[n].prev == p
  {
    LinkAt(ts, r, Before(|r|, at));
    UnlinkedAt(ts, r[Before(|r|, at)], r[Behind(|r|, at)], r[at]);
    hide Unlinked, Linked, Distinct;
  }

  lemma RemovedLink(ts: Threads, r: seq<int>, at: nat, m: Threads, q: seq<int>, i: nat)
    requires Distinct(r) && Linked(ts, r) && at < |r| && i + 1 < |r| && q == r[..at] + r[at + 1..]
    requires r[at] in ts && r[Before(|r|, at)] in ts && r[Behind(|r|, at)] in ts
    requires r[at] != r[Before(|r|, at)] && r[at] != r[Behind(|r|, at)]
    requires m == Unlinked(ts, r[Before(|r|, at)], r[Behind(|r|, at)], r[at])
    ensures q[i] in m && q[i] != 0 && !m[q[i]].status.Killed? && q[Behind(|r| - 1, i)] in m
    ensures m[q[i]].next == q[Behind(|r| - 1, i)] && m[q[Behind(|r| - 1, i)]].prev == q[i]
  {
    hide Unlinked, Linked, Distinct;
    var n := |r|;
    RemovedPlace(r, at, i);
    RemovedPlace(r, at, Behind(n - 1, i));
    var x := if i < at then i else i + 1;
    if x == Before(n, at) { LinkClosed(ts, r, at, m); } else { LinkKept(ts, r, at, m, x); }
  }

  lemma RemovedLinked(ts: Threads, r: seq<int>, at: nat, m: Threads)
    requires Distinct(r) && Linked(ts, r) && at < |r|
    requires r[at] in ts && r[Before(|r|, at)] in ts && r[Behind(|r|, at)] in ts
    requires r[at] != r[Before(|r|, at)] && r[at] != r[Behind(|r|, at)]
    requires m == Unlinked(ts, r[Before(|r|, at)], r[Behind(|r|, at)], r[at])
    ensures Linked(m, r[..at] + r[at + 1..])
  {
    var q := r[..at] + r[at + 1..];
    forall i | 0 <= i < |q|
      ensures q[i] in m && q[i] != 0 && !m[q[i]].status.Killed? && q[Behind(|q|, i)] in m
      ensures m[q[i]].next == q[Behind(|q|, i)] && m[q[Behind(|q|, i)]].prev == q[i]
    {
      RemovedLink(ts, r, at, m, q, i);
    }
    hide Unlinked, Distinct;
  }

  /** Killing a thread and taking it out keeps the ring of the others. */
  lemma RemovedRing(ts: Threads, r: seq<int>, dead: seq<int>, at: nat)
    requires RingOk(ts, r, dead) && at < |r| && 2 <= |r|
    requires r[at] in ts && r[Before(|r|, at)] in ts && r[Behind(|r|, at)] in ts
    requires r[at] != r[Before(|r|, at)] && r[at] != r[Behind(|r|, at)]
    ensures RingOk(Unlinked(ts, r[Before(|r|, at)], r[Behind(|r|, at)], r[at]), r[..at] + r[at + 1..], dead + [r[at]])
  {
    hide Unlinked, LeadsBack, Linked, Distinct;
    var m, q := Unlinked(ts, r[Before(|r|, at)], r[Behind(|r|, at)], r[at]), r[..at] + r[at + 1..];
    LinkAt(ts, r, Before(|r|, at));
    RemovedLinked(ts, r, at, m);
    RemovedDistinct(r, at);
    forall k | 0 <= k < |dead + [r[at]]| ensures LeadsBack(m, q, dead + [r[at]], k) {
      RemovedDead(ts, m, r, q, dead, at, k);
    }
    assert |q| == |r| - 1;
    forall t | t in q ensures t !in dead + [r[at]] {
      assert t in r && t != r[at];
    }
  }

  lemma RemovedDistinct(r: seq<int>, at: nat)
    requires Distinct(r) && at < |r|
    ensures Distinct(r[..at] + r[at + 1..])
    ensures forall t :: t in r[..at] + r[at + 1..] <==> t in r && t != r[at]
  {
    var q := r[..at] + r[at + 1..];
    forall i, j | 0 <= i < j < |q| ensures q[i] != q[j] {
      RemovedPlace(r, at, i);
      RemovedPlace(r, at, j);
    }
    forall t ensures t in q <==> t in r && t != r[at] {
      if t in r && t != r[at] {
        var i :| 0 <= i < |r| && r[i] == t;
        RemovedPlace(r, at, if i < at then i else i - 1);
        assert q[if i < at then i else i - 1] == t;
      }
      if t in q {
        var i :| 0 <= i < |q| && q[i] == t;
        RemovedPlace(r, at, i);
      }
    }
  }

  lemma RemovedDead(ts: Threads, m: Threads, r: seq<int>, q: seq<int>, dead: seq<int>, at: nat, k: nat)
    requires RingOk(ts, r, dead) && at < |r| && k <= |dead| && forall t :: t in q <==> t in r && t != r[at]
    requires r[at] in ts && r[Before(|r|, at)] in ts && r[Behind(|r|, at)] in ts && ts[r[at]].prev == r[Before(|r|, at)]
    requires r[at] != r[Before(|r|, at)] && r[at] != r[Behind(|r|, at)]
    requires m == Unlinked(ts, r[Before(|r|, at)], r[Behind(|r|, at)], r[at])
    ensures LeadsBack(m, q, dead + [r[at]], k)
  {
    var gone := dead + [r[at]];
    UnlinkedAt(ts, r[Before(|r|, at)], r[Behind(|r|, at)], r[at]);
    hide Unlinked;
    if k < |dead| {
      assert LeadsBack(ts, r, dead, k);
      assert dead[k] in dead;
      assert gone[k + 1..] == dead[k + 1..] + [r[at]];
      assert m[dead[k]] == ts[dead[k]];
    } else {
      assert r[Before(|r|, at)] in q;
    }
  }

  // ---------- the scheduler ----------

  datatype Outcome = Switched | Continued | Deadlock

  /** The choice among the first k threads, and the thread chosen. */
  ghost predicate ChosenSoFar(ts: Threads, order: seq<int>, k: nat, ni: int, next: int)
    requires k <= |order| && forall i :: 0 <= i < |order| ==> order[i] in ts
  {
    && IsChoice(Infos(ts, order)[..k], ni) && !SomeToKill(Infos(ts, order)[..k])
    && (ni == -1 ==> next == 0) && (ni >= 0 ==> next == order[ni]) && (next == 0 || next in ts)
  }

  class Scheduler {
    var threads: Threads
    var currThread: int
    const mainThread: int
    ghost var ring: seq<int>        // in the order of next
    ghost var dead: seq<int>        // removed threads, in the order of removal

    ghost predicate Valid()
      reads this
    {
      RingOk(threads, ring, dead) && 0 !in threads && mainThread in ring && (currThread in ring || currThread in dead)
    }

    /** Init_Thread: the main thread, alone. */
    constructor (main: int)
      requires main != 0
      ensures Valid() && ring == [main] && dead == [] && currThread == mainThread == main
      ensures threads == map[main := Thread(main, main, Runnable, 0, false)]
    {
      threads := map[main := Thread(main, main, Runnable, 0, false)];
      currThread, mainThread, ring, dead := main, main, [main], [];
    }

    /** A thread that is not started yet: it is in no ring. */
    method Allocate(th: int)
      requires Valid() && th !in threads && th != 0
      modifies this`threads
      ensures Valid() && threads == old(threads)[th := Thread(0, 0, Runnable, 0, false)] && th !in ring && th !in dead
    {
      hide RingOk;
      Elsewhere(threads, ring, dead, th, Thread(0, 0, Runnable, 0, false));
      threads := threads[th := Thread(0, 0, Runnable, 0, false)];
    }

    /**
     * rb_thread_start_0: save the stack of the current thread, merge a thread in behind it, with its
     * priority, save the stack of the new one, and go on as that one.
     */
    method Start(th: int, ghost at: nat)
      requires Valid() && at < |ring| && ring[at] == currThread && th in threads && th !in ring && th !in dead
      requires !threads[th].status.Killed?
      modifies this`threads, this`ring, this`currThread
      ensures Valid() && ring == old(ring)[..at + 1] + [th] + old(ring)[at + 1..] && currThread == th
      ensures StartedInfos(old(threads), threads, old(currThread), th)
    {
      hide RingOk, SameInfos, Merged, StartedInfos, WithStack, InfoOf;
      ghost var ts, r := threads, ring;
      Known(ts, r, dead);
      SaveContext(currThread);
      ghost var k1 := threads;
      StackFields(ts, k1, r, currThread, mainThread, false);
      StartOk(k1, r, dead, at, th, mainThread);
      var curr := currThread;
      threads := Merge(curr, th);
      ring := r[..at + 1] + [th] + r[at + 1..];
      ghost var k2 := threads;
      NewInRing(ring, at, th);
      SaveContext(th);
      currThread := th;
      StartSaves(ts, r, k1, k2, threads, ring, curr, th);
    }

    /** The assignments of the insertion. */
    method Merge(curr: int, th: int) returns (ts: Threads)
      requires curr in threads && th in threads && th != curr && threads[curr].next in threads
      requires th != threads[curr].next
      ensures ts == Merged(threads, curr, threads[curr].next, th)
    {
      ts := threads[th := threads[th].(prev := curr)];
      var n := ts[curr].next;
      ts := ts[n := ts[n].(prev := th)];
      ts := ts[th := ts[th].(next := ts[curr].next)];
      ts := ts[curr := ts[curr].(next := th)];
      ts := ts[th := ts[th].(priority := ts[curr].priority)];
    }

    /** A thread of the ring stops, is made ready again, or is to be killed. */
    method SetStatus(th: int, status: Status)
      requires Valid() && th in ring && !status.Killed?
      modifies this`threads
      ensures Valid() && th in old(threads) && threads == old(threads)[th := old(threads)[th].(status := status)]
    {
      hide RingOk;
      ghost var ts := threads;
      LiveInRing(ts, ring, dead, th);
      InfoSet(ts, ring, dead, th, status, ts[th].saved);
      threads := threads[th := threads[th].(status := status)];
    }

    /** rb_thread_remove: kill a thread and take it out; currThread may still name it. */
    method Remove(th: int, ghost at: nat)
      requires Valid() && at < |ring| && ring[at] == th != mainThread
      modifies this`threads, this`ring, this`dead
      ensures Valid() && ring == old(ring)[..at] + old(ring)[at + 1..] && dead == old(dead) + [th]
      ensures SameInfos(old(threads), threads, th)
    {
      hide RingOk, SameInfos, Unlinked;
      ghost var ts, r := threads, ring;
      RemovalFacts(ts, r, dead, at, mainThread);
      RemoveOk(ts, r, dead, at, mainThread, currThread);
      if threads[th].status.Killed? { return; }
      threads := Unlink(th);
      ring, dead := r[..at] + r[at + 1..], dead + [th];
    }

    /** The assignments of the removal. */
    method Unlink(th: int) returns (ts: Threads)
      requires th in threads && threads[th].prev in threads && threads[th].next in threads && th != threads[th].prev
      requires th != threads[th].next
      ensures ts == Unlinked(threads, threads[th].prev, threads[th].next, th)
    {
      ts := threads[th := threads[th].(status := Killed, saved := false)];
      var p, n := ts[th].prev, ts[th].next;
      ts := ts[p := ts[p].(next := n)];
      ts := ts[n := ts[n].(prev := p)];
    }

    /** The start of rb_thread_schedule: from a killed thread go back to a live one. */
    method StartingThread() returns (curr: int, ghost at: nat)
      requires Valid()
      ensures at < |ring| && curr == ring[at] && (currThread in ring ==> curr == currThread)
    {
      hide RingOk;
      curr := currThread;
      ghost var k := PlaceAmongDead(dead, curr);
      Alive(threads, ring, dead);
      while threads[curr].status.Killed?
        invariant curr in threads && (curr in ring || (k < |dead| && dead[k] == curr))
        invariant currThread in ring ==> curr == currThread
        decreases |dead| - k
      {
        k := LeadsOn(threads, ring, dead, k);
        curr := threads[curr].prev;
      }
      at := PlaceInRing(threads, ring, dead, curr);
    }

    /** The selection loop of rb_thread_schedule: once around the ring, the starting thread last. */
    method Choose(curr: int, ghost at: nat) returns (next: int, ghost ni: int)
      requires Valid() && at < |ring| && ring[at] == curr
      ensures InThreads(threads, ring) && IsChoice(Around(Infos(threads, ring), at), ni)
      ensures ChosenIs(Around(ring, at), ni, next)
    {
      hide RingOk, IsChoice, SomeToKill, Around, Linked;
      ghost var ts, order := threads, Around(ring, at);
      OrderFacts(ts, ring, dead, at);
      var th := curr;
      next, ni := 0, -1;
      ghost var k: nat := 0;
      var more := true;
      NothingChosen(ts, order);
      while more
        invariant k <= |order| && th == (if k == 0 then curr else order[k - 1])
        invariant more ==> k < |order| && ChosenSoFar(ts, order, k, ni, next) && (next == 0 || next in ts)
        invariant !more ==> IsChoice(Infos(ts, order), ni) && ChosenIs(order, ni, next)
        decreases more, |order| - k
      {
        NextInOrder(ts, ring, dead, at, k);
        th := threads[th].next;
        ghost var n0, i0 := next, ni;
        var t := threads[th];
        if t.status.ToKill? {
          next, ni := th, k;
          more := false;
          FirstToKill(ts, order, k, i0, n0);
        } else {
          if t.status.Runnable? && t.saved {
            if next == 0 || threads[next].priority < t.priority {
              next, ni := th, k;
            }
          }
          OneMoreChosen(ts, order, k, i0, n0, ni, next);
          if th == curr {
            more := false;
            AllChosen(ts, ring, dead, at, k, ni, next);
          } else {
            NotAround(ts, ring, dead, at, k);
          }
        }
        k := k + 1;
      }
    }

    /**
     * rb_thread_schedule, without the waiting for time and files: pick a thread and go on with it. A thread
     * that is left has its stack saved. When there is none to pick, the main thread is told of the deadlock.
     */
    method Schedule() returns (out: Outcome, ghost at: nat, ghost to: nat)
      requires Valid()
      modifies this`threads, this`currThread
      ensures Valid() && at < |ring| && (old(currThread) in ring ==> old(currThread) == ring[at])
      ensures mainThread in old(threads) && (out.Deadlock? ==> currThread == mainThread)
      ensures out.Deadlock? ==> threads == old(WithStack(Told(threads, mainThread), ring, currThread))
      ensures out.Deadlock? ==> NobodyReady(old(threads), ring)
      ensures out.Switched? ==> threads == old(WithStack(threads, ring, currThread))
      ensures out.Continued? ==> threads == old(threads) && currThread == old(currThread)
      ensures StackSaved(old(threads), threads, old(currThread), old(currThread) in ring && !out.Continued?,
                         if out.Deadlock? then mainThread else 0)
      ensures !out.Deadlock? ==> to < |ring| && currThread == ring[to]
      ensures out.Deadlock? || PickedIn(old(threads), ring, at, to)
    {
      hide RingOk, Picks, InThreads, IsChoice, Around, Told, WithStack, StackSaved;
      ghost var ts := threads;
      Known(ts, ring, dead);
      NothingSaved(ts, currThread);
      var curr;
      curr, at := StartingThread();
      OrderFacts(ts, ring, dead, at);
      to := at;
      if threads[currThread].next == currThread && threads[currThread].status.Runnable? {
        RingOfOne(ts, ring, dead, at, currThread);
        return Continued, at, at;
      }
      var next;
      ghost var ni: int;
      next, ni := Choose(curr, at);
      if next == 0 {
        NoneReady(ts, ring, dead, at, ni, next);
        TellMain();
        SaveContext(currThread);
        StackFields(ts, threads, ring, currThread, mainThread, true);
        currThread := mainThread;
        return Deadlock, at, at;
      }
      to := Picked(ts, ring, dead, at, ni, next);
      if threads[next].status.Runnable? && next == currThread { return Continued, at, to; }
      SaveContext(currThread);
      StackFields(ts, threads, ring, currThread, mainThread, false);
      currThread := next;
      out := Switched;
    }

    /** rb_thread_save_context, for a thread that is not dead. */
    method SaveContext(th: int)
      requires Valid() && (th in ring || th in dead)
      modifies this`threads
      ensures Valid() && threads == old(WithStack(threads, ring, th))
    {
      hide RingOk;
      ghost var ts := threads;
      LiveInRing(ts, ring, dead, th);
      if !threads[th].status.Killed? {
        InfoSet(ts, ring, dead, th, threads[th].status, true);
        threads := threads[th := threads[th].(saved := true)];
      }
    }

    /**
     * As many schedulings as there are ready threads of highest priority, nothing else happening: each
     * of these threads gets to run. cs has the places of the current thread, one after the other. That thread
     * has been left before, so it has a stack to go back to.
     */
    method RunAround(rounds: nat, ghost p: int) returns (ghost cs: seq<nat>)
      requires Valid() && 2 <= |ring| && currThread in ring && InThreads(threads, ring)
      requires currThread in threads && threads[currThread].saved
      requires Highest(Infos(threads, ring), p) && rounds == |Places(Infos(threads, ring), p, 0)|
      modifies this`threads, this`currThread
      ensures Valid() && threads == old(threads) && |cs| == rounds + 1 && Run(Infos(threads, ring), cs)
      ensures cs[0] < |ring| && ring[cs[0]] == old(currThread) && cs[rounds] < |ring| && ring[cs[rounds]] == currThread
      ensures forall t :: 0 <= t < |ring| && Ready(Infos(threads, ring)[t]) && Infos(threads, ring)[t].priority == p ==>
                exists i :: 1 <= i < |cs| && cs[i] == t
    {
      hide RingOk, Picks, SameInfos, Places;
      ghost var s := Infos(threads, ring);
      ghost var c: nat :| c < |ring| && ring[c] == currThread;
      cs := [c];
      var i := 0;
      while i < rounds
        invariant i <= rounds && |cs| == i + 1 && Run(s, cs) && Valid() && threads == old(threads)
        invariant cs[0] == c && cs[i] < |ring| && ring[cs[i]] == currThread
        invariant currThread in threads && threads[currThread].saved
      {
        ghost var ready := SomeReady(threads, ring, p);
        var out;
        ghost var at, to;
        SavedAlready(threads, ring, currThread);
        out, at, to := Schedule();
        PlaceIsUnique(old(threads), ring, dead, cs[i], at);
        PickIsSaved(old(threads), ring, p, at, to);
        cs := cs + [to];
        i := i + 1;
      }
      forall t | 0 <= t < |ring| && Ready(s[t]) && s[t].priority == p ensures exists i :: 1 <= i < |cs| && cs[i] == t {
        Fairness(s, p, cs, t);
      }
    }

    /**
     * From any current thread, saved or not, if there is a thread to go on with: one scheduling more, and
     * every thread that is ready and of highest priority once the current one has its stack gets to run.
     */
    method RunAroundAnew(rounds: nat, ghost p: int, ghost c: nat, ghost s: seq<Info>) returns (ghost cs: seq<nat>)
      requires AreInfos(threads, ring, s) && c < |s| && SomeReadyIn(s) && 2 <= |s|
      requires Valid() && c < |ring| && ring[c] == currThread
      requires Highest(Rescued(s, c), p) && rounds == |Places(Rescued(s, c), p, 0)|
      modifies this`threads, this`currThread
      ensures Valid() && threads == old(WithStack(threads, ring, currThread))
      ensures |cs| == rounds + 1 && Run(Rescued(s, c), cs) && cs[rounds] < |ring| && ring[cs[rounds]] == currThread
      ensures forall t :: 0 <= t < |s| && Ready(Rescued(s, c)[t]) && Rescued(s, c)[t].priority == p ==>
                exists i :: 0 <= i < |cs| && cs[i] == t
    {
      hide RingOk, Picks, Places, Highest, NobodyReady, Infos, Rescued, WithStack;
      ghost var ts := threads;
      NobodyToKill(ts, ring, c, s, p);
      SwitchOnce();
      RescuedInfos(ts, ring, dead, c, threads);
      cs := RunAround(rounds, p);
    }

    /** A scheduling with a thread to go on with, and none to be killed. */
    method SwitchOnce()
      requires Valid() && 2 <= |ring| && currThread in ring && InThreads(threads, ring) && !NobodyReady(threads, ring)
      requires forall t :: t in ring ==> t in threads && !threads[t].status.ToKill?
      modifies this`threads, this`currThread
      ensures Valid() && currThread in ring && InThreads(threads, ring)
      ensures threads == old(WithStack(threads, ring, currThread))
      ensures currThread in threads && threads[currThread].saved
    {
      hide RingOk, Picks, NobodyReady, WithStack, Infos;
      ghost var ts, curr := threads, currThread;
      var out;
      ghost var at, to;
      out, at, to := Schedule();
      SavedOnce(ts, ring, curr, at, to, threads, out);
    }

    /** The deadlock branch: the main thread is to be killed. */
    method TellMain()
      requires Valid()
      modifies this`threads
      ensures Valid() && mainThread in old(threads) && threads == old(Told(threads, mainThread))
    {
      hide RingOk;
      ghost var ts := threads;
      LiveInRing(ts, ring, dead, mainThread);
      InfoSet(ts, ring, dead, mainThread, ToKill, ts[mainThread].saved);
      threads := threads[mainThread := threads[mainThread].(status := ToKill)];
    }
  }

  ghost predicate NobodyReady(ts: Threads, r: seq<int>) {
    forall t :: t in r ==> t in ts && !Ready(InfoOf(ts[t])) && !ts[t].status.ToKill?
  }

  /** The thread curr has its stack saved, unless it is dead. */
  ghost function WithStack(ts: Threads, r: seq<int>, curr: int): Threads {
    if curr in r && curr in ts then ts[curr := ts[curr].(saved := true)] else ts
  }

  ghost function Told(ts: Threads, main: int): Threads
    requires main in ts
  {
    ts[main := ts[main].(status := ToKill)]
  }

  /** The scheduler goes from at to to, or there is one thread only. */
  ghost predicate PickedIn(ts: Threads, r: seq<int>, at: nat, to: nat) {
    InThreads(ts, r) && (Picks(Infos(ts, r), at, to) || (|r| == 1 && ts[r[0]].status.Runnable?))
  }

  ghost predicate AreInfos(ts: Threads, r: seq<int>, s: seq<Info>) {
    InThreads(ts, r) && s == Infos(ts, r)
  }

  ghost predicate SomeReadyIn(s: seq<Info>) {
    exists j :: 0 <= j < |s| && Ready(s[j])
  }

  /** Infos once the thread in place c has its stack saved. */
  function Rescued(s: seq<Info>, c: nat): (r: seq<Info>)
    requires c < |s|
    ensures |r| == |s|
  {
    s[c := s[c].(saved := true)]
  }

  lemma NobodyToKill(ts: Threads, r: seq<int>, c: nat, s: seq<Info>, p: int)
    requires InThreads(ts, r) && s == Infos(ts, r) && c < |r| && Highest(Rescued(s, c), p)
    requires SomeReadyIn(s)
    ensures forall t :: t in r ==> t in ts && !ts[t].status.ToKill?
    ensures !NobodyReady(ts, r)
  {
    forall t | t in r ensures t in ts && !ts[t].status.ToKill? {
      var i :| 0 <= i < |r| && r[i] == t;
      assert !Rescued(s, c)[i].status.ToKill?;
      InfosAt(ts, r, i);
    }
    var j :| 0 <= j < |s| && Ready(s[j]);
    InfosAt(ts, r, j);
    var t := r[j];
    assert t in r && Ready(InfoOf(ts[t]));
  }

  lemma RescuedInfos(ts: Threads, r: seq<int>, dead: seq<int>, c: nat, m: Threads)
    requires RingOk(ts, r, dead) && c < |r| && m == WithStack(ts, r, r[c]) && InThreads(ts, r) && InThreads(m, r)
    ensures Infos(m, r) == Rescued(Infos(ts, r), c)
  {
    RingParts(ts, r, dead);
    hide RingOk, Linked;
    forall i | 0 <= i < |r| ensures Infos(m, r)[i] == Rescued(Infos(ts, r), c)[i] {
      if i != c { DistinctAt(r, i, c); }
    }
  }

  /** Whoever the scheduler goes on with has a stack, and so has whoever it left. */
  lemma SavedOnce(ts: Threads, r: seq<int>, curr: int, at: nat, to: nat, m: Threads, out: Outcome)
    requires InThreads(ts, r) && curr in r && curr in ts && !NobodyReady(ts, r)
    requires forall t :: t in r ==> t in ts && !ts[t].status.ToKill?
    requires out.Deadlock? ==> NobodyReady(ts, r)
    requires to < |r| && Picks(Infos(ts, r), at, to)
    requires out.Continued? ==> m == ts && r[to] == curr
    requires out.Switched? ==> m == WithStack(ts, r, curr)
    ensures !out.Deadlock? && m == WithStack(ts, r, curr) && InThreads(m, r)
    ensures r[to] in m && m[r[to]].saved
  {
    hide Picks, NobodyReady, Infos;
    var s := Infos(ts, r);
    forall j | 0 <= j < |s| ensures !s[j].status.ToKill? {
      var t := r[j];
      assert t in r;
      InfosAt(ts, r, j);
    }
    PickIsReady(s, at, to);
    InfosAt(ts, r, to);
    if out.Continued? { SavedAlready(ts, r, curr); }
  }

  /** The thread curr has its stack saved, if it is left; told is to be killed. No other field changes. */
  ghost predicate StackSaved(ts: Threads, m: Threads, curr: int, left: bool, told: int) {
    && m.Keys == ts.Keys && (left ==> curr in m && m[curr].saved)
    && forall t :: t in ts ==>
         && t in m && m[t].next == ts[t].next && m[t].prev == ts[t].prev && m[t].priority == ts[t].priority
         && m[t].status == (if t == told then ToKill else ts[t].status)
         && (m[t].saved <==> ts[t].saved || (left && t == curr))
  }

  lemma StackFields(ts: Threads, m: Threads, r: seq<int>, curr: int, main: int, told: bool)
    requires curr in ts && main in ts && 0 !in ts && m == WithStack(if told then Told(ts, main) else ts, r, curr)
    ensures StackSaved(ts, m, curr, curr in r, if told then main else 0)
  {
  }

  lemma NothingSaved(ts: Threads, curr: int)
    requires 0 !in ts
    ensures StackSaved(ts, ts, curr, false, 0)
  {
  }

  /** The current thread and the new one have their stacks saved, and the new one has that one's priority. */
  ghost predicate StartedInfos(ts: Threads, m: Threads, curr: int, th: int) {
    && curr in ts && th in ts && curr in m && th in m && m.Keys == ts.Keys
    && InfoOf(m[curr]) == InfoOf(ts[curr]).(saved := true)
    && InfoOf(m[th]) == Info(ts[th].status, ts[curr].priority, true)
    && forall t :: t in ts && t != curr && t != th ==> InfoOf(m[t]) == InfoOf(ts[t])
  }

  lemma NewInRing(r: seq<int>, at: nat, th: int)
    requires at + 1 < |r| && r[at + 1] == th
    ensures th in r
  {
  }

  lemma StartSaves(ts: Threads, r: seq<int>, k1: Threads, k2: Threads, m: Threads, q: seq<int>, curr: int, th: int)
    requires curr in r && curr in ts && th in ts && curr != th && k1 == WithStack(ts, r, curr)
    requires k2.Keys == k1.Keys && SameInfos(k1, k2, th) && th in k1 && th in k2 && curr in k1
    requires InfoOf(k2[th]) == InfoOf(k1[th]).(priority := k1[curr].priority)
    requires th in q && m == WithStack(k2, q, th)
    ensures StartedInfos(ts, m, curr, th)
  {
    forall t | t in ts && t != th ensures t in k1 && t in k2 && InfoOf(m[t]) == InfoOf(k1[t]) {
      assert t in k1 && InfoOf(k2[t]) == InfoOf(k1[t]);
    }
  }

  lemma LiveInRing(ts: Threads, r: seq<int>, dead: seq<int>, th: int)
    requires RingOk(ts, r, dead) && (th in r || th in dead)
    ensures th in ts && (th in r <==> !ts[th].status.Killed?)
  {
    Alive(ts, r, dead);
  }

  lemma SavedAlready(ts: Threads, r: seq<int>, curr: int)
    requires curr in ts && ts[curr].saved
    ensures WithStack(ts, r, curr) == ts
  {
    assert ts[curr].(saved := true) == ts[curr];
  }

  lemma PickIsSaved(ts: Threads, r: seq<int>, p: int, at: nat, to: nat)
    requires InThreads(ts, r) && Highest(Infos(ts, r), p) && Picks(Infos(ts, r), at, to)
    ensures to < |r| && r[to] in ts && ts[r[to]].saved
  {
    hide Picks;
    PickIsNext(Infos(ts, r), p, at, to);
    assert to < |r| by { PickInside(Infos(ts, r), at, to); }
    InfosAt(ts, r, to);
  }

  lemma PickInside(s: seq<Info>, at: nat, to: nat)
    requires Picks(s, at, to)
    ensures to < |s|
  {
  }

  lemma SomeReady(ts: Threads, r: seq<int>, p: int) returns (t: int)
    requires InThreads(ts, r) && Highest(Infos(ts, r), p)
    ensures t in r && t in ts && Ready(InfoOf(ts[t]))
  {
    var j :| 0 <= j < |r| && Ready(Infos(ts, r)[j]) && Infos(ts, r)[j].priority == p;
    InfosAt(ts, r, j);
    t := r[j];
  }

  lemma PlaceIsUnique(ts: Threads, r: seq<int>, dead: seq<int>, i: nat, j: nat)
    requires RingOk(ts, r, dead) && i < |r| && j < |r| && r[i] == r[j]
    ensures i == j
  {
  }

  lemma Known(ts: Threads, r: seq<int>, dead: seq<int>)
    requires RingOk(ts, r, dead)
    ensures forall t :: t in r || t in dead ==> t in ts
  {
    Alive(ts, r, dead);
  }

  lemma RingOfOne(ts: Threads, r: seq<int>, dead: seq<int>, at: nat, curr: int)
    requires RingOk(ts, r, dead) && at < |r| && curr in ts && ts[curr].next == curr && ts[curr].status.Runnable?
    requires (curr in r || curr in dead) && (curr in r ==> r[at] == curr)
    ensures |r| == 1 && curr == r[at]
  {
    Alive(ts, r, dead);
    LinkAt(ts, r, at);
    if |r| > 1 { DistinctAt(r, at, Behind(|r|, at)); }
  }

  lemma NoneReady(ts: Threads, r: seq<int>, dead: seq<int>, at: nat, ni: int, next: int)
    requires RingOk(ts, r, dead) && at < |r| && InThreads(ts, r) && ChosenIs(Around(r, at), ni, next) && next == 0
    requires IsChoice(Around(Infos(ts, r), at), ni)
    ensures NobodyReady(ts, r)
  {
    hide RingOk;
    OrderFacts(ts, r, dead, at);
    var s := Infos(ts, r);
    forall t | t in r ensures t in ts && !Ready(InfoOf(ts[t])) && !ts[t].status.ToKill? {
      var i :| 0 <= i < |r| && r[i] == t;
      hide Infos, Around;
      var x := if i > at then i - at - 1 else i + (|r| - at - 1);
      AroundAt(s, at, x);
      InfosAt(ts, r, i);
      assert Around(s, at)[x] == s[i];
    }
  }

  lemma Picked(ts: Threads, r: seq<int>, dead: seq<int>, at: nat, ni: int, next: int) returns (to: nat)
    requires RingOk(ts, r, dead) && at < |r| && InThreads(ts, r) && ChosenIs(Around(r, at), ni, next) && next != 0
    requires IsChoice(Around(Infos(ts, r), at), ni)
    ensures to < |r| && r[to] == next && next in ts && next in r && Picks(Infos(ts, r), at, to)
  {
    hide RingOk, IsChoice;
    AroundAt(r, at, ni);
    to := PlaceOf(|r|, at, ni);
  }

  lemma InfoSet(ts: Threads, r: seq<int>, dead: seq<int>, t: int, status: Status, saved: bool)
    requires RingOk(ts, r, dead) && t in r && t in ts && !status.Killed? && 0 !in ts
    ensures RingOk(ts[t := ts[t].(status := status, saved := saved)], r, dead)
    ensures 0 !in ts[t := ts[t].(status := status, saved := saved)]
  {
    var m := ts[t := ts[t].(status := status, saved := saved)];
    forall i | 0 <= i < |r|
      ensures r[i] in m && r[i] != 0 && !m[r[i]].status.Killed? && r[Behind(|r|, i)] in m
      ensures m[r[i]].next == r[Behind(|r|, i)] && m[r[Behind(|r|, i)]].prev == r[i]
    {
      LinkAt(ts, r, i);
    }
    assert Linked(m, r);
    forall k | 0 <= k < |dead| ensures LeadsBack(m, r, dead, k) {
      assert LeadsBack(ts, r, dead, k);
      assert dead[k] in dead;
    }
  }

  ghost predicate InThreads(ts: Threads, r: seq<int>) {
    forall i :: 0 <= i < |r| ==> r[i] in ts
  }

  ghost predicate ChosenIs(order: seq<int>, ni: int, next: int) {
    -1 <= ni < |order| && next == if ni < 0 then 0 else order[ni]
  }

  lemma InfosAt(ts: Threads, r: seq<int>, i: nat)
    requires InThreads(ts, r) && i < |r|
    ensures Infos(ts, r)[i] == InfoOf(ts[r[i]])
  {
  }

  /** The threads in the order the scheduler looks at them. */
  lemma OrderFacts(ts: Threads, r: seq<int>, dead: seq<int>, at: nat)
    requires RingOk(ts, r, dead) && at < |r|
    ensures InThreads(ts, r) && InThreads(ts, Around(r, at)) && Infos(ts, Around(r, at)) == Around(Infos(ts, r), at)
    ensures forall i :: 0 <= i < |r| ==> Around(r, at)[i] != 0
  {
    Alive(ts, r, dead);
    forall i | 0 <= i < |r| ensures Around(r, at)[i] in ts && Around(r, at)[i] != 0 {
      AroundAt(r, at, i);
      LinkAt(ts, r, PlaceOf(|r|, at, i));
    }
    var x, y := Infos(ts, Around(r, at)), Around(Infos(ts, r), at);
    forall i | 0 <= i < |x| ensures x[i] == y[i] {
      AroundAt(r, at, i);
      AroundAt(Infos(ts, r), at, i);
    }
  }

  lemma NothingChosen(ts: Threads, order: seq<int>)
    requires InThreads(ts, order)
    ensures ChosenSoFar(ts, order, 0, -1, 0)
  {
  }

  /** The next link leads to the next thread in order. */
  lemma NextInOrder(ts: Threads, r: seq<int>, dead: seq<int>, at: nat, k: nat)
    requires RingOk(ts, r, dead) && at < |r| && k < |r|
    ensures var th := if k == 0 then r[at] else Around(r, at)[k - 1]; th in ts && ts[th].next == Around(r, at)[k]
  {
    hide RingOk, Linked, Around, PlaceOf;
    RingParts(ts, r, dead);
    AroundAt(r, at, k);
    PlacesFollow(|r|, at, k);
    if k == 0 {
      LinkAt(ts, r, at);
    } else {
      AroundAt(r, at, k - 1);
      LinkAt(ts, r, PlaceOf(|r|, at, k - 1));
    }
  }

  lemma PlacesFollow(n: nat, c: nat, k: nat)
    requires c < n && k < n
    ensures PlaceOf(n, c, k) == Behind(n, if k == 0 then c else PlaceOf(n, c, k - 1))
  {
  }

  lemma FirstToKill(ts: Threads, order: seq<int>, k: nat, ni: int, next: int)
    requires InThreads(ts, order) && k < |order| && ChosenSoFar(ts, order, k, ni, next) && ts[order[k]].status.ToKill?
    ensures IsChoice(Infos(ts, order), k)
  {
    var s := Infos(ts, order);
    assert s[k].status.ToKill?;
    forall j | 0 <= j < k ensures !s[j].status.ToKill? { assert s[..k][j] == s[j]; }
  }

  lemma OneMoreChosen(ts: Threads, order: seq<int>, k: nat, ni: int, next: int, nj: int, later: int)
    requires InThreads(ts, order) && k < |order| && ChosenSoFar(ts, order, k, ni, next) && !ts[order[k]].status.ToKill?
    requires forall i :: 0 <= i < |order| ==> order[i] != 0
    requires var t := ts[order[k]];
             if t.status.Runnable? && t.saved && (next == 0 || (next in ts && ts[next].priority < t.priority))
             then nj == k && later == order[k]
             else nj == ni && later == next
    ensures ChosenSoFar(ts, order, k + 1, nj, later)
  {
    var s := Infos(ts, order);
    var a, b := s[..k], s[..k + 1];
    assert b == a + [s[k]];
    assert forall j :: 0 <= j < k ==> b[j] == a[j];
    assert !SomeToKill(b) by {
      forall j | 0 <= j < k + 1 ensures !b[j].status.ToKill? {
        if j < k { assert !a[j].status.ToKill?; }
      }
    }
  }

  lemma AllChosen(ts: Threads, r: seq<int>, dead: seq<int>, at: nat, k: nat, ni: int, next: int)
    requires RingOk(ts, r, dead) && at < |r| && k < |r| && Around(r, at)[k] == r[at] && InThreads(ts, Around(r, at))
    requires ChosenSoFar(ts, Around(r, at), k + 1, ni, next)
    ensures k + 1 == |r| && IsChoice(Infos(ts, Around(r, at)), ni) && ChosenIs(Around(r, at), ni, next)
  {
    AroundAt(r, at, k);
    if PlaceOf(|r|, at, k) != at { DistinctAt(r, PlaceOf(|r|, at, k), at); }
    var s := Infos(ts, Around(r, at));
    assert s[..k + 1] == s;
  }

  lemma NotAround(ts: Threads, r: seq<int>, dead: seq<int>, at: nat, k: nat)
    requires RingOk(ts, r, dead) && at < |r| && k < |r| && Around(r, at)[k] != r[at]
    ensures k + 1 < |r|
  {
    AroundAt(r, at, k);
  }

  lemma PlaceAmongDead(dead: seq<int>, t: int) returns (k: nat)
    ensures t in dead ==> k < |dead| && dead[k] == t
  {
    k := 0;
    if t in dead { k :| k < |dead| && dead[k] == t; }
  }

  /** The threads of the ring are alive, the removed ones killed. */
  lemma Alive(ts: Threads, r: seq<int>, dead: seq<int>)
    requires RingOk(ts, r, dead)
    ensures forall t :: t in r ==> t in ts && !ts[t].status.Killed?
    ensures forall t :: t in dead ==> t in ts && ts[t].status.Killed?
  {
    forall t | t in r ensures t in ts && !ts[t].status.Killed? {
      var i :| 0 <= i < |r| && r[i] == t;
      LinkAt(ts, r, i);
    }
    forall t | t in dead ensures t in ts && ts[t].status.Killed? {
      var k :| 0 <= k < |dead| && dead[k] == t;
      assert LeadsBack(ts, r, dead, k);
    }
  }

  /** The thread before a removed one is in the ring, or was removed later. */
  lemma LeadsOn(ts: Threads, r: seq<int>, dead: seq<int>, k: nat) returns (j: nat)
    requires RingOk(ts, r, dead) && k < |dead|
    ensures dead[k] in ts && ts[dead[k]].prev in ts && j > k
    ensures ts[dead[k]].prev in r || (j < |dead| && dead[j] == ts[dead[k]].prev)
  {
    assert LeadsBack(ts, r, dead, k);
    j := k + 1;
    Alive(ts, r, dead);
    if ts[dead[k]].prev !in r {
      var i :| 0 <= i < |dead[k + 1..]| && dead[k + 1..][i] == ts[dead[k]].prev;
      j := k + 1 + i;
      assert dead[j] in dead;
    }
  }

  lemma PlaceInRing(ts: Threads, r: seq<int>, dead: seq<int>, t: int) returns (at: nat)
    requires RingOk(ts, r, dead) && t in ts && !ts[t].status.Killed? && (t in r || t in dead)
    ensures at < |r| && r[at] == t
  {
    Alive(ts, r, dead);
    at :| at < |r| && r[at] == t;
  }

  /** What the scheduler looks at is the same, except for one thread. */
  ghost predicate SameInfos(ts: Threads, m: Threads, th: int) {
    forall t :: t in ts && t != th ==> t in m && InfoOf(m[t]) == InfoOf(ts[t])
  }

  lemma StartOk(ts: Threads, r: seq<int>, dead: seq<int>, at: nat, th: int, main: int)
    requires RingOk(ts, r, dead) && at < |r| && th in ts && th != 0 && th !in r && th !in dead && !ts[th].status.Killed?
    requires main in r && 0 !in ts
    ensures r[at] in ts && ts[r[at]].next == r[Behind(|r|, at)] && r[Behind(|r|, at)] in ts && th != r[at]
    ensures th != r[Behind(|r|, at)]
    ensures var m, q := Merged(ts, r[at], r[Behind(|r|, at)], th), r[..at + 1] + [th] + r[at + 1..];
            RingOk(m, q, dead) && main in q && r[at] in q && 0 !in m && SameInfos(ts, m, th) && m.Keys == ts.Keys
            && th in m && InfoOf(m[th]) == InfoOf(ts[th]).(priority := ts[r[at]].priority)
  {
    hide RingOk, Merged, Linked, Distinct, LeadsBack;
    RingParts(ts, r, dead);
    LinkAt(ts, r, at);
    InsertedRing(ts, r, dead, at, th);
    InsertedDistinct(r, at, th);
    MergedAt(ts, r[at], r[Behind(|r|, at)], th);
  }

  lemma RingParts(ts: Threads, r: seq<int>, dead: seq<int>)
    requires RingOk(ts, r, dead)
    ensures Linked(ts, r) && Distinct(r) && r != []
  {
  }

  lemma RemoveOk(ts: Threads, r: seq<int>, dead: seq<int>, at: nat, main: int, curr: int)
    requires RingOk(ts, r, dead) && at < |r| && main in r && r[at] != main && (curr in r || curr in dead) && 0 !in ts
    requires r[at] in ts && r[Before(|r|, at)] in ts && r[Behind(|r|, at)] in ts && 2 <= |r|
    requires r[at] != r[Before(|r|, at)] && r[at] != r[Behind(|r|, at)]
    ensures var m := Unlinked(ts, r[Before(|r|, at)], r[Behind(|r|, at)], r[at]);
            var q, d := r[..at] + r[at + 1..], dead + [r[at]];
            RingOk(m, q, d) && main in q && (curr in q || curr in d) && 0 !in m && SameInfos(ts, m, r[at])
  {
    hide RingOk, Unlinked, Linked, Distinct, LeadsBack;
    RingParts(ts, r, dead);
    RemovedRing(ts, r, dead, at);
    RemovedDistinct(r, at);
    UnlinkedAt(ts, r[Before(|r|, at)], r[Behind(|r|, at)], r[at]);
  }

  lemma Elsewhere(ts: Threads, r: seq<int>, dead: seq<int>, th: int, t: Thread)
    requires RingOk(ts, r, dead) && th !in ts
    ensures RingOk(ts[th := t], r, dead) && th !in r && th !in dead
  {
    var m := ts[th := t];
    forall k | 0 <= k < |dead| ensures LeadsBack(m, r, dead, k) && dead[k] != th { assert LeadsBack(ts, r, dead, k); }
    forall i | 0 <= i < |r| ensures r[i] in ts && r[Behind(|r|, i)] in ts { LinkAt(ts, r, i); }
    assert Linked(m, r);
  }

  lemma RemovalFacts(ts: Threads, r: seq<int>, dead: seq<int>, at: nat, main: int)
    requires RingOk(ts, r, dead) && at < |r| && main in r && r[at] != main
    ensures 2 <= |r| && r[at] in ts && r[Before(|r|, at)] in ts && r[Behind(|r|, at)] in ts && !ts[r[at]].status.Killed?
    ensures r[at] != r[Before(|r|, at)] && r[at] != r[Behind(|r|, at)]
    ensures ts[r[at]].prev == r[Before(|r|, at)] && ts[r[at]].next == r[Behind(|r|, at)]
  {
    RingParts(ts, r, dead);
    var k :| 0 <= k < |r| && r[k] == main;
    hide RingOk, Linked, LeadsBack;
    LinkAt(ts, r, at);
    LinkAt(ts, r, Before(|r|, at));
    DistinctAt(r, at, Before(|r|, at));
    DistinctAt(r, at, Behind(|r|, at));
  }
}
