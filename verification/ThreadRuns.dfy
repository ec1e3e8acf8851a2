/** Whole runs of starting, stopping, killing and scheduling threads. */
module ThreadRuns {
  import opened ThreadChoice
  import opened ThreadRing

  datatype Op =
    | DoAllocate(th: int)
    | DoStart(th: int)
    | DoStatus(th: int, status: Status)
    | DoRemove(th: int)
    | DoSchedule

  /** What a scheduler holds; ring and dead are in the order of links and of removal. */
  datatype State = State(threads: Threads, curr: int, ring: seq<int>, dead: seq<int>)

  /** The places of the current thread before and after a scheduling. */
  datatype Turn = Turn(out: Outcome, at: nat, to: nat)

  /** The operation can be called: live are the threads started and not killed, gone the killed ones. */
  predicate Applies(op: Op, threads: Threads, live: set<int>, gone: set<int>, curr: int, main: int) {
    match op
    case DoAllocate(th) => th !in threads && th != 0
    case DoStart(th) => th in threads && th !in live && th !in gone && curr in live && !threads[th].status.Killed?
    case DoStatus(th, status) => th in live && !status.Killed?
    case DoRemove(th) => th in live && th != main
    case DoSchedule => true
  }

  function Members(r: seq<int>): set<int> {
    set t | t in r
  }

  ghost predicate Can(s: State, op: Op, main: int) {
    Applies(op, s.threads, Members(s.ring), Members(s.dead), s.curr, main)
  }

  ghost predicate StateOk(s: State, main: int) {
    RingOk(s.threads, s.ring, s.dead) && 0 !in s.threads && main in s.ring && (s.curr in s.ring || s.curr in s.dead)
  }

  /** th is in behind the current thread. */
  ghost predicate Inserted(r: seq<int>, curr: int, th: int, q: seq<int>) {
    exists at :: 0 <= at < |r| && r[at] == curr && q == r[..at + 1] + [th] + r[at + 1..]
  }

  ghost predicate TakenOut(r: seq<int>, th: int, q: seq<int>) {
    exists at :: 0 <= at < |r| && r[at] == th && q == r[..at] + r[at + 1..]
  }

  /** What a scheduling does. */
  ghost predicate Scheduled(s: State, turn: Turn, t: State, main: int)
    requires main in s.threads
  {
    && t.ring == s.ring && t.dead == s.dead && turn.at < |s.ring| && (s.curr in s.ring ==> s.ring[turn.at] == s.curr)
    && match turn.out
       case Deadlock =>
         && NobodyReady(s.threads, s.ring) && t.curr == main
         && t.threads == WithStack(Told(s.threads, main), s.ring, s.curr)
       case Continued => Picked(s, turn) && t.threads == s.threads && t.curr == s.curr == s.ring[turn.to]
       case Switched =>
         Picked(s, turn) && t.threads == WithStack(s.threads, s.ring, s.curr) && t.curr == s.ring[turn.to]
  }

  ghost predicate Picked(s: State, turn: Turn) {
    turn.to < |s.ring| && PickedIn(s.threads, s.ring, turn.at, turn.to)
  }

  ghost predicate Step(s: State, op: Op, turn: Turn, t: State, main: int) {
    && StateOk(s, main) && StateOk(t, main)
    && if !Can(s, op, main) then t == s
       else match op
         case DoAllocate(th) => t == s.(threads := s.threads[th := Thread(0, 0, Runnable, 0, false)])
         case DoStart(th) =>
           && Inserted(s.ring, s.curr, th, t.ring) && t.dead == s.dead && t.curr == th
           && StartedInfos(s.threads, t.threads, s.curr, th)
         case DoStatus(th, status) =>
           th in s.threads && t == s.(threads := s.threads[th := s.threads[th].(status := status)])
         case DoRemove(th) =>
           && TakenOut(s.ring, th, t.ring) && t.dead == s.dead + [th] && t.curr == s.curr
           && SameInfos(s.threads, t.threads, th)
         case DoSchedule => main in s.threads && Scheduled(s, turn, t, main)
  }

  ghost predicate Trace(ss: seq<State>, turns: seq<Turn>, ops: seq<Op>, main: int) {
    && |ss| == |ops| + 1 && |turns| == |ops|
    && forall i :: 0 <= i < |ops| ==> Step(ss[i], ops[i], turns[i], ss[i + 1], main)
  }

  // ---------- what holds over every run ----------

  ghost predicate Starts(s: State, op: Op, main: int, th: int) {
    op == DoStart(th) && Can(s, op, main)
  }

  ghost predicate Kills(s: State, op: Op, main: int, th: int) {
    op == DoRemove(th) && Can(s, op, main)
  }

  lemma InsertedMembers(r: seq<int>, curr: int, th: int, q: seq<int>)
    requires Inserted(r, curr, th, q)
    ensures forall t :: t in q <==> t in r || t == th
  {
    var at :| 0 <= at < |r| && r[at] == curr && q == r[..at + 1] + [th] + r[at + 1..];
    assert r == r[..at + 1] + r[at + 1..];
  }

  lemma TakenOutMembers(r: seq<int>, th: int, q: seq<int>)
    requires Distinct(r) && TakenOut(r, th, q)
    ensures forall t :: t in q <==> t in r && t != th
  {
    var at :| 0 <= at < |r| && r[at] == th && q == r[..at] + r[at + 1..];
    RemovedDistinct(r, at);
  }

  /** One operation puts in at most the thread started and takes out at most the one killed. */
  lemma StepMembers(s: State, op: Op, turn: Turn, t: State, main: int, th: int)
    requires Step(s, op, turn, t, main)
    ensures th in t.ring <==> (th in s.ring || Starts(s, op, main, th)) && !Kills(s, op, main, th)
    ensures th in t.dead <==> th in s.dead || Kills(s, op, main, th)
    ensures Starts(s, op, main, th) ==> th !in s.ring && th !in s.dead
  {
    hide Linked, LeadsBack, PickedIn, NobodyReady, WithStack, Told, StartedInfos;
    if Can(s, op, main) {
      if op.DoStart? { InsertedMembers(s.ring, s.curr, op.th, t.ring); }
      if op.DoRemove? { TakenOutMembers(s.ring, op.th, t.ring); }
    }
  }

  /**
   * Over every run the ring holds exactly the threads that were in it or have been started, and have not
   * been killed; a killed thread never comes back.
   */
  lemma {:induction false} RingIsStarted(ss: seq<State>, turns: seq<Turn>, ops: seq<Op>, main: int, n: nat, th: int)
    requires Trace(ss, turns, ops, main) && n <= |ops|
    ensures th in ss[n].ring <==>
              && (th in ss[0].ring || exists k :: 0 <= k < n && Starts(ss[k], ops[k], main, th))
              && !(exists k :: 0 <= k < n && Kills(ss[k], ops[k], main, th))
    ensures th in ss[n].dead <==> th in ss[0].dead || exists k :: 0 <= k < n && Kills(ss[k], ops[k], main, th)
    decreases n
  {
    hide Step, Starts, Kills;
    if n > 0 {
      RingIsStarted(ss, turns, ops, main, n - 1, th);
      StepMembers(ss[n - 1], ops[n - 1], turns[n - 1], ss[n], main, th);
    }
  }

  lemma {:induction false} DeadStays(ss: seq<State>, turns: seq<Turn>, ops: seq<Op>, main: int, i: nat, j: nat, th: int)
    requires Trace(ss, turns, ops, main) && i <= j <= |ops| && th in ss[i].dead
    ensures th in ss[j].dead
    decreases j
  {
    hide Step, Starts, Kills;
    if i < j {
      DeadStays(ss, turns, ops, main, i, j - 1, th);
      StepMembers(ss[j - 1], ops[j - 1], turns[j - 1], ss[j], main, th);
    }
  }

  /** Over every run, a thread that has been killed is never scheduled again. */
  lemma KilledNeverRuns(ss: seq<State>, turns: seq<Turn>, ops: seq<Op>, main: int, i: nat, j: nat, th: int)
    requires Trace(ss, turns, ops, main) && i < j < |ops|
    requires Kills(ss[i], ops[i], main, th) && ops[j].DoSchedule?
    ensures ss[j + 1].curr != th
  {
    hide Kills, Starts, Step;
    TraceStep(ss, turns, ops, main, i);
    TraceStep(ss, turns, ops, main, j);
    StepMembers(ss[i], ops[i], turns[i], ss[i + 1], main, th);
    DeadStays(ss, turns, ops, main, i + 1, j + 1, th);
    hide Trace;
    LivesApart(ss[j], ops[j], turns[j], ss[j + 1], main, th);
  }

  lemma TraceStep(ss: seq<State>, turns: seq<Turn>, ops: seq<Op>, main: int, i: nat)
    requires Trace(ss, turns, ops, main) && i < |ops|
    ensures Step(ss[i], ops[i], turns[i], ss[i + 1], main)
  {
    hide Step;
  }

  /** Who is scheduled is in the ring, and nobody there is dead. */
  lemma LivesApart(s: State, op: Op, turn: Turn, t: State, main: int, th: int)
    requires Step(s, op, turn, t, main) && op.DoSchedule? && th in t.dead
    ensures t.curr != th
  {
    hide Linked, LeadsBack, Distinct, PickedIn, NobodyReady, WithStack, Told;
  }

  // ---------- stacks ----------

  /** The thread is started and not killed, and has a stack to go back to. */
  ghost predicate HasStack(s: State, c: int) {
    c in s.ring && c in s.threads && s.threads[c].saved
  }

  /** The operation makes another thread current: the one left gets a stack. */
  ghost predicate Leaves(s: State, op: Op, turn: Turn, main: int, c: int) {
    c == s.curr && c in s.ring && Can(s, op, main) && (op.DoStart? || (op.DoSchedule? && turn.out.Switched?))
  }

  /** A thread left, or just started, has a stack, and whoever has one keeps it until killed. */
  lemma StackStep(s: State, op: Op, turn: Turn, t: State, main: int, c: int)
    requires Step(s, op, turn, t, main)
    ensures HasStack(s, c) && !Kills(s, op, main, c) ==> HasStack(t, c)
    ensures Leaves(s, op, turn, main, c) || Starts(s, op, main, c) ==> HasStack(t, c)
  {
    StepMembers(s, op, turn, t, main, c);
    if c in s.threads { StackOf(s, op, turn, t, main, c); }
    hide Step;
  }

  lemma StackOf(s: State, op: Op, turn: Turn, t: State, main: int, c: int)
    requires Step(s, op, turn, t, main) && c in s.threads
    ensures s.threads[c].saved && !Kills(s, op, main, c) ==> c in t.threads && t.threads[c].saved
    ensures Leaves(s, op, turn, main, c) || Starts(s, op, main, c) ==> c in t.threads && t.threads[c].saved
  {
    hide StateOk, NobodyReady, Inserted, TakenOut, Picked, Members;
    assert Can(s, op, main) && op.DoRemove? && op.th != c ==>
        c in t.threads && InfoOf(t.threads[c]) == InfoOf(s.threads[c]);
  }

  lemma {:induction false} StackKept(ss: seq<State>, turns: seq<Turn>, ops: seq<Op>, main: int, i: nat, j: nat, c: int)
    requires Trace(ss, turns, ops, main) && i <= j <= |ops| && HasStack(ss[i], c)
    requires forall k :: i <= k < j ==> !Kills(ss[k], ops[k], main, c)
    ensures HasStack(ss[j], c)
    decreases j
  {
    hide Step, Kills, HasStack;
    if i < j {
      StackKept(ss, turns, ops, main, i, j - 1, c);
      StackStep(ss[j - 1], ops[j - 1], turns[j - 1], ss[j], main, c);
    }
  }

  /**
   * Over every run, a thread that has been left by a switch or for a new thread, or has been started, can be
   * gone back to whenever it is runnable, until it is killed.
   */
  lemma LeftIsReady(ss: seq<State>, turns: seq<Turn>, ops: seq<Op>, main: int, i: nat, j: nat, c: int)
    requires Trace(ss, turns, ops, main) && i < j <= |ops|
    requires Leaves(ss[i], ops[i], turns[i], main, c) || Starts(ss[i], ops[i], main, c)
    requires forall k :: i <= k < j ==> !Kills(ss[k], ops[k], main, c)
    ensures c in ss[j].ring && c in ss[j].threads
    ensures ss[j].threads[c].status.Runnable? ==> Ready(InfoOf(ss[j].threads[c]))
  {
    hide Step, Kills, Leaves, Starts;
    TraceStep(ss, turns, ops, main, i);
    StackStep(ss[i], ops[i], turns[i], ss[i + 1], main, c);
    StackKept(ss, turns, ops, main, i + 1, j, c);
  }

  /** The operation sets the status of c. */
  ghost predicate Sets(op: Op, turn: Turn, main: int, c: int) {
    || ((op.DoStatus? || op.DoRemove?) && op.th == c)
    || (op.DoSchedule? && turn.out.Deadlock? && c == main)
  }

  lemma StatusStep(s: State, op: Op, turn: Turn, t: State, main: int, c: int)
    requires Step(s, op, turn, t, main) && c in s.threads && !Sets(op, turn, main, c)
    ensures c in t.threads && t.threads[c].status == s.threads[c].status
  {
    hide Linked, LeadsBack, PickedIn, NobodyReady, Distinct;
  }

  /** A thread that is runnable stays so, unless it stops or is to be killed. */
  lemma {:induction false} StatusKept(ss: seq<State>, turns: seq<Turn>, ops: seq<Op>, main: int, i: nat, j: nat, c: int)
    requires Trace(ss, turns, ops, main) && i <= j <= |ops| && c in ss[i].threads
    requires forall k :: i <= k < j ==> !Sets(ops[k], turns[k], main, c)
    ensures c in ss[j].threads && ss[j].threads[c].status == ss[i].threads[c].status
    decreases j
  {
    hide Step, Sets;
    if i < j {
      StatusKept(ss, turns, ops, main, i, j - 1, c);
      StatusStep(ss[j - 1], ops[j - 1], turns[j - 1], ss[j], main, c);
    }
  }

  /** All threads have stacks, or there is only the current one. */
  ghost predicate StacksOk(s: State) {
    (forall c :: c in s.ring ==> HasStack(s, c)) || s.ring == [s.curr]
  }

  lemma StacksOkStep(s: State, op: Op, turn: Turn, t: State, main: int)
    requires Step(s, op, turn, t, main) && StacksOk(s)
    ensures StacksOk(t)
  {
    forall c | c in t.ring && !HasStack(t, c) ensures t.ring == [t.curr] {
      StackStep(s, op, turn, t, main, c);
      StepMembers(s, op, turn, t, main, c);
      assert c in s.ring && !HasStack(s, c) && s.ring == [s.curr] && c == s.curr;
      OnlyOne(s, op, turn, t, main);
    }
  }

  /** With one thread, the main one, nothing but a new thread changes the ring. */
  lemma OnlyOne(s: State, op: Op, turn: Turn, t: State, main: int)
    requires Step(s, op, turn, t, main) && s.ring == [s.curr] && !(op.DoStart? && Can(s, op, main))
    ensures t.ring == s.ring && t.curr == s.curr
  {
    hide Linked, LeadsBack, PickedIn, NobodyReady, Distinct, WithStack, Told;
  }

  /** From the start on, over every run: as soon as there are two threads, every runnable one is ready. */
  lemma {:induction false} RunnableIsReady(ss: seq<State>, turns: seq<Turn>, ops: seq<Op>, main: int, n: nat)
    requires Trace(ss, turns, ops, main) && n <= |ops| && ss[0].ring == [main] && ss[0].curr == main
    ensures StacksOk(ss[n])
    ensures forall c ::
              c in ss[n].ring && 2 <= |ss[n].ring| && c in ss[n].threads && ss[n].threads[c].status.Runnable? ==>
                Ready(InfoOf(ss[n].threads[c]))
    decreases n
  {
    hide Step;
    if n > 0 {
      RunnableIsReady(ss, turns, ops, main, n - 1);
      StacksOkStep(ss[n - 1], ops[n - 1], turns[n - 1], ss[n], main);
    }
  }

  // ---------- running ----------

  ghost function StateOf(s: Scheduler): State
    reads s
  {
    State(s.threads, s.currThread, s.ring, s.dead)
  }

  method PerformOne(s: Scheduler, live: set<int>, gone: set<int>, op: Op) returns (ghost turn: Turn)
    requires s.Valid() && live == Members(s.ring) && gone == Members(s.dead)
    modifies s
    ensures s.Valid() && Step(old(StateOf(s)), op, turn, StateOf(s), s.mainThread)
  {
    hide RingOk, SameInfos, Picks, PickedIn, NobodyReady, WithStack, Told, StartedInfos, StackSaved;
    turn := Turn(Continued, 0, 0);
    if !Applies(op, s.threads, live, gone, s.currThread, s.mainThread) { return; }
    match op {
      case DoAllocate(th) =>
        s.Allocate(th);
      case DoStart(th) =>
        ghost var at: nat :| at < |s.ring| && s.ring[at] == s.currThread;
        s.Start(th, at);
      case DoStatus(th, status) =>
        s.SetStatus(th, status);
      case DoRemove(th) =>
        ghost var at: nat :| at < |s.ring| && s.ring[at] == th;
        s.Remove(th, at);
      case DoSchedule =>
        var out;
        ghost var at, to;
        out, at, to := s.Schedule();
        turn := Turn(out, at, to);
    }
  }

  /** Who is in the ring and who is dead after an operation. */
  lemma MembersAfter(s: State, op: Op, turn: Turn, t: State, main: int)
    requires Step(s, op, turn, t, main)
    ensures Can(s, op, main) && op.DoStart? ==> Members(t.ring) == Members(s.ring) + {op.th}
    ensures Can(s, op, main) && op.DoRemove? ==> Members(t.ring) == Members(s.ring) - {op.th}
    ensures Can(s, op, main) && op.DoRemove? ==> Members(t.dead) == Members(s.dead) + {op.th}
    ensures !(Can(s, op, main) && (op.DoStart? || op.DoRemove?)) ==> Members(t.ring) == Members(s.ring)
    ensures !(Can(s, op, main) && op.DoRemove?) ==> Members(t.dead) == Members(s.dead)
  {
    hide Step, Can;
    var starts := if Can(s, op, main) && op.DoStart? then {op.th} else {};
    var kills := if Can(s, op, main) && op.DoRemove? then {op.th} else {};
    forall th
      ensures th in t.ring <==> (th in s.ring || th in starts) && th !in kills
      ensures th in t.dead <==> th in s.dead || th in kills
    {
      StepMembers(s, op, turn, t, main, th);
    }
    assert Members(t.ring) == Members(s.ring) + starts - kills;
    assert Members(t.dead) == Members(s.dead) + kills;
  }

  /**
   * A whole run. live and gone are what the program knows: the threads started and not killed, and the
   * killed ones.
   */
  method Perform(s: Scheduler, live0: set<int>, gone0: set<int>, ops: seq<Op>)
    returns (live: set<int>, gone: set<int>, ghost ss: seq<State>, ghost turns: seq<Turn>)
    requires s.Valid() && live0 == Members(s.ring) && gone0 == Members(s.dead)
    modifies s
    ensures s.Valid() && Trace(ss, turns, ops, s.mainThread) && ss[0] == old(StateOf(s)) && ss[|ops|] == StateOf(s)
    ensures live == Members(s.ring) && gone == Members(s.dead)
  {
    hide RingOk, Step;
    live, gone, ss, turns := live0, gone0, [StateOf(s)], [];
    var n := 0;
    while n < |ops|
      invariant 0 <= n <= |ops| && |ss| == n + 1 && |turns| == n && s.Valid()
      invariant live == Members(s.ring) && gone == Members(s.dead)
      invariant ss[0] == old(StateOf(s)) && ss[n] == StateOf(s)
      invariant forall i :: 0 <= i < n ==> Step(ss[i], ops[i], turns[i], ss[i + 1], s.mainThread)
    {
      var op := ops[n];
      var applies := Applies(op, s.threads, live, gone, s.currThread, s.mainThread);
      ghost var before := StateOf(s);
      ghost var turn := PerformOne(s, live, gone, op);
      MembersAfter(before, op, turn, StateOf(s), s.mainThread);
      if applies && op.DoStart? {
        live := live + {op.th};
      } else if applies && op.DoRemove? {
        live, gone := live - {op.th}, gone + {op.th};
      }
      ss, turns, n := ss + [StateOf(s)], turns + [turn], n + 1;
    }
  }
}
