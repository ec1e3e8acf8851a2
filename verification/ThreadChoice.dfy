/** Which thread the scheduler picks, and why no thread of highest priority waits for long. */
module ThreadChoice {

  /** enum thread_status. */
  datatype Status = ToKill | Runnable | Stopped | Killed

  /** What the scheduler looks at; saved: the thread has a stack to go back to. */
  datatype Info = Info(status: Status, priority: int, saved: bool)

  predicate Ready(t: Info) {
    t.status.Runnable? && t.saved
  }

  ghost predicate SomeToKill(s: seq<Info>) {
    exists j :: 0 <= j < |s| && s[j].status.ToKill?
  }

  /**
   * The thread to run next, by its place in s: the first that is to be killed, else the first ready one
   * of highest priority, else none (-1).
   */
  ghost predicate IsChoice(s: seq<Info>, k: int) {
    if SomeToKill(s) then 0 <= k < |s| && s[k].status.ToKill? && forall j :: 0 <= j < k ==> !s[j].status.ToKill?
    else if k == -1 then forall j :: 0 <= j < |s| ==> !Ready(s[j])
    else
      && 0 <= k < |s| && Ready(s[k])
      && (forall j :: 0 <= j < |s| && Ready(s[j]) ==> s[j].priority <= s[k].priority)
      && (forall j :: 0 <= j < k && Ready(s[j]) ==> s[j].priority < s[k].priority)
  }

  lemma ChoiceIsUnique(s: seq<Info>, j: int, k: int)
    requires IsChoice(s, j) && IsChoice(s, k)
    ensures j == k
  {
  }

  /** The ring from behind place c on, once around, c last. */
  function Around<T>(s: seq<T>, c: nat): (r: seq<T>)
    requires c < |s|
    ensures |r| == |s|
  {
    s[c + 1..] + s[..c + 1]
  }

  /** Where place k of Around is in the ring. */
  function PlaceOf(n: nat, c: nat, k: nat): (p: nat)
    requires c < n && k < n
    ensures p < n
  {
    if k < n - c - 1 then c + 1 + k else k - (n - c - 1)
  }

  lemma AroundAt<T>(s: seq<T>, c: nat, k: nat)
    requires c < |s| && k < |s|
    ensures Around(s, c)[k] == s[PlaceOf(|s|, c, k)]
  {
  }

  // ---------- fairness ----------

  /** The places from i on of ready threads of priority p, in order. */
  function Places(s: seq<Info>, p: int, i: nat): (r: seq<nat>)
    requires i <= |s|
    decreases |s| - i
  {
    if i == |s| then []
    else if Ready(s[i]) && s[i].priority == p then [i] + Places(s, p, i + 1)
    else Places(s, p, i + 1)
  }

  lemma {:induction false} PlacesSorted(s: seq<Info>, p: int, i: nat)
    requires i <= |s|
    ensures forall x :: 0 <= x < |Places(s, p, i)| ==>
              i <= Places(s, p, i)[x] < |s| && Ready(s[Places(s, p, i)[x]]) && s[Places(s, p, i)[x]].priority == p
    ensures forall x, y :: 0 <= x < y < |Places(s, p, i)| ==> Places(s, p, i)[x] < Places(s, p, i)[y]
    ensures forall q :: i <= q < |s| && Ready(s[q]) && s[q].priority == p ==> q in Places(s, p, i)
    decreases |s| - i
  {
    if i < |s| { PlacesSorted(s, p, i + 1); }
  }

  /** The scheduler goes from c to d. */
  ghost predicate Picks(s: seq<Info>, c: nat, d: nat) {
    && c < |s| && d < |s|
    && exists k: nat :: k < |s| && IsChoice(Around(s, c), k) && d == PlaceOf(|s|, c, k)
  }

  /** p is the highest priority of a ready thread, and no thread is to be killed. */
  ghost predicate Highest(s: seq<Info>, p: int) {
    && !SomeToKill(s) && (forall j :: 0 <= j < |s| && Ready(s[j]) ==> s[j].priority <= p)
    && exists j :: 0 <= j < |s| && Ready(s[j]) && s[j].priority == p
  }

  /** The pick is the next place of highest priority: the first behind c, or else the first of all. */
  lemma PickIsNext(s: seq<Info>, p: int, c: nat, d: nat)
    requires Highest(s, p) && Picks(s, c, d)
    ensures d < |s| && Ready(s[d]) && s[d].priority == p
    ensures forall q :: 0 <= q < |s| && Ready(s[q]) && s[q].priority == p ==>
              if d > c then q <= c || d <= q else q <= c && d <= q
  {
    var a := Around(s, c);
    var n := |s|;
    var k: nat :| k < n && IsChoice(a, k) && d == PlaceOf(n, c, k);
    AroundAt(s, c, k);
    NoneToKillAround(s, c);
    hide Around;
    var j :| 0 <= j < n && Ready(s[j]) && s[j].priority == p;
    var y := AroundPlace(s, c, j);
    assert Ready(a[k]) && a[y].priority <= a[k].priority;
    forall q | 0 <= q < n && Ready(s[q]) && s[q].priority == p
      ensures if d > c then q <= c || d <= q else q <= c && d <= q
    {
      var x := AroundPlace(s, c, q);
      assert k <= x;
    }
  }

  lemma AroundPlace(s: seq<Info>, c: nat, q: nat) returns (x: nat)
    requires c < |s| && q < |s|
    ensures x < |s| && |Around(s, c)| == |s| && PlaceOf(|s|, c, x) == q && Around(s, c)[x] == s[q]
  {
    x := if q > c then q - c - 1 else q + (|s| - c - 1);
    AroundAt(s, c, x);
  }

  lemma NoneToKillAround(s: seq<Info>, c: nat)
    requires c < |s| && !SomeToKill(s)
    ensures !SomeToKill(Around(s, c))
  {
    forall j | 0 <= j < |s| ensures !Around(s, c)[j].status.ToKill? { AroundAt(s, c, j); }
  }

  /** Unless a thread is to be killed, the pick is ready. */
  lemma PickIsReady(s: seq<Info>, c: nat, d: nat)
    requires !SomeToKill(s) && Picks(s, c, d)
    ensures d < |s| && Ready(s[d])
  {
    var k: nat :| k < |s| && IsChoice(Around(s, c), k) && d == PlaceOf(|s|, c, k);
    AroundAt(s, c, k);
    NoneToKillAround(s, c);
  }

  /** In the list of places of highest priority, the picks go round one by one. */
  lemma PickSteps(s: seq<Info>, p: int, c: nat, d: nat, x: nat)
    requires Highest(s, p) && Picks(s, c, d) && x < |Places(s, p, 0)| && Places(s, p, 0)[x] == c
    ensures var ps := Places(s, p, 0); d == ps[if x + 1 < |ps| then x + 1 else 0]
  {
    var ps := Places(s, p, 0);
    PlacesSorted(s, p, 0);
    PickIsNext(s, p, c, d);
    var y :| 0 <= y < |ps| && ps[y] == d;
    var z := if x + 1 < |ps| then x + 1 else 0;
    assert Ready(s[ps[z]]) && s[ps[z]].priority == p;
  }

  /** The places of a run of picks. */
  ghost predicate Run(s: seq<Info>, cs: seq<nat>) {
    forall i :: 0 <= i < |cs| - 1 ==> Picks(s, cs[i], cs[i + 1])
  }

  /** From the first pick on, a run goes round the places of highest priority. */
  lemma {:induction false} RunGoesRound(s: seq<Info>, p: int, cs: seq<nat>, x: nat, i: nat)
    requires Highest(s, p) && Run(s, cs) && 1 <= i < |cs| && x < |Places(s, p, 0)| && Places(s, p, 0)[x] == cs[1]
    ensures cs[i] == Places(s, p, 0)[Turned(x, i - 1, |Places(s, p, 0)|)]
    decreases i
  {
    if i > 1 {
      RunGoesRound(s, p, cs, x, i - 1);
      assert Picks(s, cs[i - 1], cs[i - 1 + 1]);
      PickSteps(s, p, cs[i - 1], cs[i], Turned(x, i - 2, |Places(s, p, 0)|));
    }
  }

  /** x moved on by k in a list of m, going round. */
  function Turned(x: nat, k: nat, m: nat): (y: nat)
    requires x < m
    ensures y < m
    decreases k
  {
    if k == 0 then x else var y := Turned(x, k - 1, m); if y + 1 < m then y + 1 else 0
  }

  lemma {:induction false} TurnedIs(x: nat, k: nat, m: nat)
    requires x < m && k < m
    ensures Turned(x, k, m) == if x + k < m then x + k else x + k - m
    decreases k
  {
    if k > 0 { TurnedIs(x, k - 1, m); }
  }

  /**
   * Fairness: as long as statuses and priorities stay as they are, each of the m ready threads of
   * highest priority runs within m picks, wherever the run starts.
   */
  lemma Fairness(s: seq<Info>, p: int, cs: seq<nat>, t: nat)
    requires Highest(s, p) && Run(s, cs) && |cs| == |Places(s, p, 0)| + 1
    requires t < |s| && Ready(s[t]) && s[t].priority == p
    ensures exists i :: 1 <= i < |cs| && cs[i] == t
  {
    hide Places, Picks, Highest;
    var ps := Places(s, p, 0);
    PlacesSorted(s, p, 0);
    var target :| 0 <= target < |ps| && ps[target] == t;
    assert Picks(s, cs[0], cs[0 + 1]);
    PickIsNext(s, p, cs[0], cs[1]);
    var x :| 0 <= x < |ps| && ps[x] == cs[1];
    var k := if target >= x then target - x else target - x + |ps|;
    RunGoesRound(s, p, cs, x, k + 1);
    TurnedIs(x, k, |ps|);
    assert cs[k + 1] == t;
  }
}
