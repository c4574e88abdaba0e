/** The exchange built from compare-and-exchange, under every interleaving of the threads that run it. */
module AtomicExchange {
  /** Where a thread is in its loop: about to load, or holding a loaded value. `seen` counts the swaps up to the load. */
  datatype Phase<T> = Load | Compare(expected: T, seen: nat)

  /** A thread makes one exchange per element of `vals`; `got` holds the values returned so far. */
  datatype Thread<T> = Thread(vals: seq<T>, got: seq<T>, phase: Phase<T>)

  /** A successful swap. */
  datatype Event<T> = Event(thread: nat, installed: T, returned: T)

  /** The shared word, the threads, and what has happened. */
  datatype State<T> = State(x: T, threads: seq<Thread<T>>, log: seq<Event<T>>)

  predicate IsStart<T(==)>(s: State<T>) {
    s.log == [] && forall t | 0 <= t < |s.threads| :: s.threads[t].got == [] && s.threads[t].phase == Load
  }

  /** One access of thread `t` to the shared word. */
  function Step<T(==)>(s: State<T>, t: nat): State<T>
    requires t < |s.threads|
  {
    var th := s.threads[t];
    if |th.vals| <= |th.got| then s
    else match th.phase
      case Load => s.(threads := s.threads[t := th.(phase := Compare(s.x, |s.log|))])
      case Compare(expected, _) =>
        if s.x == expected then
          var val := th.vals[|th.got|];
          State(val, s.threads[t := Thread(th.vals, th.got + [expected], Load)], s.log + [Event(t, val, expected)])
        else
          s.(threads := s.threads[t := th.(phase := Load)])
  }

  predicate IsSchedule<T>(s: State<T>, schedule: seq<nat>) {
    forall i | 0 <= i < |schedule| :: schedule[i] < |s.threads|
  }

  /** The state after the accesses of a schedule; a schedule names threads, in any order and as often as it likes. */
  function Run<T(==)>(s: State<T>, schedule: seq<nat>): (r: State<T>)
    requires IsSchedule(s, schedule)
    ensures |r.threads| == |s.threads|
  {
    if schedule == [] then s else Step(Run(s, schedule[..|schedule| - 1]), schedule[|schedule| - 1])
  }

  /** The value of the word after the first `k` swaps. */
  function After<T>(init: T, log: seq<Event<T>>, k: nat): T
    requires k <= |log|
  {
    if k == 0 then init else log[k - 1].installed
  }

  /** Each swap returns what the swap before it installed, and the word holds what the last one did. */
  ghost predicate Chain<T>(init: T, s: State<T>) {
    && (forall k | 0 <= k < |s.log| :: s.log[k].returned == After(init, s.log, k))
    && s.x == After(init, s.log, |s.log|)
  }

  /** The swaps of thread `t`. */
  function Of<T>(log: seq<Event<T>>, t: nat): seq<Event<T>> {
    if log == [] then []
    else Of(log[..|log| - 1], t) + (if log[|log| - 1].thread == t then [log[|log| - 1]] else [])
  }

  /** A thread has made its exchanges in order, one swap each, and got what its swaps returned. */
  ghost predicate Told<T>(th: Thread<T>, events: seq<Event<T>>) {
    && |th.got| == |events| <= |th.vals|
    && forall i | 0 <= i < |events| :: th.got[i] == events[i].returned && th.vals[i] == events[i].installed
  }

  /** A value that a thread holds was in the word when the thread loaded it. */
  ghost predicate Current<T>(init: T, s: State<T>, phase: Phase<T>) {
    phase.Compare? ==> phase.seen <= |s.log| && phase.expected == After(init, s.log, phase.seen)
  }

  ghost predicate Inv<T>(init: T, s: State<T>) {
    && Chain(init, s)
    && forall t | 0 <= t < |s.threads| :: Told(s.threads[t], Of(s.log, t)) && Current(init, s, s.threads[t].phase)
  }

  lemma OfMore<T>(log: seq<Event<T>>, e: Event<T>, t: nat)
    ensures Of(log + [e], t) == Of(log, t) + (if e.thread == t then [e] else [])
  {
    assert (log + [e])[..|log|] == log;
  }

  lemma StepKeepsChain<T>(init: T, s: State<T>, t: nat)
    requires Chain(init, s) && t < |s.threads|
    ensures Chain(init, Step(s, t))
  {
    var r := Step(s, t);
    forall k | 0 <= k < |r.log| ensures r.log[k].returned == After(init, r.log, k) {
      assert k < |s.log| ==> After(init, r.log, k) == After(init, s.log, k);
    }
  }

  lemma StepKeepsTold<T>(s: State<T>, t: nat, u: nat)
    requires t < |s.threads| && u < |s.threads| && Told(s.threads[u], Of(s.log, u))
    ensures Told(Step(s, t).threads[u], Of(Step(s, t).log, u))
  {
    var r := Step(s, t);
    if r.log != s.log { OfMore(s.log, r.log[|s.log|], u); }
  }

  lemma StepKeepsCurrent<T>(init: T, s: State<T>, t: nat, u: nat)
    requires t < |s.threads| && u < |s.threads| && s.x == After(init, s.log, |s.log|)
    requires Current(init, s, s.threads[u].phase)
    ensures Current(init, Step(s, t), Step(s, t).threads[u].phase)
  {
  }

  lemma StepKeeps<T>(init: T, s: State<T>, t: nat)
    requires Inv(init, s) && t < |s.threads|
    ensures Inv(init, Step(s, t))
  {
    StepKeepsChain(init, s, t);
    var r := Step(s, t);
    forall u | 0 <= u < |r.threads| ensures Told(r.threads[u], Of(r.log, u)) && Current(init, r, r.threads[u].phase) {
      StepKeepsTold(s, t, u);
      StepKeepsCurrent(init, s, t, u);
    }
  }

  /** Whatever the interleaving, the swaps form one chain, and every call returns what its own swap replaced. */
  lemma {:induction false} EveryRun<T>(s: State<T>, schedule: seq<nat>)
    requires IsStart(s) && IsSchedule(s, schedule)
    ensures Inv(s.x, Run(s, schedule))
  {
    if schedule == [] {
    } else {
      EveryRun(s, schedule[..|schedule| - 1]);
      StepKeeps(s.x, Run(s, schedule[..|schedule| - 1]), schedule[|schedule| - 1]);
    }
  }

  /** A compare-and-exchange fails only when another swap has happened since the load. */
  lemma FailureMeansProgress<T>(init: T, s: State<T>, t: nat)
    requires Inv(init, s) && t < |s.threads| && s.threads[t].phase.Compare? && |s.threads[t].got| < |s.threads[t].vals|
    ensures Step(s, t).log == s.log ==> s.threads[t].phase.seen < |s.log|
  {
    assert Current(init, s, s.threads[t].phase);
  }

  /** A thread that is left alone finishes its call with its next load and compare. */
  lemma AloneFinishes<T>(s: State<T>, t: nat)
    requires t < |s.threads| && s.threads[t].phase.Load? && |s.threads[t].got| < |s.threads[t].vals|
    ensures Step(Step(s, t), t).threads[t].got == s.threads[t].got + [s.x]
    ensures Step(Step(s, t), t).x == s.threads[t].vals[|s.threads[t].got|]
  {
  }

  /** A step of one thread leaves the others where they are, and no thread forgets anything. */
  lemma StepIsLocal<T>(s: State<T>, t: nat, u: nat)
    requires t < |s.threads| && u < |s.threads|
    ensures var r := Step(s, t);
      && |r.threads| == |s.threads| && s.log <= r.log && (r.log == s.log ==> r.x == s.x)
      && r.threads[u].vals == s.threads[u].vals && s.threads[u].got <= r.threads[u].got
      && (u != t ==> r.threads[u] == s.threads[u])
  {
  }

  /** From any point of its loop, also with a value that is no longer there, a thread left alone finishes in three. */
  lemma AloneFinishesAnyway<T>(s: State<T>, t: nat)
    requires t < |s.threads| && |s.threads[t].got| < |s.threads[t].vals|
    ensures var r, k := Step(Step(Step(s, t), t), t), |s.threads[t].got|;
      |r.threads[t].got| > k && r.threads[t].got[k] == s.x
  {
  }

  // ---------- some thread always gets on ----------

  /** How often thread `t` has its turn in a schedule. */
  function Turns(schedule: seq<nat>, t: nat): nat {
    if schedule == [] then 0
    else Turns(schedule[..|schedule| - 1], t) + (if schedule[|schedule| - 1] == t then 1 else 0)
  }

  /** The steps that are left before a swap, as long as the word does not change. */
  function Left<T(==)>(s: State<T>, t: nat): nat
    requires t < |s.threads|
  {
    match s.threads[t].phase
    case Load => 1
    case Compare(expected, _) => if expected == s.x then 0 else 2
  }

  lemma {:induction false} RunKeeps<T>(s: State<T>, schedule: seq<nat>, t: nat)
    requires IsSchedule(s, schedule) && t < |s.threads|
    ensures s.log <= Run(s, schedule).log && (Run(s, schedule).log == s.log ==> Run(s, schedule).x == s.x)
    ensures Run(s, schedule).threads[t].vals == s.threads[t].vals
  {
    if schedule == [] {
    } else {
      var before := schedule[..|schedule| - 1];
      RunKeeps(s, before, t);
      StepIsLocal(Run(s, before), schedule[|schedule| - 1], t);
    }
  }

  lemma TurnTaken<T>(s: State<T>, u: nat, t: nat)
    requires u < |s.threads| && t < |s.threads| && |s.threads[t].got| < |s.threads[t].vals|
    requires Step(s, u).log == s.log
    ensures Step(s, u).threads[t].got == s.threads[t].got
    ensures Left(Step(s, u), t) == Left(s, t) - (if u == t then 1 else 0)
  {
    StepIsLocal(s, u, t);
  }

  /** Every turn of an unfinished thread brings it one step closer to a swap, as long as nobody swaps. */
  lemma {:induction false} TurnsCount<T>(s: State<T>, schedule: seq<nat>, t: nat)
    requires IsSchedule(s, schedule) && t < |s.threads| && |s.threads[t].got| < |s.threads[t].vals|
    requires Run(s, schedule).log == s.log
    ensures Run(s, schedule).threads[t].got == s.threads[t].got
    ensures Turns(schedule, t) + Left(Run(s, schedule), t) == Left(s, t)
  {
    if schedule == [] {
    } else {
      var before, u := schedule[..|schedule| - 1], schedule[|schedule| - 1];
      RunKeeps(s, before, t);
      StepIsLocal(Run(s, before), u, t);
      TurnsCount(s, before, t);
      TurnTaken(Run(s, before), u, t);
    }
  }

  /** In every run from anywhere, as long as no swap succeeds, no thread with a call to make has more than two turns. */
  lemma LockFree<T>(s: State<T>, schedule: seq<nat>, t: nat)
    requires IsSchedule(s, schedule) && t < |s.threads| && |s.threads[t].got| < |s.threads[t].vals|
    requires Run(s, schedule).log == s.log
    ensures Turns(schedule, t) <= 2
  {
    TurnsCount(s, schedule, t);
  }

  // ---------- conservation ----------

  function Sum(xs: seq<nat>): nat {
    if xs == [] then 0 else Sum(xs[..|xs| - 1]) + xs[|xs| - 1]
  }

  lemma {:induction false} SumChange(xs: seq<nat>, i: nat, x: nat)
    requires i < |xs|
    ensures Sum(xs[i := x]) + xs[i] == Sum(xs) + x
    decreases |xs|
  {
    var n := |xs| - 1;
    if i == n {
      assert xs[i := x][..n] == xs[..n];
    } else {
      SumChange(xs[..n], i, x);
      assert xs[i := x][..n] == xs[..n][i := x];
    }
  }

  lemma {:induction false} SumZero(xs: seq<nat>)
    requires forall i | 0 <= i < |xs| :: xs[i] == 0
    ensures Sum(xs) == 0
  {
    if xs == [] {
    } else {
      SumZero(xs[..|xs| - 1]);
    }
  }

  ghost function Times<T>(s: seq<T>, v: T): nat {
    multiset(s)[v]
  }

  /** How often the calls have returned `v` so far. */
  ghost function Returned<T>(threads: seq<Thread<T>>, v: T): nat {
    Sum(seq(|threads|, i requires 0 <= i < |threads| => Times(threads[i].got, v)))
  }

  /** The values that a thread has installed so far. */
  ghost function Done<T>(th: Thread<T>): seq<T> {
    if |th.got| <= |th.vals| then th.vals[..|th.got|] else th.vals
  }

  /** How often the calls that have returned have installed `v`. */
  ghost function Installed<T>(threads: seq<Thread<T>>, v: T): nat {
    Sum(seq(|threads|, i requires 0 <= i < |threads| => Times(Done(threads[i]), v)))
  }

  ghost function Is<T>(x: T, v: T): nat {
    if x == v then 1 else 0
  }

  lemma ReturnedChange<T>(threads: seq<Thread<T>>, t: nat, th: Thread<T>, v: T)
    requires t < |threads|
    ensures Returned(threads[t := th], v) + Times(threads[t].got, v) == Returned(threads, v) + Times(th.got, v)
  {
    var xs := seq(|threads|, i requires 0 <= i < |threads| => Times(threads[i].got, v));
    var changed := threads[t := th];
    SumChange(xs, t, Times(th.got, v));
    assert seq(|changed|, i requires 0 <= i < |changed| => Times(changed[i].got, v)) == xs[t := Times(th.got, v)];
  }

  lemma InstalledChange<T>(threads: seq<Thread<T>>, t: nat, th: Thread<T>, v: T)
    requires t < |threads|
    ensures Installed(threads[t := th], v) + Times(Done(threads[t]), v) == Installed(threads, v) + Times(Done(th), v)
  {
    var xs := seq(|threads|, i requires 0 <= i < |threads| => Times(Done(threads[i]), v));
    var changed := threads[t := th];
    SumChange(xs, t, Times(Done(th), v));
    assert seq(|changed|, i requires 0 <= i < |changed| => Times(Done(changed[i]), v)) == xs[t := Times(Done(th), v)];
  }

  lemma StartSums<T>(threads: seq<Thread<T>>, v: T)
    requires forall t | 0 <= t < |threads| :: threads[t].got == []
    ensures Returned(threads, v) == Installed(threads, v) == 0
  {
    SumZero(seq(|threads|, i requires 0 <= i < |threads| => Times(threads[i].got, v)));
    SumZero(seq(|threads|, i requires 0 <= i < |threads| => Times(Done(threads[i]), v)));
  }

  lemma OneMore<T>(s: seq<T>, x: T, v: T)
    ensures Times(s + [x], v) == Times(s, v) + Is(x, v)
  {
  }

  lemma ThreadConserves<T>(s: State<T>, t: nat, v: T)
    requires t < |s.threads|
    ensures var r := Step(s, t);
      Times(r.threads[t].got, v) + Is(r.x, v) + Times(Done(s.threads[t]), v)
      == Times(s.threads[t].got, v) + Is(s.x, v) + Times(Done(r.threads[t]), v)
  {
    var r := Step(s, t);
    var th, th' := s.threads[t], r.threads[t];
    if |th.got| < |th.vals| && th.phase.Compare? && s.x == th.phase.expected {
      assert Done(th') == Done(th) + [r.x];
      OneMore(Done(th), r.x, v);
      OneMore(th.got, s.x, v);
    } else {
      assert th'.got == th.got && th'.vals == th.vals && r.x == s.x;
    }
  }

  lemma StepConserves<T>(s: State<T>, t: nat, v: T)
    requires t < |s.threads|
    ensures var r := Step(s, t);
      Returned(r.threads, v) + Is(r.x, v) + Installed(s.threads, v)
      == Returned(s.threads, v) + Is(s.x, v) + Installed(r.threads, v)
  {
    var th' := Step(s, t).threads[t];
    ReturnedChange(s.threads, t, th', v);
    InstalledChange(s.threads, t, th', v);
    ThreadConserves(s, t, v);
    assert Step(s, t).threads == s.threads[t := th'];
  }

  /**
   * No value is lost or made up: taken together, what the calls returned and what is in the word now is what was in
   * it at first and what the calls put in.
   */
  lemma {:induction false} Conservation<T>(s: State<T>, schedule: seq<nat>, v: T)
    requires IsStart(s) && IsSchedule(s, schedule)
    ensures var r := Run(s, schedule);
      Returned(r.threads, v) + Is(r.x, v) == Is(s.x, v) + Installed(r.threads, v)
  {
    if schedule == [] {
      StartSums(s.threads, v);
    } else {
      Conservation(s, schedule[..|schedule| - 1], v);
      StepConserves(Run(s, schedule[..|schedule| - 1]), schedule[|schedule| - 1], v);
    }
  }
}
