/** The worker pool: its queue, its stop flag and its condition variable, under every interleaving of
    clients, workers and the destructor. */
module WorkerPool {

  /** Where a worker is: before the critical section of its loop, blocked on the condition variable,
      running a task, or gone. */
  datatype Worker<T> = Ready | Waiting | Running(task: T) | Exited

  /** The pool between two steps.  notifyOnes counts the clients that have unlocked the mutex but not
      yet called notify_one; notifyAll says the same of the destructor and notify_all.  The last three
      are the history: the tasks accepted, taken and finished so far. */
  datatype Pool<T> = Pool(
    tasks: seq<T>, stop: bool, workers: seq<Worker<T>>, notifyOnes: nat, notifyAll: bool,
    accepted: seq<T>, taken: seq<T>, finished: seq<T>)

  datatype Action<T> =
    | Enqueue(task: T)       // a client inside the mutex; refused once the pool stops
    | NotifyOne(w: nat)      // notify_one wakes some waiting worker
    | NotifyNone             // notify_one when no worker waits
    | Stop                   // the destructor inside the mutex
    | NotifyAll
    | Turn(w: nat)           // a worker inside the mutex: wait, take the front task, or leave
    | Spurious(w: nat)       // a waiting worker wakes by itself
    | Finish(w: nat)         // a worker returns from its task

  function Start<T>(threads: nat): (p: Pool<T>)
    ensures |p.workers| == threads && forall w: nat | w < threads :: p.workers[w].Ready?
  {
    Pool([], false, seq(threads, i => Ready), 0, false, [], [], [])
  }

  predicate Enabled<T>(p: Pool<T>, a: Action<T>) {
    match a
    case Enqueue(_) => true
    case NotifyOne(w) => p.notifyOnes > 0 && w < |p.workers| && p.workers[w].Waiting?
    case NotifyNone => p.notifyOnes > 0 && forall w: nat | w < |p.workers| :: !p.workers[w].Waiting?
    case Stop => !p.stop
    case NotifyAll => p.notifyAll
    case Turn(w) => w < |p.workers| && p.workers[w].Ready?
    case Spurious(w) => w < |p.workers| && p.workers[w].Waiting?
    case Finish(w) => w < |p.workers| && p.workers[w].Running?
  }

  /** What a worker does inside the mutex. */
  function TakeTurn<T>(p: Pool<T>, w: nat): Pool<T>
    requires w < |p.workers|
  {
    if !p.stop && p.tasks == [] then
      p.(workers := p.workers[w := Waiting])
    else if p.stop && p.tasks == [] then
      p.(workers := p.workers[w := Exited])
    else
      p.(tasks := p.tasks[1..], workers := p.workers[w := Running(p.tasks[0])], taken := p.taken + [p.tasks[0]])
  }

  function WakeAll<T>(ws: seq<Worker<T>>): (r: seq<Worker<T>>)
    ensures |r| == |ws| && forall i: nat | i < |ws| :: r[i] == if ws[i].Waiting? then Ready else ws[i]
  {
    if ws == [] then [] else [if ws[0].Waiting? then Ready else ws[0]] + WakeAll(ws[1..])
  }

  function Apply<T>(p: Pool<T>, a: Action<T>): Pool<T>
    requires Enabled(p, a)
  {
    match a
    case Enqueue(t) =>
      if p.stop then p
      else p.(tasks := p.tasks + [t], notifyOnes := p.notifyOnes + 1, accepted := p.accepted + [t])
    case NotifyOne(w) => p.(notifyOnes := p.notifyOnes - 1, workers := p.workers[w := Ready])
    case NotifyNone => p.(notifyOnes := p.notifyOnes - 1)
    case Stop => p.(stop := true, notifyAll := true)
    case NotifyAll => p.(notifyAll := false, workers := WakeAll(p.workers))
    case Turn(w) => TakeTurn(p, w)
    case Spurious(w) => p.(workers := p.workers[w := Ready])
    case Finish(w) => p.(workers := p.workers[w := Ready], finished := p.finished + [p.workers[w].task])
  }

  /** The state after a run; None when some action of it is not possible. */
  ghost predicate IsRun<T>(p: Pool<T>, run: seq<Action<T>>, q: Pool<T>)
    decreases |run|
  {
    if run == [] then p == q else Enabled(p, run[0]) && IsRun(Apply(p, run[0]), run[1..], q)
  }

  // ---- The invariant ----

  /** The tasks that are running. */
  ghost function InHand<T>(ws: seq<Worker<T>>): multiset<T> {
    if ws == [] then multiset{}
    else InHand(ws[..|ws| - 1]) + HeldBy(ws[|ws| - 1])
  }

  ghost function HeldBy<T>(w: Worker<T>): multiset<T> {
    if w.Running? then multiset{w.task} else multiset{}
  }

  lemma Exchange<T>(a: multiset<T>, b: multiset<T>, c: multiset<T>, d: multiset<T>, e: multiset<T>)
    requires a + b == c + d
    ensures (a + e) + b == (c + e) + d
  {
    assert (a + e) + b == (a + b) + e;
  }

  lemma InHandSnoc<T>(ws: seq<Worker<T>>)
    requires ws != []
    ensures InHand(ws) == InHand(ws[..|ws| - 1]) + HeldBy(ws[|ws| - 1])
  {
  }

  lemma Swapped<T>(a: multiset<T>, b: multiset<T>, c: multiset<T>)
    ensures (a + b) + c == (a + c) + b
  {
  }

  lemma {:induction false} InHandUpdate<T>(ws: seq<Worker<T>>, w: nat, x: Worker<T>)
    requires w < |ws|
    ensures InHand(ws[w := x]) + HeldBy(ws[w]) == InHand(ws) + HeldBy(x)
    decreases |ws|
  {
    hide InHand, HeldBy;
    var n, vs := |ws| - 1, ws[w := x];
    InHandSnoc(ws);
    InHandSnoc(vs);
    if w < n {
      InHandUpdate(ws[..n], w, x);
      assert vs[..n] == ws[..n][w := x] && vs[n] == ws[n];
      Exchange(InHand(vs[..n]), HeldBy(ws[w]), InHand(ws[..n]), HeldBy(x), HeldBy(ws[n]));
    } else {
      assert vs[..n] == ws[..n];
      Swapped(InHand(ws[..n]), HeldBy(x), HeldBy(ws[w]));
    }
  }

  lemma {:induction false} InHandSame<T>(ws: seq<Worker<T>>, vs: seq<Worker<T>>)
    requires |ws| == |vs| && forall i: nat | i < |ws| :: HeldBy(ws[i]) == HeldBy(vs[i])
    ensures InHand(ws) == InHand(vs)
    decreases |ws|
  {
    if ws != [] { InHandSame(ws[..|ws| - 1], vs[..|ws| - 1]); }
  }

  /** Tasks leave the queue in the order in which they came, and a task that has been taken is either
      running, once, or finished, once. */
  ghost predicate Conserves<T>(p: Pool<T>) {
    && p.accepted == p.taken + p.tasks
    && multiset(p.taken) == multiset(p.finished) + InHand(p.workers)
  }

  /** Workers leave only a stopped pool with an empty queue. */
  ghost predicate LeavesDrained<T>(p: Pool<T>) {
    forall w: nat | w < |p.workers| :: p.workers[w].Exited? ==> p.stop && p.tasks == []
  }

  /** No wake-up is lost: while a task is queued, a worker waits only if another will look at the queue
      or a notification is under way; once notify_all has been called nobody waits. */
  ghost predicate NoLostWakeUp<T>(p: Pool<T>) {
    && (p.notifyAll ==> p.stop)
    && (p.stop && !p.notifyAll ==> forall w: nat | w < |p.workers| :: !p.workers[w].Waiting?)
    && (p.tasks != [] && p.workers != [] ==> p.notifyOnes > 0 || SomeAwake(p.workers))
  }

  ghost predicate SomeAwake<T>(ws: seq<Worker<T>>) {
    exists w: nat :: w < |ws| && (ws[w].Ready? || ws[w].Running?)
  }

  ghost predicate Inv<T>(p: Pool<T>) {
    Conserves(p) && LeavesDrained(p) && NoLostWakeUp(p)
  }

  lemma StartInv<T>(threads: nat)
    ensures Inv(Start<T>(threads))
  {
    var p := Start<T>(threads);
    InHandNone(p.workers);
  }

  lemma {:induction false} InHandNone<T>(ws: seq<Worker<T>>)
    requires forall i: nat | i < |ws| :: !ws[i].Running?
    ensures InHand(ws) == multiset{}
    decreases |ws|
  {
    if ws != [] { InHandNone(ws[..|ws| - 1]); }
  }

  lemma ConservesKept<T>(p: Pool<T>, a: Action<T>)
    requires Conserves(p) && Enabled(p, a)
    ensures Conserves(Apply(p, a))
  {
    hide InHand;
    match a
    case Enqueue(t) => assert p.taken + (p.tasks + [t]) == (p.taken + p.tasks) + [t];
    case NotifyOne(w) => IdleSwap(p.workers, w, Ready);
    case NotifyNone =>
    case Stop =>
    case NotifyAll => InHandSame(p.workers, WakeAll(p.workers));
    case Turn(w) => TurnConserves(p, w);
    case Spurious(w) => IdleSwap(p.workers, w, Ready);
    case Finish(w) => FinishConserves(p, w);
  }

  lemma IdleSwap<T>(ws: seq<Worker<T>>, w: nat, x: Worker<T>)
    requires w < |ws| && !ws[w].Running? && !x.Running?
    ensures InHand(ws[w := x]) == InHand(ws)
  {
    InHandUpdate(ws, w, x);
    Neutral(InHand(ws[w := x]));
    Neutral(InHand(ws));
  }

  lemma Neutral<T>(m: multiset<T>)
    ensures m + multiset{} == m
  {
  }

  lemma Moved<T>(a: multiset<T>, b: multiset<T>, c: multiset<T>)
    ensures (a + b) + c == a + (b + c) == (a + c) + b
  {
  }

  lemma TurnConserves<T>(p: Pool<T>, w: nat)
    requires Conserves(p) && Enabled(p, Turn(w))
    ensures Conserves(TakeTurn(p, w))
  {
    hide InHand;
    if p.tasks == [] {
      IdleSwap(p.workers, w, if p.stop then Exited else Waiting);
    } else {
      var t := p.tasks[0];
      assert p.taken + p.tasks == (p.taken + [t]) + p.tasks[1..];
      InHandUpdate(p.workers, w, Running(t));
      Neutral(InHand(p.workers[w := Running(t)]));
      Moved(multiset(p.finished), InHand(p.workers), multiset{t});
      assert multiset(p.taken + [t]) == multiset(p.taken) + multiset{t};
    }
  }

  lemma FinishConserves<T>(p: Pool<T>, w: nat)
    requires Conserves(p) && Enabled(p, Finish(w))
    ensures Conserves(Apply(p, Finish(w)))
  {
    hide InHand;
    var t := p.workers[w].task;
    InHandUpdate(p.workers, w, Ready);
    Neutral(InHand(p.workers));
    Moved(multiset(p.finished), InHand(p.workers[w := Ready]), multiset{t});
    assert multiset(p.finished + [t]) == multiset(p.finished) + multiset{t};
  }

  lemma NoLostWakeUpKept<T>(p: Pool<T>, a: Action<T>)
    requires NoLostWakeUp(p) && LeavesDrained(p) && Enabled(p, a)
    ensures NoLostWakeUp(Apply(p, a)) && LeavesDrained(Apply(p, a))
  {
    var q := Apply(p, a);
    if q.tasks != [] && q.workers != [] && q.notifyOnes == 0 {
      match a
      case NotifyOne(w) => assert q.workers[w].Ready?;
      case NotifyNone =>
        assert !p.workers[0].Waiting?;
      case NotifyAll =>
        assert p.workers[0].Waiting? ==> q.workers[0].Ready?;
      case Turn(w) => assert q.workers[w].Running?;
      case Spurious(w) => assert q.workers[w].Ready?;
      case Finish(w) => assert q.workers[w].Ready?;
      case Enqueue(_) =>
      case Stop =>
    }
  }

  lemma StepKeeps<T>(p: Pool<T>, a: Action<T>)
    requires Inv(p) && Enabled(p, a)
    ensures Inv(Apply(p, a))
  {
    ConservesKept(p, a);
    NoLostWakeUpKept(p, a);
  }

  /** What a later state q keeps of p: the workers, the histories and the stop flag; a stopped pool
      accepts nothing. */
  ghost predicate Later<T>(p: Pool<T>, q: Pool<T>) {
    && |q.workers| == |p.workers|
    && p.accepted <= q.accepted && p.taken <= q.taken && p.finished <= q.finished
    && (p.stop ==> q.stop && q.accepted == p.accepted)
  }

  lemma StepLater<T>(p: Pool<T>, a: Action<T>)
    requires Enabled(p, a)
    ensures Later(p, Apply(p, a))
  {
  }

  lemma LaterLater<T>(p: Pool<T>, q: Pool<T>, r: Pool<T>)
    requires Later(p, q) && Later(q, r)
    ensures Later(p, r)
  {
  }

  /** Over every run, whatever the interleaving: the invariant holds and a stopped pool stays stopped
      and accepts nothing more. */
  lemma {:induction false} RunKeeps<T>(p: Pool<T>, run: seq<Action<T>>, q: Pool<T>)
    requires Inv(p) && IsRun(p, run, q)
    ensures Inv(q) && Later(p, q)
    decreases |run|
  {
    hide Inv, Enabled, Apply;
    if run != [] {
      var next := Apply(p, run[0]);
      StepKeeps(p, run[0]);
      StepLater(p, run[0]);
      RunKeeps(next, run[1..], q);
      LaterLater(p, next, q);
    }
  }

  // ---- Safety over whole runs ----

  ghost predicate AllExited<T>(p: Pool<T>) {
    forall w: nat | w < |p.workers| :: p.workers[w].Exited?
  }

  /** In every run tasks are taken in the order in which they were accepted, none runs more often than
      it was accepted, and once all workers have left nothing is queued and every accepted task has
      finished, exactly as often as it was accepted. */
  lemma RunsEachOnce<T>(threads: nat, run: seq<Action<T>>, q: Pool<T>)
    requires IsRun(Start<T>(threads), run, q)
    ensures q.taken <= q.accepted
    ensures multiset(q.finished) <= multiset(q.accepted)
    ensures threads > 0 && AllExited(q) ==> q.stop && q.tasks == [] && q.taken == q.accepted
                                            && multiset(q.finished) == multiset(q.accepted)
  {
    hide InHand;
    StartInv<T>(threads);
    RunKeeps(Start<T>(threads), run, q);
    assert multiset(q.accepted) == multiset(q.taken) + multiset(q.tasks);
    if threads > 0 && AllExited(q) {
      assert q.workers[0].Exited?;
      InHandNone(q.workers);
      Neutral(multiset(q.finished));
    }
  }

  /** Without a worker a task is accepted and never run. */
  lemma NoWorkerNoWork<T>(t: T)
    ensures var q := Apply(Start<T>(0), Enqueue(t));
      IsRun(Start<T>(0), [Enqueue(t)], q) && AllExited(q) && q.tasks == [t] && q.finished == []
  {
    assert [Enqueue(t)][1..] == [];
  }

  /** A run of a fresh pool after which all workers have left. */
  ghost predicate Ended<T>(threads: nat, run: seq<Action<T>>, q: Pool<T>) {
    IsRun(Start<T>(threads), run, q) && AllExited(q)
  }

  /** Whatever task t could be enqueued: a pool whose workers have all left has no task queued, in
      every run, exactly when it was made with a worker. */
  lemma EmptyWhenGone<T(!new)>(threads: nat, t: T)
    ensures threads > 0 <==> forall run: seq<Action<T>>, q: Pool<T> | Ended(threads, run, q) :: q.tasks == []
  {
    if threads > 0 {
      forall run: seq<Action<T>>, q: Pool<T> | Ended(threads, run, q) ensures q.tasks == [] {
        RunsEachOnce(threads, run, q);
      }
    } else {
      NoWorkerNoWork(t);
      assert Ended(threads, [Enqueue(t)], Apply(Start<T>(0), Enqueue(t)));
    }
  }

  // ---- The pool always drains ----

  /** An action that neither a client nor the destructor has to start. */
  predicate Internal<T>(a: Action<T>) {
    !a.Enqueue? && !a.Stop?
  }

  /** A queued task, or a stopped pool with workers left, never gets stuck. */
  lemma NeverStuck<T>(p: Pool<T>) returns (a: Action<T>)
    requires Inv(p) && p.workers != [] && (p.tasks != [] || (p.stop && !AllExited(p)))
    ensures Internal(a) && !a.Spurious? && Enabled(p, a)
  {
    if p.notifyAll {
      a := NotifyAll;
    } else if w: nat :| w < |p.workers| && (p.workers[w].Ready? || p.workers[w].Running?) {
      a := if p.workers[w].Ready? then Turn(w) else Finish(w);
    } else if w: nat :| w < |p.workers| && p.workers[w].Waiting? {
      a := NotifyOne(w);
    } else {
      a := NotifyNone;
    }
  }

  function Weight<T>(w: Worker<T>): nat {
    match w
    case Waiting => 2
    case Running(_) => 2
    case Ready => 1
    case Exited => 0
  }

  function Load<T>(ws: seq<Worker<T>>): nat {
    if ws == [] then 0 else Load(ws[..|ws| - 1]) + Weight(ws[|ws| - 1])
  }

  /** The steps left in a stopped pool. */
  function StepsLeft<T>(p: Pool<T>): nat {
    2 * |p.tasks| + Load(p.workers) + p.notifyOnes + if p.notifyAll then 1 else 0
  }

  lemma {:induction false} LoadUpdate<T>(ws: seq<Worker<T>>, w: nat, x: Worker<T>)
    requires w < |ws|
    ensures Load(ws[w := x]) + Weight(ws[w]) == Load(ws) + Weight(x)
    decreases |ws|
  {
    var n := |ws| - 1;
    if w < n {
      LoadUpdate(ws[..n], w, x);
      assert ws[w := x][..n] == ws[..n][w := x];
    } else {
      assert ws[w := x][..n] == ws[..n];
    }
  }

  lemma {:induction false} LoadWakeAll<T>(ws: seq<Worker<T>>, vs: seq<Worker<T>>)
    requires |ws| == |vs| && forall i: nat | i < |ws| :: Weight(vs[i]) <= Weight(ws[i])
    ensures Load(vs) <= Load(ws)
    decreases |ws|
  {
    if ws != [] { LoadWakeAll(ws[..|ws| - 1], vs[..|ws| - 1]); }
  }

  lemma StopShrinks<T>(p: Pool<T>, a: Action<T>)
    requires p.stop && Enabled(p, a) && Internal(a)
    ensures StepsLeft(Apply(p, a)) < StepsLeft(p)
  {
    hide Load;
    match a
    case NotifyOne(w) => LoadUpdate(p.workers, w, Ready);
    case NotifyNone =>
    case NotifyAll => LoadWakeAll(p.workers, WakeAll(p.workers));
    case Turn(w) => LoadUpdate(p.workers, w, Apply(p, a).workers[w]);
    case Spurious(w) => LoadUpdate(p.workers, w, Ready);
    case Finish(w) => LoadUpdate(p.workers, w, Ready);
    case Enqueue(_) =>
    case Stop =>
  }

  lemma {:induction false} StoppedRunIsShort<T>(p: Pool<T>, run: seq<Action<T>>, q: Pool<T>)
    requires p.stop && IsRun(p, run, q) && forall i: nat | i < |run| :: Internal(run[i])
    ensures |run| + StepsLeft(q) <= StepsLeft(p)
    decreases |run|
  {
    if run != [] {
      assert Internal(run[0]);
      StopShrinks(p, run[0]);
      StoppedRunIsShort(Apply(p, run[0]), run[1..], q);
    }
  }

  /** No worker is added or lost. */
  lemma {:induction false} KeepsWorkers<T>(p: Pool<T>, run: seq<Action<T>>, q: Pool<T>)
    requires IsRun(p, run, q)
    ensures |q.workers| == |p.workers|
    decreases |run|
  {
    if run != [] {
      assert |Apply(p, run[0]).workers| == |p.workers|;
      KeepsWorkers(Apply(p, run[0]), run[1..], q);
    }
  }

  /** After the destructor has set the flag, however the workers are scheduled, at most StepsLeft steps
      are left, and when none is possible any more all workers have left and every accepted task has
      finished. */
  lemma Drains<T>(threads: nat, run: seq<Action<T>>, p: Pool<T>, more: seq<Action<T>>, q: Pool<T>)
    requires threads > 0 && IsRun(Start<T>(threads), run, p) && p.stop
    requires IsRun(p, more, q) && forall i: nat | i < |more| :: Internal(more[i])
    ensures |more| <= StepsLeft(p) && |q.workers| == threads
    ensures (forall a: Action<T> :: Internal(a) ==> !Enabled(q, a)) ==>
      AllExited(q) && q.accepted == p.accepted == q.taken && multiset(q.finished) == multiset(p.accepted)
  {
    StartInv<T>(threads);
    RunKeeps(Start<T>(threads), run, p);
    RunKeeps(p, more, q);
    StoppedRunIsShort(p, more, q);
    KeepsWorkers(Start<T>(threads), run, p);
    KeepsWorkers(p, more, q);
    if forall a: Action<T> :: Internal(a) ==> !Enabled(q, a) {
      if !AllExited(q) {
        var a := NeverStuck(q);
      }
      assert AllExited(q);
      assert q.workers[0].Exited?;
      InHandNone(q.workers);
      Neutral(multiset(q.finished));
    }
  }

  // ---- The pool as an object ----

  /** ThreadPool: each method is one critical section or one notification. */
  class ThreadPool<T> {
    var tasks: seq<T>
    var stop: bool
    var workers: seq<Worker<T>>
    ghost var notifyOnes: nat
    ghost var notifyAll: bool
    ghost var accepted: seq<T>
    ghost var taken: seq<T>
    ghost var finished: seq<T>

    ghost function State(): Pool<T>
      reads this
    {
      Pool(tasks, stop, workers, notifyOnes, notifyAll, accepted, taken, finished)
    }

    constructor (threads: nat)
      ensures State() == Start(threads) && Inv(State())
      ensures |workers| == threads && tasks == [] && !stop && forall w: nat | w < threads :: workers[w].Ready?
    {
      tasks, stop, workers := [], false, [];
      notifyOnes, notifyAll, accepted, taken, finished := 0, false, [], [], [];
      new;
      for i := 0 to threads
        invariant State() == Start<T>(0).(workers := workers)
        invariant |workers| == i && forall w: nat | w < i :: workers[w] == Ready
      {
        workers := workers + [Ready];
      }
      assert workers == Start<T>(threads).workers;
      StartInv<T>(threads);
    }

    /** enqueue, up to the end of its critical section; false for the exception. */
    method Enqueue(task: T) returns (ok: bool)
      requires Inv(State())
      modifies this
      ensures State() == Apply(old(State()), Action.Enqueue(task)) && Inv(State())
      ensures ok <==> !old(stop)
      ensures ok <==> accepted == old(accepted) + [task]
    {
      StepKeeps(State(), Action.Enqueue(task));
      if stop { return false; }
      tasks := tasks + [task];
      notifyOnes, accepted := notifyOnes + 1, accepted + [task];
      return true;
    }

    /** The critical section of a worker. */
    method Turn(w: nat)
      requires Inv(State()) && Enabled(State(), Action.Turn(w))
      modifies this
      ensures State() == Apply(old(State()), Action.Turn(w)) && Inv(State())
    {
      hide Inv;
      StepKeeps(State(), Action.Turn(w));
      if !(stop || tasks != []) {
        workers := workers[w := Waiting];
        return;
      }
      if stop && tasks == [] {
        workers := workers[w := Exited];
        return;
      }
      var task := tasks[0];
      tasks := tasks[1..];
      workers := workers[w := Running(task)];
      taken := taken + [task];
    }

    method Finish(w: nat)
      requires Inv(State()) && Enabled(State(), Action.Finish(w))
      modifies this
      ensures State() == Apply(old(State()), Action.Finish(w)) && Inv(State())
    {
      StepKeeps(State(), Action.Finish(w));
      finished := finished + [workers[w].task];
      workers := workers[w := Ready];
    }

    /** The critical section of the destructor. */
    method Stop()
      requires Inv(State()) && !stop
      modifies this
      ensures State() == Apply(old(State()), Action.Stop) && Inv(State())
    {
      StepKeeps(State(), Action.Stop);
      stop := true;
      notifyAll := true;
    }
  }
}
