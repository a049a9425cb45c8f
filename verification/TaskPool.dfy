/**
 * The scheduling of nattan's TaskThread (task/TaskThread.h): a boss coroutine hands
 * runners to worker coroutines over channels of one slot. Coroutines switch only
 * while they wait for a channel, and a running runner may let others run at any time;
 * a step is what one of them does in between. Channels are the bounded queues that
 * module Chan shows them to be.
 */
module TaskPool {
  import opened Bytes

  const BOSS_SLOTS := 128
  const WORKER_SLOTS := 1

  type Runner = nat

  /**
   * Where a worker is. Starting: not scheduled yet. Waiting: in recv on its own channel.
   * Running: in run() of a runner. Submitting: in run(), waiting for room in the boss's channel.
   */
  datatype Place = Starting | Waiting | Running(runner: Runner) | Submitting(runner: Runner, next: Runner) | Dead

  datatype Worker = Worker(place: Place, chan: seq<Runner>)

  /** Polling: about to look at the tasks of other threads. Receiving: in recv. Stuck: waiting for room in a worker's channel. */
  datatype Boss = Polling | Receiving | Stuck(worker: nat, runner: Runner)

  /** What a worker does when it is scheduled. */
  datatype Act = GoOn | Submit(runner: Runner) | Finish

  /** The boss names the first of the idle workers, which are ordered by their addresses. */
  datatype Step =
    | BossStep(pick: nat)
    | WorkerStep(id: nat, act: Act)
    | Offer(runner: Runner)

  /** A moment of a run: the state of the thread, the runners taken in and those whose run() has returned. */
  datatype Picture = Picture(workers: seq<Worker>, idle: set<nat>, boss: Boss, bossChan: seq<Runner>, tasks: seq<Runner>,
                             taken: seq<Runner>, done: seq<Runner>)

  // ---------------------------------------------------------------------
  // The steps as functions.

  const EMPTY := Picture([], {}, Polling, [], [], [], [])

  predicate Picks(p: Picture, pick: nat) {
    p.idle == {} || (pick in p.idle && pick < |p.workers|)
  }

  function Dispatched(p: Picture, runner: Runner, pick: nat): Picture
    requires Picks(p, pick)
  {
    if p.idle == {} then p.(boss := Polling, workers := p.workers + [Worker(Starting, [runner])])
    else p.(boss := Polling, workers := p.workers[pick := Worker(Waiting, [runner])], idle := p.idle - {pick})
  }

  /** An idle worker gets the runner and is idle no longer; only if there is none, a new worker is started for it. */
  ghost predicate HandedOut(workers: seq<Worker>, idle: set<nat>, workers': seq<Worker>, idle': set<nat>, runner: Runner, pick: nat) {
    && (idle != {} ==>
          && pick in idle && pick < |workers| && idle' == idle - {pick} && |workers'| == |workers|
          && workers'[pick] == Worker(Waiting, [runner])
          && forall i :: 0 <= i < |workers| && i != pick ==> workers'[i] == workers[i])
    && (idle == {} ==> idle' == {} && workers' == workers + [Worker(Starting, [runner])])
  }

  function Bossed(p: Picture, pick: nat): Picture
    requires Picks(p, pick)
  {
    if p.boss == Polling && p.tasks != [] then Dispatched(p.(tasks := p.tasks[1..]), p.tasks[0], pick)
    else if p.boss == Polling then p.(boss := Receiving)
    else if p.bossChan != [] then Dispatched(p.(bossChan := p.bossChan[1..]), p.bossChan[0], pick)
    else p
  }

  function Woken(p: Picture, timeout: int, id: nat): Picture
    requires id < |p.workers|
  {
    var w := p.workers[id];
    if w.chan != [] then p.(workers := p.workers[id := Worker(Running(w.chan[0]), [])])
    else if timeout > 0 then p.(workers := p.workers[id := Worker(Dead, [])], idle := p.idle - {id})
    else p
  }

  function Submitted(p: Picture, id: nat, runner: Runner): Picture
    requires id < |p.workers| && p.workers[id].place.Running?
  {
    var w := p.workers[id];
    if |p.bossChan| == BOSS_SLOTS then
      p.(taken := p.taken + [runner], workers := p.workers[id := w.(place := Submitting(w.place.runner, runner))])
    else
      p.(taken := p.taken + [runner], bossChan := p.bossChan + [runner])
  }

  function Resubmitted(p: Picture, id: nat): Picture
    requires id < |p.workers| && p.workers[id].place.Submitting?
  {
    var w := p.workers[id];
    if |p.bossChan| < BOSS_SLOTS then
      p.(bossChan := p.bossChan + [w.place.next], workers := p.workers[id := w.(place := Running(w.place.runner))])
    else p
  }

  function Finished(p: Picture, id: nat): Picture
    requires id < |p.workers| && p.workers[id].place.Running?
  {
    var w := p.workers[id];
    p.(done := p.done + [w.place.runner], idle := p.idle + {id}, workers := p.workers[id := w.(place := Waiting)])
  }

  function Offered(p: Picture, taskSlots: nat, runner: Runner): Picture {
    if |p.tasks| == taskSlots then p else p.(tasks := p.tasks + [runner], taken := p.taken + [runner])
  }

  /** What one step makes of a picture; a step that is not possible does nothing. */
  function Next(p: Picture, timeout: int, taskSlots: nat, step: Step): Picture {
    match step
    case BossStep(pick) => if Picks(p, pick) then Bossed(p, pick) else p
    case Offer(runner) => Offered(p, taskSlots, runner)
    case WorkerStep(id, act) =>
      if id >= |p.workers| then p
      else match p.workers[id].place
        case Starting => Woken(p, timeout, id)
        case Waiting => Woken(p, timeout, id)
        case Submitting(_, _) => Resubmitted(p, id)
        case Running(_) => if act.Submit? then Submitted(p, id, act.runner) else if act.Finish? then Finished(p, id) else p
        case Dead => p
  }

  function After(p: Picture, timeout: int, taskSlots: nat, steps: seq<Step>): Picture
    decreases |steps|
  {
    if steps == [] then p else After(Next(p, timeout, taskSlots, steps[0]), timeout, taskSlots, steps[1..])
  }

  // ---------------------------------------------------------------------
  // Where the runners are.

  /** How often r occurs. */
  function Times(s: seq<Runner>, r: Runner): nat {
    if s == [] then 0 else One(s[0], r) + Times(s[1..], r)
  }

  function One(x: Runner, r: Runner): nat {
    if x == r then 1 else 0
  }

  lemma {:induction false} TimesAppend(s: seq<Runner>, x: Runner, r: Runner)
    ensures Times(s + [x], r) == Times(s, r) + One(x, r)
  {
    if s == [] {
      assert (s + [x])[1..] == [];
    } else {
      assert (s + [x])[1..] == s[1..] + [x];
      TimesAppend(s[1..], x, r);
    }
  }

  function HeldBy(w: Worker, r: Runner): nat {
    Times(w.chan, r) +
    match w.place
    case Running(x) => One(x, r)
    case Submitting(x, next) => One(x, r) + One(next, r)
    case _ => 0
  }

  function HeldByAll(workers: seq<Worker>, r: Runner): nat {
    if workers == [] then 0 else HeldBy(workers[0], r) + HeldByAll(workers[1..], r)
  }

  lemma {:induction false} HeldUpdate(workers: seq<Worker>, i: nat, w: Worker, r: Runner)
    requires i < |workers|
    ensures HeldByAll(workers[i := w], r) + HeldBy(workers[i], r) == HeldByAll(workers, r) + HeldBy(w, r)
  {
    hide HeldBy;
    if i == 0 {
      assert workers[i := w][1..] == workers[1..];
    } else {
      assert workers[i := w][1..] == workers[1..][i - 1 := w];
      HeldUpdate(workers[1..], i - 1, w, r);
    }
  }

  lemma {:induction false} HeldAppend(workers: seq<Worker>, w: Worker, r: Runner)
    ensures HeldByAll(workers + [w], r) == HeldByAll(workers, r) + HeldBy(w, r)
  {
    hide HeldBy;
    if workers == [] {
      assert (workers + [w])[1..] == [];
    } else {
      assert (workers + [w])[1..] == workers[1..] + [w];
      HeldAppend(workers[1..], w, r);
    }
  }

  /** A worker that may be handed a runner, or holds one, or is gone. */
  ghost predicate WorkerOk(w: Worker, idle: bool) {
    && |w.chan| <= WORKER_SLOTS
    && match w.place
       case Starting => |w.chan| == 1 && !idle
       case Waiting => idle <==> w.chan == []
       case Running(_) => w.chan == [] && !idle
       case Submitting(_, _) => w.chan == [] && !idle
       case Dead => w.chan == [] && !idle
  }

  class Thread {
    /** The keepalive timeout; workers never die when it is not positive. */
    const timeout: int
    const taskSlots: nat
    var workers: seq<Worker>
    var idle: set<nat>
    var boss: Boss
    var bossChan: seq<Runner>
    var tasks: seq<Runner>

    /** History: the runners that were taken in, and those whose run() has returned. */
    var taken: seq<Runner>
    var done: seq<Runner>

    ghost predicate Valid()
      reads this
    {
      && |bossChan| <= BOSS_SLOTS && |tasks| <= taskSlots
      && !boss.Stuck?
      && (forall i <- idle :: i < |workers|)
      && (forall i :: 0 <= i < |workers| ==> WorkerOk(workers[i], i in idle))
      && forall r :: Everywhere(r) == Times(taken, r)
    }

    function View(): Picture
      reads this
    {
      Picture(workers, idle, boss, bossChan, tasks, taken, done)
    }

    /** How often a runner occurs in all the places that a runner can be in. */
    ghost function Everywhere(r: Runner): nat
      reads this
    {
      Times(bossChan, r) + Times(tasks, r) + HeldByAll(workers, r) + Times(done, r) +
      if boss.Stuck? then One(boss.runner, r) else 0
    }

    constructor (timeout: int, taskSlots: nat)
      ensures Valid() && View() == EMPTY
      ensures this.timeout == timeout && this.taskSlots == taskSlots
    {
      this.timeout, this.taskSlots := timeout, taskSlots;
      workers, idle, boss, bossChan, tasks, taken, done := [], {}, Polling, [], [], [], [];
    }

    /** TaskWorker::send by the boss, who has just taken runner. */
    method Hand(id: nat, runner: Runner)
      requires id < |workers| && boss == Polling
      modifies this`workers, this`boss
      ensures |old(workers)[id].chan| < WORKER_SLOTS ==>
                && boss == Polling
                && workers == old(workers)[id := old(workers)[id].(chan := old(workers)[id].chan + [runner])]
      ensures |old(workers)[id].chan| >= WORKER_SLOTS ==> boss == Stuck(id, runner) && workers == old(workers)
    {
      var w := workers[id];
      if |w.chan| >= WORKER_SLOTS {
        boss := Stuck(id, runner);
      } else {
        workers := workers[id := w.(chan := w.chan + [runner])];
      }
    }

    /** The second half of TaskBoss::run: a new worker, or an idle one, gets the runner. The channel always has room. */
    method Dispatch(runner: Runner, pick: nat)
      requires Picks(View(), pick)
      requires |bossChan| <= BOSS_SLOTS && |tasks| <= taskSlots && boss == Polling
      requires forall i <- idle :: i < |workers|
      requires forall i :: 0 <= i < |workers| ==> WorkerOk(workers[i], i in idle)
      requires forall r :: Everywhere(r) + One(runner, r) == Times(taken, r)
      modifies this`workers, this`idle, this`boss
      ensures Valid() && View() == Dispatched(old(View()), runner, pick)
      ensures HandedOut(old(workers), old(idle), workers, idle, runner, pick) && boss == Polling
    {
      if idle == {} {
        forall r ensures HeldByAll(workers + [Worker(Starting, [])], r) == HeldByAll(workers, r) {
          HeldAppend(workers, Worker(Starting, []), r);
        }
        workers := workers + [Worker(Starting, [])];
        Give(|workers| - 1, runner);
      } else {
        idle := idle - {pick};
        Give(pick, runner);
      }
    }

    method Give(id: nat, runner: Runner)
      requires |bossChan| <= BOSS_SLOTS && |tasks| <= taskSlots && boss == Polling
      requires id < |workers| && id !in idle && workers[id].chan == []
      requires workers[id].place.Starting? || workers[id].place.Waiting?
      requires forall i <- idle :: i < |workers|
      requires forall i :: 0 <= i < |workers| && i != id ==> WorkerOk(workers[i], i in idle)
      requires forall r :: Everywhere(r) + One(runner, r) == Times(taken, r)
      modifies this`workers, this`boss
      ensures Valid() && boss == Polling
      ensures workers == old(workers)[id := old(workers)[id].(chan := [runner])]
    {
      hide HeldByAll, Times, One;
      ghost var before, w := workers, workers[id];
      assert w.chan + [runner] == [runner];
      Hand(id, runner);
      forall r ensures Everywhere(r) == Times(taken, r) {
        HeldUpdate(before, id, workers[id], r);
        TimesAppend(w.chan, runner, r);
      }
    }

    /** One iteration of TaskBoss::run, or a wake-up that finds nothing: the tasks of other threads come first. */
    method RunBoss(pick: nat)
      requires Valid() && Picks(View(), pick)
      modifies this`workers, this`idle, this`boss, this`bossChan, this`tasks
      ensures Valid() && View() == Bossed(old(View()), pick)
      ensures old(boss) == Polling && old(tasks) != [] ==>
                && tasks == old(tasks)[1..] && bossChan == old(bossChan) && boss == Polling
                && HandedOut(old(workers), old(idle), workers, idle, old(tasks)[0], pick)
      ensures old(boss) == Receiving && old(bossChan) != [] ==>
                && bossChan == old(bossChan)[1..] && tasks == old(tasks) && boss == Polling
                && HandedOut(old(workers), old(idle), workers, idle, old(bossChan)[0], pick)
      ensures (if old(boss) == Polling then old(tasks) else old(bossChan)) == [] ==>
                && tasks == old(tasks) && bossChan == old(bossChan) && boss == Receiving
                && workers == old(workers) && idle == old(idle)
    {
      if boss == Polling && tasks != [] {
        var runner := tasks[0];
        tasks := tasks[1..];
        Dispatch(runner, pick);
      } else if boss == Polling {
        boss := Receiving;
      } else if bossChan != [] {
        var runner := bossChan[0];
        bossChan := bossChan[1..];
        boss := Polling;
        Dispatch(runner, pick);
      }
    }

    /** A worker that is started or woken: TaskWorker::run from one wait to the next. */
    method WakeWorker(id: nat)
      requires Valid() && id < |workers|
      requires workers[id].place.Starting? || workers[id].place.Waiting?
      modifies this`workers, this`idle
      ensures Valid() && View() == Woken(old(View()), timeout, id)
      ensures |workers| == |old(workers)| && forall i :: 0 <= i < |workers| && i != id ==> workers[i] == old(workers)[i]
      ensures var w := old(workers)[id];
              && (w.chan != [] ==> workers[id] == Worker(Running(w.chan[0]), []) && idle == old(idle))
              && (w.chan == [] && timeout > 0 ==> workers[id] == Worker(Dead, []) && idle == old(idle) - {id})
              && (w.chan == [] && timeout <= 0 ==> workers[id] == w && idle == old(idle))
    {
      var w := workers[id];
      if w.chan != [] {
        assert w.chan[1..] == [];
        Put(id, Worker(Running(w.chan[0]), []));
      } else if timeout > 0 && w.place.Waiting? {
        idle := idle - {id};
        Put(id, w.(place := Dead));
      }
    }

    /** A worker changes while it holds the same runners. */
    method Put(id: nat, w: Worker)
      requires id < |workers| && WorkerOk(w, id in idle)
      requires |bossChan| <= BOSS_SLOTS && |tasks| <= taskSlots && !boss.Stuck?
      requires forall i <- idle :: i < |workers|
      requires forall i :: 0 <= i < |workers| && i != id ==> WorkerOk(workers[i], i in idle)
      requires forall r :: Everywhere(r) + HeldBy(w, r) == Times(taken, r) + HeldBy(workers[id], r)
      modifies this`workers
      ensures Valid() && workers == old(workers)[id := w]
    {
      hide HeldByAll, Times, One, HeldBy, WorkerOk;
      ghost var before := workers;
      workers := workers[id := w];
      forall r ensures Everywhere(r) == Times(taken, r) {
        HeldUpdate(before, id, w, r);
      }
    }

    /** TaskThread::submit from within runner: its worker waits while the boss's channel is full. */
    method SubmitFrom(id: nat, runner: Runner)
      requires Valid() && id < |workers| && workers[id].place.Running?
      modifies this`taken, this`workers, this`bossChan
      ensures Valid() && View() == Submitted(old(View()), id, runner)
      ensures taken == old(taken) + [runner]
      ensures |old(bossChan)| < 128 ==> bossChan == old(bossChan) + [runner] && workers == old(workers)
      ensures |old(bossChan)| == 128 ==>
                && bossChan == old(bossChan)
                && workers == old(workers)[id := Worker(Submitting(old(workers)[id].place.runner, runner), old(workers)[id].chan)]
    {
      forall r ensures Times(taken + [runner], r) == Times(taken, r) + One(runner, r) {
        TimesAppend(taken, runner, r);
      }
      taken := taken + [runner];
      if |bossChan| == BOSS_SLOTS {
        Put(id, workers[id].(place := Submitting(workers[id].place.runner, runner)));
      } else {
        Enqueue(runner);
      }
    }

    /** The boss's channel takes a runner that was in hand. */
    method Enqueue(runner: Runner)
      requires |bossChan| < BOSS_SLOTS && |tasks| <= taskSlots && !boss.Stuck?
      requires forall i <- idle :: i < |workers|
      requires forall i :: 0 <= i < |workers| ==> WorkerOk(workers[i], i in idle)
      requires forall r :: Everywhere(r) + One(runner, r) == Times(taken, r)
      modifies this`bossChan
      ensures Valid() && bossChan == old(bossChan) + [runner]
    {
      hide HeldByAll, Times, One, WorkerOk;
      ghost var before := bossChan;
      bossChan := bossChan + [runner];
      forall r ensures Everywhere(r) == Times(taken, r) {
        TimesAppend(before, runner, r);
      }
    }

    /** A worker that waits in submit is woken. */
    method Resubmit(id: nat)
      requires Valid() && id < |workers| && workers[id].place.Submitting?
      modifies this`bossChan, this`workers
      ensures Valid() && View() == Resubmitted(old(View()), id)
      ensures var w := old(workers)[id];
              && (|old(bossChan)| < 128 ==>
                    && bossChan == old(bossChan) + [w.place.next]
                    && workers == old(workers)[id := Worker(Running(w.place.runner), w.chan)])
              && (|old(bossChan)| == 128 ==> bossChan == old(bossChan) && workers == old(workers))
    {
      if |bossChan| < BOSS_SLOTS {
        hide Times, HeldByAll, One;
        ghost var before := workers;
        var next := workers[id].place.next;
        var w := workers[id].(place := Running(workers[id].place.runner));
        workers := workers[id := w];
        forall r ensures Everywhere(r) + One(next, r) == Times(taken, r) {
          HeldUpdate(before, id, w, r);
        }
        Enqueue(next);
      }
    }

    /** run() returns: the worker is idle again and goes back to recv, where its channel is empty. */
    method FinishRunner(id: nat)
      requires Valid() && id < |workers| && workers[id].place.Running?
      modifies this`workers, this`idle, this`done
      ensures Valid() && View() == Finished(old(View()), id)
      ensures done == old(done) + [old(workers)[id].place.runner] && idle == old(idle) + {id}
      ensures workers == old(workers)[id := Worker(Waiting, [])]
    {
      hide Times, HeldByAll, One;
      ghost var before, finished := workers, done;
      var runner := workers[id].place.runner;
      done := done + [runner];
      idle := idle + {id};
      workers := workers[id := workers[id].(place := Waiting)];
      forall r ensures Everywhere(r) == Times(taken, r) {
        HeldUpdate(before, id, workers[id], r);
        TimesAppend(finished, runner, r);
      }
    }

    /** TaskThread::submit from another thread: refused when its queue is full. */
    method OfferTask(runner: Runner) returns (ok: bool)
      requires Valid()
      modifies this`tasks, this`taken
      ensures Valid() && ok == (|old(tasks)| < taskSlots)
      ensures View() == Offered(old(View()), taskSlots, runner)
      ensures ok ==> tasks == old(tasks) + [runner] && taken == old(taken) + [runner]
      ensures !ok ==> tasks == old(tasks) && taken == old(taken)
    {
      if |tasks| == taskSlots {
        return false;
      }
      hide HeldByAll, Times, One, WorkerOk;
      ghost var before, were := taken, tasks;
      taken := taken + [runner];
      tasks := tasks + [runner];
      forall r ensures Everywhere(r) == Times(taken, r) {
        TimesAppend(before, runner, r);
        TimesAppend(were, runner, r);
      }
      return true;
    }

    lemma PictureIsSound()
      requires Valid()
      ensures Sound(View(), taskSlots)
    {
      hide Times, HeldByAll, WorkerOk;
      forall r
        ensures Times(bossChan, r) + Times(tasks, r) + HeldByAll(workers, r) + Times(done, r) == Times(taken, r)
      {
        assert Everywhere(r) == Times(taken, r);
      }
    }

    /** One step of whoever is scheduled; a step that is not possible does nothing. */
    method Take(step: Step)
      requires Valid()
      modifies this
      ensures Valid() && View() == Next(old(View()), timeout, taskSlots, step)
    {
      hide Bossed, Woken, Submitted, Resubmitted, Finished, Offered, Thread.Valid;
      match step {
        case BossStep(pick) =>
          if Picks(View(), pick) {
            RunBoss(pick);
          }
        case Offer(runner) => var ok := OfferTask(runner);
        case WorkerStep(id, act) =>
          if id < |workers| {
            var place := workers[id].place;
            if place.Starting? || place.Waiting? {
              WakeWorker(id);
            } else if place.Submitting? {
              Resubmit(id);
            } else if place.Running? && act.Submit? {
              SubmitFrom(id, act.runner);
            } else if place.Running? && act.Finish? {
              FinishRunner(id);
            }
          }
      }
    }
  }

  lemma AfterStep(p: Picture, timeout: int, taskSlots: nat, steps: seq<Step>, k: nat)
    requires k < |steps|
    ensures After(p, timeout, taskSlots, steps[k..])
            == After(Next(p, timeout, taskSlots, steps[k]), timeout, taskSlots, steps[k + 1..])
  {
    assert steps[k..][0] == steps[k] && steps[k..][1..] == steps[k + 1..];
  }

  /** The boss does not wait for a worker, and every worker is in order. */
  ghost predicate Orderly(p: Picture) {
    && !p.boss.Stuck?
    && (forall i <- p.idle :: i < |p.workers|)
    && (forall i :: 0 <= i < |p.workers| ==> WorkerOk(p.workers[i], i in p.idle))
  }

  /** What holds in every picture of a run. */
  ghost predicate Sound(p: Picture, taskSlots: nat) {
    && Orderly(p) && |p.bossChan| <= BOSS_SLOTS && |p.tasks| <= taskSlots
    && forall r :: Times(p.bossChan, r) + Times(p.tasks, r) + HeldByAll(p.workers, r) + Times(p.done, r) == Times(p.taken, r)
  }

  /**
   * Every interleaving: the boss never waits for a worker, idle workers are alive with
   * empty channels, no worker dies with a runner, and every runner that was taken in is
   * in as many places as it was taken in.
   */
  method Run(timeout: int, taskSlots: nat, steps: seq<Step>) returns (p: Picture)
    ensures p == After(EMPTY, timeout, taskSlots, steps) && Sound(p, taskSlots)
  {
    var t := new Thread(timeout, taskSlots);
    assert steps[0..] == steps;
    for k := 0 to |steps|
      invariant fresh(t) && t.Valid() && t.taskSlots == taskSlots && t.timeout == timeout
      invariant After(EMPTY, timeout, taskSlots, steps) == After(t.View(), timeout, taskSlots, steps[k..])
    {
      hide *;
      AfterStep(t.View(), timeout, taskSlots, steps, k);
      t.Take(steps[k]);
    }
    p := t.View();
    t.PictureIsSound();
  }

  // ---------------------------------------------------------------------
  // When workers come and go.

  /** The runner that the boss is about to take, if there is one: the first task, or the first in its channel. */
  function Wanted(p: Picture): Option<Runner> {
    var queue := if p.boss == Polling then p.tasks else p.bossChan;
    if queue == [] then None else Some(queue[0])
  }

  /** Every worker that lives holds a runner, or is about to be given one. */
  predicate AllBusy(p: Picture) {
    forall w <- p.workers :: w.place.Dead? || w.place.Running? || w.place.Submitting? || w.chan != []
  }

  /** The boss starts a worker with this step. */
  predicate Starts(p: Picture, step: Step) {
    step.BossStep? && p.idle == {} && Wanted(p).Some?
  }

  /** A worker is started exactly in a step of the boss with a runner to hand out, while all workers are busy; the others stay. */
  lemma WorkerIsStarted(p: Picture, timeout: int, taskSlots: nat, step: Step)
    requires Orderly(p)
    ensures var q := Next(p, timeout, taskSlots, step);
            && |q.workers| == |p.workers| + (if Starts(p, step) then 1 else 0)
            && (Starts(p, step) ==>
                  AllBusy(p) && p.workers <= q.workers && q.workers[|p.workers|] == Worker(Starting, [Wanted(p).value]))
  {
    if p.idle == {} {
      forall w | w in p.workers ensures w.place.Dead? || w.place.Running? || w.place.Submitting? || w.chan != [] {
        var id :| 0 <= id < |p.workers| && p.workers[id] == w;
        assert WorkerOk(w, id in p.idle);
      }
    }
  }

  /** How many of the steps start a worker. */
  function StartCount(p: Picture, timeout: int, taskSlots: nat, steps: seq<Step>): nat
    decreases |steps|
  {
    if steps == [] then 0
    else
      (if Starts(p, steps[0]) then 1 else 0) +
      StartCount(Next(p, timeout, taskSlots, steps[0]), timeout, taskSlots, steps[1..])
  }

  /** In every run there are as many workers more as there were steps of the boss with a runner and nobody idle. */
  lemma {:induction false} PoolGrows(p: Picture, timeout: int, taskSlots: nat, steps: seq<Step>)
    requires Orderly(p)
    ensures |After(p, timeout, taskSlots, steps).workers| == |p.workers| + StartCount(p, timeout, taskSlots, steps)
    decreases |steps|
  {
    hide Next, Starts, Orderly;
    if steps != [] {
      WorkerIsStarted(p, timeout, taskSlots, steps[0]);
      NextIsOrderly(p, timeout, taskSlots, steps[0]);
      PoolGrows(Next(p, timeout, taskSlots, steps[0]), timeout, taskSlots, steps[1..]);
    }
  }

  predicate IsDead(p: Picture, id: nat) {
    id < |p.workers| && p.workers[id].place.Dead?
  }

  /** A worker dies exactly in a step of its own, idle, with a positive keepalive timeout; and it stays dead. */
  lemma WorkerDies(p: Picture, timeout: int, taskSlots: nat, step: Step, id: nat)
    requires Orderly(p)
    ensures IsDead(Next(p, timeout, taskSlots, step), id) <==>
              IsDead(p, id) || (step.WorkerStep? && step.id == id && id in p.idle && timeout > 0)
  {
    if id < |p.workers| {
      assert WorkerOk(p.workers[id], id in p.idle);
    }
    if step.WorkerStep? && step.id < |p.workers| {
      assert WorkerOk(p.workers[step.id], step.id in p.idle);
    }
  }

  /** Without a keepalive timeout nobody ever dies. */
  lemma {:induction false} NobodyDies(p: Picture, timeout: int, taskSlots: nat, steps: seq<Step>, id: nat)
    requires Orderly(p) && timeout <= 0
    ensures IsDead(After(p, timeout, taskSlots, steps), id) <==> IsDead(p, id)
    decreases |steps|
  {
    hide Next, Orderly, IsDead;
    if steps != [] {
      WorkerDies(p, timeout, taskSlots, steps[0], id);
      NextIsOrderly(p, timeout, taskSlots, steps[0]);
      NobodyDies(Next(p, timeout, taskSlots, steps[0]), timeout, taskSlots, steps[1..], id);
    }
  }

  // ---------------------------------------------------------------------
  // In which order runners are handed out.

  /** The task that is accepted with this step, if one is. */
  function Accepted(p: Picture, taskSlots: nat, step: Step): seq<Runner> {
    if step.Offer? && |p.tasks| != taskSlots then [step.runner] else []
  }

  /** The task that the boss hands out with this step, if it does. */
  function Polled(p: Picture, step: Step): seq<Runner> {
    if step.BossStep? && Picks(p, step.pick) && p.boss == Polling && p.tasks != [] then [p.tasks[0]] else []
  }

  function AllAccepted(p: Picture, timeout: int, taskSlots: nat, steps: seq<Step>): seq<Runner>
    decreases |steps|
  {
    if steps == [] then []
    else Accepted(p, taskSlots, steps[0]) + AllAccepted(Next(p, timeout, taskSlots, steps[0]), timeout, taskSlots, steps[1..])
  }

  function AllPolled(p: Picture, timeout: int, taskSlots: nat, steps: seq<Step>): seq<Runner>
    decreases |steps|
  {
    if steps == [] then []
    else Polled(p, steps[0]) + AllPolled(Next(p, timeout, taskSlots, steps[0]), timeout, taskSlots, steps[1..])
  }

  lemma StepInOrder(p: Picture, timeout: int, taskSlots: nat, step: Step)
    ensures p.tasks + Accepted(p, taskSlots, step) == Polled(p, step) + Next(p, timeout, taskSlots, step).tasks
  {
  }

  /** In every run the tasks of other threads are handed out in the order in which they were accepted. */
  lemma {:induction false} TasksInOrder(p: Picture, timeout: int, taskSlots: nat, steps: seq<Step>)
    ensures p.tasks + AllAccepted(p, timeout, taskSlots, steps) ==
              AllPolled(p, timeout, taskSlots, steps) + After(p, timeout, taskSlots, steps).tasks
    decreases |steps|
  {
    hide Next, Accepted, Polled;
    if steps != [] {
      var q := Next(p, timeout, taskSlots, steps[0]);
      StepInOrder(p, timeout, taskSlots, steps[0]);
      TasksInOrder(q, timeout, taskSlots, steps[1..]);
      var all, polled := AllAccepted(q, timeout, taskSlots, steps[1..]), AllPolled(q, timeout, taskSlots, steps[1..]);
      var last := After(q, timeout, taskSlots, steps[1..]).tasks;
      Assoc(p.tasks, Accepted(p, taskSlots, steps[0]), all);
      Assoc(Polled(p, steps[0]), q.tasks, all);
      Assoc(Polled(p, steps[0]), polled, last);
    }
  }

  // ---------------------------------------------------------------------
  // Where the pool comes to rest.

  /** The boss waits for a runner, and so do the workers that are left. */
  predicate AtRest(p: Picture) {
    && p.boss == Receiving && p.bossChan == []
    && forall w <- p.workers :: w == Worker(Waiting, []) || w == Worker(Dead, [])
  }

  predicate Submits(step: Step) {
    step.WorkerStep? && step.act.Submit?
  }

  /** Nobody submits or offers a runner. */
  predicate IsCalm(step: Step) {
    !step.Offer? && !Submits(step)
  }

  /** The step changes nothing, but that an idle worker may die of its timeout. */
  ghost predicate Still(p: Picture, p': Picture, step: Step) {
    p' == p || (step.WorkerStep? && step.id in p.idle && step.id < |p.workers|
                && p' == p.(workers := p.workers[step.id := Worker(Dead, [])], idle := p.idle - {step.id}))
  }

  /**
   * Coroutines of the pool get stuck at rest and nowhere else. Then all that was taken
   * in is done, except the tasks of other threads that came after the boss's last look.
   */
  lemma StuckExactlyAtRest(p: Picture, timeout: int, taskSlots: nat)
    requires Sound(p, taskSlots)
    ensures AtRest(p) <==> forall step: Step :: !step.Offer? ==> Still(p, Next(p, timeout, taskSlots, step), step)
    ensures AtRest(p) ==> forall r :: Times(p.done, r) + Times(p.tasks, r) == Times(p.taken, r)
  {
    if AtRest(p) {
      forall r ensures HeldByAll(p.workers, r) == 0 {
        NothingHeld(p.workers, r);
      }
      forall step: Step | !step.Offer? ensures Still(p, Next(p, timeout, taskSlots, step), step) {
        RestIsStill(p, timeout, taskSlots, step);
      }
    } else {
      var step := Moving(p, timeout, taskSlots);
    }
  }

  lemma RestIsStill(p: Picture, timeout: int, taskSlots: nat, step: Step)
    requires Sound(p, taskSlots) && AtRest(p) && !step.Offer?
    ensures Still(p, Next(p, timeout, taskSlots, step), step)
  {
    if step.WorkerStep? && step.id < |p.workers| {
      var w := p.workers[step.id];
      assert w in p.workers && WorkerOk(w, step.id in p.idle);
    }
  }

  lemma {:induction false} NothingHeld(workers: seq<Worker>, r: Runner)
    requires forall w <- workers :: w == Worker(Waiting, []) || w == Worker(Dead, [])
    ensures HeldByAll(workers, r) == 0
  {
    if workers != [] {
      assert workers[0] in workers;
      assert forall w <- workers[1..] :: w in workers;
      NothingHeld(workers[1..], r);
    }
  }

  lemma Moving(p: Picture, timeout: int, taskSlots: nat) returns (step: Step)
    requires Orderly(p) && !AtRest(p)
    ensures IsCalm(step) && !Still(p, Next(p, timeout, taskSlots, step), step)
  {
    if p.boss == Polling || p.bossChan != [] {
      var pick: nat := 0;
      if p.idle != {} {
        pick :| pick in p.idle;
      }
      step := BossStep(pick);
    } else {
      var w :| w in p.workers && w != Worker(Waiting, []) && w != Worker(Dead, []);
      var id :| 0 <= id < |p.workers| && p.workers[id] == w;
      assert WorkerOk(w, id in p.idle);
      step := WorkerStep(id, Finish);
    }
  }

  /** How much is still to be done for a worker, for all of them, and in all. */
  function Load(w: Worker): nat {
    match w.place
    case Dead => 0
    case Running(_) => 2
    case Submitting(_, _) => 8
    case _ => if w.chan == [] then 1 else 3
  }

  function LoadOfAll(workers: seq<Worker>): nat {
    if workers == [] then 0 else Load(workers[0]) + LoadOfAll(workers[1..])
  }

  function Ahead(p: Picture): nat {
    LoadOfAll(p.workers) + 4 * |p.tasks| + 5 * |p.bossChan| + if p.boss == Polling then 1 else 0
  }

  lemma {:induction false} LoadUpdate(workers: seq<Worker>, i: nat, w: Worker)
    requires i < |workers|
    ensures LoadOfAll(workers[i := w]) + Load(workers[i]) == LoadOfAll(workers) + Load(w)
  {
    hide Load;
    if i == 0 {
      assert workers[i := w][1..] == workers[1..];
    } else {
      assert workers[i := w][1..] == workers[1..][i - 1 := w];
      LoadUpdate(workers[1..], i - 1, w);
    }
  }

  lemma {:induction false} LoadAppend(workers: seq<Worker>, w: Worker)
    ensures LoadOfAll(workers + [w]) == LoadOfAll(workers) + Load(w)
  {
    hide Load;
    if workers == [] {
      assert (workers + [w])[1..] == [];
    } else {
      assert (workers + [w])[1..] == workers[1..] + [w];
      LoadAppend(workers[1..], w);
    }
  }

  lemma DispatchLoads(p: Picture, runner: Runner, pick: nat)
    requires Picks(p, pick)
    ensures LoadOfAll(Dispatched(p, runner, pick).workers) <= LoadOfAll(p.workers) + 3
  {
    if p.idle == {} {
      LoadAppend(p.workers, Worker(Starting, [runner]));
    } else {
      LoadUpdate(p.workers, pick, Worker(Waiting, [runner]));
    }
  }

  /** A step of a coroutine that submits nothing either changes nothing or leaves less ahead. */
  lemma CalmStepsLower(p: Picture, timeout: int, taskSlots: nat, step: Step)
    requires Orderly(p) && IsCalm(step)
    ensures var q := Next(p, timeout, taskSlots, step); q == p || Ahead(q) < Ahead(p)
  {
    hide LoadOfAll;
    match step {
      case BossStep(pick) =>
        if Picks(p, pick) {
          if p.boss == Polling && p.tasks != [] {
            DispatchLoads(p.(tasks := p.tasks[1..]), p.tasks[0], pick);
          } else if p.boss != Polling && p.bossChan != [] {
            DispatchLoads(p.(bossChan := p.bossChan[1..]), p.bossChan[0], pick);
          }
        }
      case WorkerStep(id, act) =>
        if id < |p.workers| {
          var w, q := p.workers[id], Next(p, timeout, taskSlots, step);
          assert WorkerOk(w, id in p.idle);
          if q.workers != p.workers {
            LoadUpdate(p.workers, id, q.workers[id]);
            assert q.workers == p.workers[id := q.workers[id]];
          }
        }
    }
  }

  lemma NextIsOrderly(p: Picture, timeout: int, taskSlots: nat, step: Step)
    requires Orderly(p)
    ensures Orderly(Next(p, timeout, taskSlots, step))
  {
    if step.WorkerStep? && step.id < |p.workers| {
      assert WorkerOk(p.workers[step.id], step.id in p.idle);
    }
  }

  /** How many of the steps change something. */
  function Moves(p: Picture, timeout: int, taskSlots: nat, steps: seq<Step>): nat
    decreases |steps|
  {
    if steps == [] then 0
    else
      var q := Next(p, timeout, taskSlots, steps[0]);
      (if q == p then 0 else 1) + Moves(q, timeout, taskSlots, steps[1..])
  }

  /** While nobody submits or offers, not more steps change something than there is ahead. */
  lemma {:induction false} CalmRunsEnd(p: Picture, timeout: int, taskSlots: nat, steps: seq<Step>)
    requires Orderly(p) && forall step <- steps :: IsCalm(step)
    ensures Moves(p, timeout, taskSlots, steps) + Ahead(After(p, timeout, taskSlots, steps)) <= Ahead(p)
    decreases |steps|
  {
    hide Ahead, Next, Orderly;
    if steps != [] {
      assert steps[0] in steps && forall step <- steps[1..] :: step in steps;
      CalmStepsLower(p, timeout, taskSlots, steps[0]);
      NextIsOrderly(p, timeout, taskSlots, steps[0]);
      CalmRunsEnd(Next(p, timeout, taskSlots, steps[0]), timeout, taskSlots, steps[1..]);
    }
  }

  /** And as long as the pool is not at rest there is such a step, so that it can come to rest. */
  lemma {:induction false} ComesToRest(p: Picture, timeout: int, taskSlots: nat) returns (steps: seq<Step>)
    requires Orderly(p)
    ensures |steps| <= Ahead(p) && (forall step <- steps :: IsCalm(step))
    ensures AtRest(After(p, timeout, taskSlots, steps))
    decreases Ahead(p)
  {
    hide Ahead, Next, Orderly, IsCalm, AtRest;
    if AtRest(p) {
      steps := [];
    } else {
      var step := Moving(p, timeout, taskSlots);
      CalmStepsLower(p, timeout, taskSlots, step);
      NextIsOrderly(p, timeout, taskSlots, step);
      var later := ComesToRest(Next(p, timeout, taskSlots, step), timeout, taskSlots);
      steps := [step] + later;
      assert steps[1..] == later;
    }
  }

  // ---------------------------------------------------------------------
  // When a task of another thread is taken up.

  /** The boss waits for its channel, in which nothing is and into which nobody is about to put anything. */
  predicate Deaf(p: Picture) {
    p.boss == Receiving && p.bossChan == [] && forall w <- p.workers :: !w.place.Submitting?
  }

  lemma DeafStays(p: Picture, timeout: int, taskSlots: nat, step: Step)
    requires Deaf(p) && !Submits(step)
    ensures var q := Next(p, timeout, taskSlots, step); Deaf(q) && p.tasks <= q.tasks
  {
  }

  /** A deaf boss takes up no task before a coroutine submits a runner, whatever else happens. */
  lemma {:induction false} DeafTakesNothing(p: Picture, timeout: int, taskSlots: nat, steps: seq<Step>)
    requires Deaf(p) && forall step <- steps :: !Submits(step)
    ensures var q := After(p, timeout, taskSlots, steps); Deaf(q) && p.tasks <= q.tasks
    decreases |steps|
  {
    hide Deaf, Next, Submits;
    if steps != [] {
      assert steps[0] in steps && forall step <- steps[1..] :: step in steps;
      DeafStays(p, timeout, taskSlots, steps[0]);
      DeafTakesNothing(Next(p, timeout, taskSlots, steps[0]), timeout, taskSlots, steps[1..]);
    }
  }

  lemma SomePick(p: Picture) returns (pick: nat)
    requires Orderly(p)
    ensures Picks(p, pick)
  {
    pick := 0;
    if p.idle != {} {
      pick :| pick in p.idle;
    }
  }

  /** A boss that polls takes up the first task. */
  lemma PollingTakes(p: Picture, timeout: int, taskSlots: nat) returns (steps: seq<Step>)
    requires Orderly(p) && p.boss == Polling && p.tasks != []
    ensures (forall step <- steps :: IsCalm(step)) && After(p, timeout, taskSlots, steps).tasks == p.tasks[1..]
  {
    var pick := SomePick(p);
    steps := [BossStep(pick)];
    assert steps[1..] == [];
    assert After(p, timeout, taskSlots, steps) == After(Bossed(p, pick), timeout, taskSlots, []);
  }

  /** One that finds a runner in its channel polls next. */
  lemma WokenTakes(p: Picture, timeout: int, taskSlots: nat) returns (steps: seq<Step>)
    requires Orderly(p) && p.boss == Receiving && p.bossChan != [] && p.tasks != []
    ensures (forall step <- steps :: IsCalm(step)) && After(p, timeout, taskSlots, steps).tasks == p.tasks[1..]
  {
    var pick := SomePick(p);
    var q := Bossed(p, pick);
    assert Next(p, timeout, taskSlots, BossStep(pick)) == q;
    NextIsOrderly(p, timeout, taskSlots, BossStep(pick));
    var later := PollingTakes(q, timeout, taskSlots);
    steps := [BossStep(pick)] + later;
    assert steps[1..] == later;
  }

  /** One that is not deaf takes up the first task in some run in which nobody submits or offers. */
  lemma ListeningTakes(p: Picture, timeout: int, taskSlots: nat) returns (steps: seq<Step>)
    requires Orderly(p) && p.tasks != [] && !Deaf(p)
    ensures (forall step <- steps :: IsCalm(step)) && After(p, timeout, taskSlots, steps).tasks == p.tasks[1..]
  {
    if p.boss == Polling {
      steps := PollingTakes(p, timeout, taskSlots);
    } else if p.bossChan != [] {
      steps := WokenTakes(p, timeout, taskSlots);
    } else {
      var w :| w in p.workers && w.place.Submitting?;
      var id :| 0 <= id < |p.workers| && p.workers[id] == w;
      var q := Resubmitted(p, id);
      assert Next(p, timeout, taskSlots, WorkerStep(id, GoOn)) == q;
      NextIsOrderly(p, timeout, taskSlots, WorkerStep(id, GoOn));
      var later := WokenTakes(q, timeout, taskSlots);
      steps := [WorkerStep(id, GoOn)] + later;
      assert steps[1..] == later;
    }
  }

  /** Some run in which no coroutine submits a runner takes up a task that is queued. */
  ghost predicate TakenUnprompted(p: Picture, timeout: int, taskSlots: nat) {
    exists steps: seq<Step> ::
      (forall step <- steps :: !Submits(step)) && !(p.tasks <= After(p, timeout, taskSlots, steps).tasks)
  }

  /** Queued tasks of other threads have to wait for a coroutine that submits exactly if the boss is deaf. */
  lemma StrandedExactlyIfDeaf(p: Picture, timeout: int, taskSlots: nat)
    requires Sound(p, taskSlots) && p.tasks != []
    ensures Deaf(p) <==> !TakenUnprompted(p, timeout, taskSlots)
  {
    hide Sound, Deaf, After;
    if Deaf(p) {
      forall steps: seq<Step> | forall step <- steps :: !Submits(step)
        ensures p.tasks <= After(p, timeout, taskSlots, steps).tasks
      {
        DeafTakesNothing(p, timeout, taskSlots, steps);
      }
    } else {
      IsOrderly(p, taskSlots);
      var steps := ListeningTakes(p, timeout, taskSlots);
      assert forall step <- steps :: !Submits(step);
      assert |p.tasks[1..]| < |p.tasks|;
    }
  }

  lemma IsOrderly(p: Picture, taskSlots: nat)
    requires Sound(p, taskSlots)
    ensures Orderly(p)
  {
  }

  /** A task that another thread offers while the boss waits stays where it is, and the pool is at rest. */
  lemma OfferedIsStranded(timeout: int, taskSlots: nat, runner: Runner)
    requires taskSlots > 0
    ensures var p := After(EMPTY, timeout, taskSlots, [BossStep(0), Offer(runner)]);
            AtRest(p) && Deaf(p) && p.tasks == [runner] && p.done == []
  {
    var steps := [BossStep(0), Offer(runner)];
    assert steps[..] == steps[0..] && steps[2..] == [];
    AfterStep(EMPTY, timeout, taskSlots, steps, 0);
    var waiting := EMPTY.(boss := Receiving);
    assert Next(EMPTY, timeout, taskSlots, steps[0]) == waiting;
    AfterStep(waiting, timeout, taskSlots, steps, 1);
  }
}
