/**
  The worker pool of the HTTP server as a step system: workers, clients that enqueue and one
  thread that shuts the pool down, interleaved in any order at the granularity of lock
  operations.  Condition-variable waits release the lock atomically and may wake up
  spuriously.
 */
module ThreadPool {
  import opened Common

  /** A job stands for the function object handed to `enqueue`. */
  type Job = nat

  /** `Ready` wants the lock, at the top of the loop or after a wake-up; `Checking` holds it
      and evaluates the wait condition; `Waiting` is in the wait set. */
  datatype Worker = Ready | Checking | Waiting | Running(job: Job) | Exited

  datatype Client = Away | Locked(job: Job) | Pushed | Notified

  datatype Closer = Open | Closing | FlagSet | Unlocked | Joining(next: nat) | Returned

  datatype Thread = WorkerThread(i: nat) | ClientThread(c: nat) | CloserThread

  /** `pushed`, `taken`, `finished` and `cut` are the history: every job ever pushed, every job
      popped, every job completed, and how many had been pushed when the flag was set. */
  datatype State = State(
    jobs: seq<Job>, shutdown: bool, holder: Option<Thread>,
    workers: seq<Worker>, clients: seq<Client>, closer: Closer,
    pushed: seq<Job>, taken: seq<Job>, finished: seq<Job>, cut: nat)

  datatype Step =
    | Acquire(i: nat) | Wait(i: nat) | Spurious(i: nat) | Take(i: nat) | Finish(i: nat) | Exit(i: nat)
    | Enqueue(c: nat, job: Job) | Push(c: nat) | NotifyOne(c: nat, woken: Option<nat>) | Unlock(c: nat)
    | Close | SetFlag | Release | NotifyAll | Join | Return

  function Init(workers: nat, clients: nat): State {
    State([], false, None, seq(workers, i => Ready), seq(clients, i => Away), Open, [], [], [], 0)
  }

  // ---- Steps ------------------------------------------------------------------------

  predicate WorkerAt(s: State, i: nat, w: Worker) { i < |s.workers| && s.workers[i] == w }

  predicate ClientAt(s: State, c: nat, w: Client) { c < |s.clients| && s.clients[c] == w }

  predicate Enabled(s: State, step: Step) {
    match step
    case Acquire(i) => WorkerAt(s, i, Ready) && s.holder == None
    case Wait(i) => WorkerAt(s, i, Checking) && s.jobs == [] && !s.shutdown
    case Spurious(i) => WorkerAt(s, i, Waiting)
    case Take(i) => WorkerAt(s, i, Checking) && s.jobs != []
    case Finish(i) => i < |s.workers| && s.workers[i].Running?
    case Exit(i) => WorkerAt(s, i, Checking) && s.shutdown && s.jobs == []
    case Enqueue(c, job) => ClientAt(s, c, Away) && s.holder == None
    case Push(c) => c < |s.clients| && s.clients[c].Locked?
    case NotifyOne(c, woken) =>
      ClientAt(s, c, Pushed) &&
      if woken.Some? then WorkerAt(s, woken.value, Waiting) else Waiting !in s.workers
    case Unlock(c) => ClientAt(s, c, Notified)
    case Close => s.closer == Open && s.holder == None
    case SetFlag => s.closer == Closing
    case Release => s.closer == FlagSet
    case NotifyAll => s.closer == Unlocked
    case Join => s.closer.Joining? && s.closer.next < |s.workers| && s.workers[s.closer.next] == Exited
    case Return => s.closer == Joining(|s.workers|)
  }

  function SetWorker(s: State, i: nat, w: Worker): State
    requires i < |s.workers|
  {
    s.(workers := s.workers[i := w])
  }

  function SetClient(s: State, c: nat, w: Client): State
    requires c < |s.clients|
  {
    s.(clients := s.clients[c := w])
  }

  /** What `notify_all` does to the wait set. */
  function Awaken(ws: seq<Worker>): (r: seq<Worker>)
    ensures |r| == |ws|
    ensures forall i :: 0 <= i < |ws| ==> r[i] == if ws[i] == Waiting then Ready else ws[i]
  {
    seq(|ws|, i requires 0 <= i < |ws| => if ws[i] == Waiting then Ready else ws[i])
  }

  function Next(s: State, step: Step): State
    requires Enabled(s, step)
  {
    match step
    case Acquire(i) => SetWorker(s, i, Checking).(holder := Some(WorkerThread(i)))
    case Wait(i) => SetWorker(s, i, Waiting).(holder := None)
    case Spurious(i) => SetWorker(s, i, Ready)
    case Take(i) =>
      SetWorker(s, i, Running(s.jobs[0])).(holder := None, jobs := s.jobs[1..], taken := s.taken + [s.jobs[0]])
    case Finish(i) => SetWorker(s, i, Ready).(finished := s.finished + [s.workers[i].job])
    case Exit(i) => SetWorker(s, i, Exited).(holder := None)
    case Enqueue(c, job) => SetClient(s, c, Locked(job)).(holder := Some(ClientThread(c)))
    case Push(c) =>
      var job := s.clients[c].job;
      SetClient(s, c, Pushed).(jobs := s.jobs + [job], pushed := s.pushed + [job])
    case NotifyOne(c, woken) =>
      var t := SetClient(s, c, Notified);
      if woken.Some? then SetWorker(t, woken.value, Ready) else t
    case Unlock(c) => SetClient(s, c, Away).(holder := None)
    case Close => s.(closer := Closing, holder := Some(CloserThread))
    case SetFlag => s.(closer := FlagSet, shutdown := true, cut := |s.pushed|)
    case Release => s.(closer := Unlocked, holder := None)
    case NotifyAll => s.(closer := Joining(0), workers := Awaken(s.workers))
    case Join => s.(closer := Joining(s.closer.next + 1))
    case Return => s.(closer := Returned)
  }

  /** `run` leads from `s` to `t`, every step being enabled. */
  ghost predicate Leads(s: State, run: seq<Step>, t: State)
    decreases |run|
  {
    if run == [] then s == t
    else Enabled(s, run[0]) && Leads(Next(s, run[0]), run[1..], t)
  }

  // ---- Counting over threads ----------------------------------------------------------

  function Sum<T>(ts: seq<T>, weight: T -> nat): (n: nat) {
    if ts == [] then 0 else weight(ts[0]) + Sum(ts[1..], weight)
  }

  lemma {:induction false} SumUpdate<T>(ts: seq<T>, weight: T -> nat, i: nat, x: T)
    requires i < |ts|
    ensures Sum(ts[i := x], weight) + weight(ts[i]) == Sum(ts, weight) + weight(x)
  {
    if i == 0 {
      assert ts[i := x][1..] == ts[1..];
    } else {
      assert ts[i := x][1..] == ts[1..][i - 1 := x];
      SumUpdate(ts[1..], weight, i - 1, x);
    }
  }

  lemma {:induction false} SumWitness<T>(ts: seq<T>, weight: T -> nat) returns (i: nat)
    requires Sum(ts, weight) > 0
    ensures i < |ts| && weight(ts[i]) > 0
  {
    if weight(ts[0]) > 0 {
      i := 0;
    } else {
      i := SumWitness(ts[1..], weight);
      i := i + 1;
    }
  }

  /** Workers that will look at the queue before they can wait: they want or hold the lock. */
  function AwakeWeight(w: Worker): nat { if w == Ready || w == Checking then 1 else 0 }

  /** Clients that have pushed a job and not yet notified. */
  function OwedWeight(c: Client): nat { if c == Pushed then 1 else 0 }

  function HeldWeight(job: Job): Worker -> nat { (w: Worker) => if w == Running(job) then 1 else 0 }

  // ---- What every step keeps ------------------------------------------------------------

  /** The lock is held by exactly the thread whose position says so. */
  ghost predicate Exclusive(s: State) {
    && (forall i :: 0 <= i < |s.workers| ==> (s.workers[i] == Checking <==> s.holder == Some(WorkerThread(i))))
    && (forall c :: 0 <= c < |s.clients| ==> (s.clients[c] != Away <==> s.holder == Some(ClientThread(c))))
    && (s.closer.Closing? || s.closer.FlagSet? <==> s.holder == Some(CloserThread))
    && (s.holder.Some? && s.holder.value.WorkerThread? ==> s.holder.value.i < |s.workers|)
    && (s.holder.Some? && s.holder.value.ClientThread? ==> s.holder.value.c < |s.clients|)
  }

  /** Every job is taken at most once and in queue order, and every taken job has been
      completed or is being run by exactly one worker. */
  ghost predicate Accounted(s: State) {
    && s.pushed == s.taken + s.jobs
    && forall job {:trigger HeldWeight(job)} ::
         multiset(s.taken)[job] == multiset(s.finished)[job] + Sum(s.workers, HeldWeight(job))
  }

  /** No wake-up is lost: while a worker waits, at least as many workers are awake, or about
      to be notified, as there are jobs. */
  ghost predicate NoneForgotten(s: State) {
    Waiting in s.workers ==> |s.jobs| <= Sum(s.workers, AwakeWeight) + Sum(s.clients, OwedWeight)
  }

  ghost predicate Flagged(s: State) {
    && (s.shutdown <==> !s.closer.Open? && !s.closer.Closing?)
    && (s.shutdown ==> s.cut <= |s.pushed|)
    && (s.closer.Joining? || s.closer.Returned? ==> Waiting !in s.workers)
    && (Exited in s.workers ==> s.shutdown && s.cut <= |s.taken|)
    && (s.closer.Joining? ==>
          s.closer.next <= |s.workers| && forall i :: 0 <= i < s.closer.next ==> s.workers[i] == Exited)
    && (s.closer.Returned? ==> forall i :: 0 <= i < |s.workers| ==> s.workers[i] == Exited)
  }

  ghost predicate Inv(s: State) { Exclusive(s) && Accounted(s) && NoneForgotten(s) && Flagged(s) }

  lemma InitInv(workers: nat, clients: nat)
    ensures Inv(Init(workers, clients))
  {
    var s := Init(workers, clients);
    forall job {:trigger HeldWeight(job)}
      ensures Sum(s.workers, HeldWeight(job)) == 0
    {
      if Sum(s.workers, HeldWeight(job)) > 0 { var i := SumWitness(s.workers, HeldWeight(job)); }
    }
  }

  predicate WorkerStep(step: Step) {
    step.Acquire? || step.Wait? || step.Spurious? || step.Take? || step.Finish? || step.Exit?
  }

  predicate ClientStep(step: Step) { step.Enqueue? || step.Push? || step.NotifyOne? || step.Unlock? }

  /** A worker moves and the lock with it: it is `Checking` afterwards exactly when it has the lock. */
  lemma WorkerExclusive(s: State, i: nat, w: Worker, holder: Option<Thread>, t: State)
    requires Exclusive(s) && i < |s.workers| && t.workers == s.workers[i := w] && t.holder == holder
    requires t.clients == s.clients && t.closer == s.closer
    requires s.holder == holder || (s.holder == None && holder == Some(WorkerThread(i)))
          || (s.holder == Some(WorkerThread(i)) && holder == None)
    requires w == Checking <==> holder == Some(WorkerThread(i))
    ensures Exclusive(t)
  {
  }

  /** A client moves, in the same way. */
  lemma ClientExclusive(s: State, c: nat, w: Client, holder: Option<Thread>, t: State)
    requires Exclusive(s) && c < |s.clients| && t.clients == s.clients[c := w] && t.holder == holder
    requires t.workers == s.workers && t.closer == s.closer
    requires s.holder == holder || (s.holder == None && holder == Some(ClientThread(c)))
          || (s.holder == Some(ClientThread(c)) && holder == None)
    requires w != Away <==> holder == Some(ClientThread(c))
    ensures Exclusive(t)
  {
  }

  lemma WorkerStepExclusive(s: State, step: Step)
    requires Exclusive(s) && Enabled(s, step) && WorkerStep(step)
    ensures Exclusive(Next(s, step))
  {
    var t := Next(s, step);
    WorkerExclusive(s, step.i, t.workers[step.i], t.holder, t);
  }

  lemma ClientStepExclusive(s: State, step: Step)
    requires Exclusive(s) && Enabled(s, step) && ClientStep(step)
    ensures Exclusive(Next(s, step))
  {
    var t := Next(s, step);
    var mid := t.(workers := s.workers);
    ClientExclusive(s, step.c, t.clients[step.c], t.holder, mid);
    if step.NotifyOne? && step.woken.Some? {
      WorkerExclusive(mid, step.woken.value, Ready, t.holder, t);
    }
  }

  lemma ExclusiveNext(s: State, step: Step)
    requires Exclusive(s) && Enabled(s, step)
    ensures Exclusive(Next(s, step))
  {
    if WorkerStep(step) {
      WorkerStepExclusive(s, step);
    } else if ClientStep(step) {
      ClientStepExclusive(s, step);
    }
  }

  /** One worker moves between positions that hold no job. */
  lemma HeldSame(s: State, i: nat, w: Worker, job: Job)
    requires i < |s.workers| && !w.Running? && !s.workers[i].Running?
    ensures Sum(s.workers[i := w], HeldWeight(job)) == Sum(s.workers, HeldWeight(job))
  {
    SumUpdate(s.workers, HeldWeight(job), i, w);
  }

  lemma {:induction false} AwakenHolds(ws: seq<Worker>, job: Job)
    ensures Sum(Awaken(ws), HeldWeight(job)) == Sum(ws, HeldWeight(job))
  {
    if ws != [] {
      assert Awaken(ws)[1..] == Awaken(ws[1..]);
      AwakenHolds(ws[1..], job);
    }
  }

  /** A step that takes and finishes nothing and leaves every job in the hands it is in. */
  lemma AccountedSame(s: State, t: State)
    requires Accounted(s) && t.taken == s.taken && t.finished == s.finished && t.pushed == t.taken + t.jobs
    requires forall job {:trigger HeldWeight(job)} :: Sum(t.workers, HeldWeight(job)) == Sum(s.workers, HeldWeight(job))
    ensures Accounted(t)
  {
  }

  lemma AccountedMove(s: State, t: State, i: nat, w: Worker)
    requires Accounted(s) && t.taken == s.taken && t.finished == s.finished && t.pushed == t.taken + t.jobs
    requires i < |s.workers| && t.workers == s.workers[i := w] && !w.Running? && !s.workers[i].Running?
    ensures Accounted(t)
  {
    forall job {:trigger HeldWeight(job)} ensures Sum(t.workers, HeldWeight(job)) == Sum(s.workers, HeldWeight(job)) {
      HeldSame(s, i, w, job);
    }
  }

  lemma AccountedTake(s: State, i: nat)
    requires Accounted(s) && Enabled(s, Take(i))
    ensures Accounted(Next(s, Take(i)))
  {
    var t := Next(s, Take(i));
    forall job {:trigger HeldWeight(job)}
      ensures multiset(t.taken)[job] == multiset(t.finished)[job] + Sum(t.workers, HeldWeight(job))
    {
      SumUpdate(s.workers, HeldWeight(job), i, Running(s.jobs[0]));
    }
  }

  lemma AccountedFinish(s: State, i: nat)
    requires Accounted(s) && Enabled(s, Finish(i))
    ensures Accounted(Next(s, Finish(i)))
  {
    var t := Next(s, Finish(i));
    forall job {:trigger HeldWeight(job)}
      ensures multiset(t.taken)[job] == multiset(t.finished)[job] + Sum(t.workers, HeldWeight(job))
    {
      SumUpdate(s.workers, HeldWeight(job), i, Ready);
    }
  }

  lemma AccountedNext(s: State, step: Step)
    requires Accounted(s) && Enabled(s, step)
    ensures Accounted(Next(s, step))
  {
    var t := Next(s, step);
    match step
    case Take(i) => AccountedTake(s, i);
    case Finish(i) => AccountedFinish(s, i);
    case Acquire(i) => AccountedMove(s, t, i, Checking);
    case Wait(i) => AccountedMove(s, t, i, Waiting);
    case Spurious(i) => AccountedMove(s, t, i, Ready);
    case Exit(i) => AccountedMove(s, t, i, Exited);
    case Push(c) =>
      Regroup(s.taken, s.jobs, [s.clients[c].job]);
      AccountedSame(s, t);
    case NotifyOne(c, woken) =>
      if woken.Some? { AccountedMove(s, t, woken.value, Ready); } else { AccountedSame(s, t); }
    case NotifyAll =>
      forall job {:trigger HeldWeight(job)} ensures Sum(t.workers, HeldWeight(job)) == Sum(s.workers, HeldWeight(job)) {
        AwakenHolds(s.workers, job);
      }
      AccountedSame(s, t);
    case _ => AccountedSame(s, t);
  }

  lemma WorkerNoneForgotten(s: State, step: Step)
    requires NoneForgotten(s) && Flagged(s) && Enabled(s, step) && WorkerStep(step)
    ensures NoneForgotten(Next(s, step))
  {
    match step
    case Acquire(i) => SumUpdate(s.workers, AwakeWeight, i, Checking);
    case Spurious(i) => SumUpdate(s.workers, AwakeWeight, i, Ready);
    case Take(i) => SumUpdate(s.workers, AwakeWeight, i, Running(s.jobs[0]));
    case Finish(i) => SumUpdate(s.workers, AwakeWeight, i, Ready);
    case _ =>
  }

  lemma ClientNoneForgotten(s: State, step: Step)
    requires NoneForgotten(s) && Enabled(s, step) && ClientStep(step)
    ensures NoneForgotten(Next(s, step))
  {
    match step
    case Enqueue(c, job) => SumUpdate(s.clients, OwedWeight, c, Locked(job));
    case Push(c) => SumUpdate(s.clients, OwedWeight, c, Pushed);
    case NotifyOne(c, woken) =>
      SumUpdate(s.clients, OwedWeight, c, Notified);
      if woken.Some? { SumUpdate(s.workers, AwakeWeight, woken.value, Ready); }
    case Unlock(c) => SumUpdate(s.clients, OwedWeight, c, Away);
  }

  lemma NoneForgottenNext(s: State, step: Step)
    requires Exclusive(s) && NoneForgotten(s) && Flagged(s) && Enabled(s, step)
    ensures NoneForgotten(Next(s, step))
  {
    if WorkerStep(step) {
      WorkerNoneForgotten(s, step);
    } else if ClientStep(step) {
      ClientNoneForgotten(s, step);
    } else if step.NotifyAll? {
      assert Waiting !in Awaken(s.workers);
    }
  }

  /** One worker moves to a position that the flag allows. */
  lemma FlaggedMove(s: State, t: State, i: nat, w: Worker)
    requires Flagged(s) && i < |s.workers| && s.workers[i] != Exited && t.workers == s.workers[i := w]
    requires t.closer == s.closer && t.shutdown == s.shutdown && t.cut == s.cut
    requires |s.pushed| <= |t.pushed| && |s.taken| <= |t.taken|
    requires w == Waiting ==> !s.closer.Joining? && !s.closer.Returned?
    requires w == Exited ==> s.shutdown && s.cut <= |t.taken|
    ensures Flagged(t)
  {
    assert Exited in t.workers ==> w == Exited || Exited in s.workers;
  }

  lemma FlaggedClient(s: State, t: State)
    requires Flagged(s) && t.workers == s.workers && t.closer == s.closer && t.shutdown == s.shutdown && t.cut == s.cut
    requires |s.pushed| <= |t.pushed| && t.taken == s.taken
    ensures Flagged(t)
  {
  }

  lemma FlaggedCloser(s: State, step: Step)
    requires Accounted(s) && Flagged(s) && Enabled(s, step) && !WorkerStep(step) && !ClientStep(step)
    ensures Flagged(Next(s, step))
  {
    if step.NotifyAll? {
      assert Waiting !in Awaken(s.workers);
      assert Exited in Awaken(s.workers) ==> Exited in s.workers;
    }
  }

  lemma FlaggedNext(s: State, step: Step)
    requires Accounted(s) && Flagged(s) && Enabled(s, step)
    ensures Flagged(Next(s, step))
  {
    var t := Next(s, step);
    if WorkerStep(step) {
      FlaggedMove(s, t, step.i, t.workers[step.i]);
    } else if step.NotifyOne? && step.woken.Some? {
      FlaggedMove(s, t, step.woken.value, Ready);
    } else if ClientStep(step) {
      FlaggedClient(s, t);
    } else {
      FlaggedCloser(s, step);
    }
  }

  lemma InvNext(s: State, step: Step)
    requires Inv(s) && Enabled(s, step)
    ensures Inv(Next(s, step))
  {
    ExclusiveNext(s, step);
    AccountedNext(s, step);
    NoneForgottenNext(s, step);
    FlaggedNext(s, step);
  }

  lemma {:induction false} InvAlways(s: State, run: seq<Step>, t: State)
    requires Inv(s) && Leads(s, run, t)
    ensures Inv(t) && |t.workers| == |s.workers|
    decreases |run|
  {
    if run != [] {
      InvNext(s, run[0]);
      InvAlways(Next(s, run[0]), run[1..], t);
    }
  }

  // ---- Draining -----------------------------------------------------------------------

  lemma {:induction false} NobodyHolds(ws: seq<Worker>, job: Job)
    requires forall i :: 0 <= i < |ws| ==> !ws[i].Running?
    ensures Sum(ws, HeldWeight(job)) == 0
  {
    if ws != [] { NobodyHolds(ws[1..], job); }
  }

  /** In every run of a pool with at least one worker: once `shutdown` has returned, the jobs
      pushed before the flag was set have all been taken, each once and in queue order, and
      every job taken has run to completion. */
  lemma ShutdownDrains(workers: nat, clients: nat, run: seq<Step>, t: State)
    requires workers > 0 && Leads(Init(workers, clients), run, t) && t.closer.Returned?
    ensures t.cut <= |t.taken| && t.taken <= t.pushed
    ensures multiset(t.finished) == multiset(t.taken)
    ensures |t.pushed| == t.cut ==> t.jobs == [] && t.taken == t.pushed
    ensures |t.workers| == workers && forall i :: 0 <= i < workers ==> t.workers[i] == Exited
  {
    InitInv(workers, clients);
    InvAlways(Init(workers, clients), run, t);
    assert t.workers[0] == Exited;
    AllFinished(t);
  }

  /** `cut` is the number of jobs pushed before the flag is set, and nothing changes it later. */
  lemma {:induction false} CutIsFixed(s: State, run: seq<Step>, t: State)
    requires Inv(s) && Leads(s, run, t) && s.shutdown
    ensures t.shutdown && t.cut == s.cut && s.pushed[..s.cut] <= t.pushed
    decreases |run|
  {
    if run != [] {
      InvNext(s, run[0]);
      CutIsFixed(Next(s, run[0]), run[1..], t);
    }
  }

  lemma {:induction false} OneMore(s: State, run: seq<Step>, t: State, step: Step, u: State)
    requires Leads(s, run, t) && Enabled(t, step) && u == Next(t, step)
    ensures Leads(s, run + [step], u)
    decreases |run|
  {
    if run != [] {
      OneMore(Next(s, run[0]), run[1..], t, step, u);
      assert (run + [step])[1..] == run[1..] + [step];
    }
  }

  const FORGOTTEN: seq<Step> :=
    [Enqueue(0, 7), Push(0), NotifyOne(0, None), Unlock(0), Close, SetFlag, Release, NotifyAll, Return]

  /** The state of that run after `n` steps. */
  function ForgottenAfter(n: nat): State {
    State(if n < 2 then [] else [7], n >= 6,
          if n == 0 || n == 4 || n >= 7 then None else if n < 4 then Some(ClientThread(0)) else Some(CloserThread),
          [], [[Away, Locked(7), Pushed, Notified, Away][if n < 4 then n else 4]],
          if n < 5 then Open else [Closing, FlagSet, Unlocked, Joining(0), Returned][if n < 9 then n - 5 else 4],
          if n < 2 then [] else [7], [], [], if n < 6 then 0 else 1)
  }

  lemma ForgottenStarts()
    ensures ForgottenAfter(0) == Init(0, 1)
  {
    assert Init(0, 1).workers == [] && Init(0, 1).clients == [Away];
  }

  lemma ForgottenStep(n: nat)
    requires n < |FORGOTTEN|
    ensures Enabled(ForgottenAfter(n), FORGOTTEN[n]) && Next(ForgottenAfter(n), FORGOTTEN[n]) == ForgottenAfter(n + 1)
  {
  }

  /** Without workers: one job pushed, `shutdown` returned, the job still in the queue. */
  lemma ForgottenJob() returns (run: seq<Step>, t: State)
    ensures Leads(Init(0, 1), run, t) && t.closer.Returned? && t.cut == 1 && t.taken == []
  {
    run, t := [], Init(0, 1);
    ForgottenStarts();
    for n := 0 to |FORGOTTEN|
      invariant Leads(ForgottenAfter(0), run, t) && t == ForgottenAfter(n)
    {
      ForgottenStep(n);
      OneMore(ForgottenAfter(0), run, t, FORGOTTEN[n], ForgottenAfter(n + 1));
      run, t := run + [FORGOTTEN[n]], ForgottenAfter(n + 1);
    }
  }

  /** A run after which `shutdown` has returned and left a job from before the flag untaken. */
  ghost predicate Forgets(workers: nat, clients: nat, run: seq<Step>, t: State) {
    Leads(Init(workers, clients), run, t) && t.closer.Returned? && |t.taken| < t.cut
  }

  /** For the jobs pushed before the flag the number of workers is what decides: a pool without
      workers returns from `shutdown` with such jobs still in the queue. */
  lemma DrainsExactlyWhen(workers: nat)
    ensures workers > 0 <==> forall clients, run, t :: !Forgets(workers, clients, run, t)
  {
    if workers > 0 {
      forall clients: nat, run, t | Forgets(workers, clients, run, t)
        ensures false
      {
        ShutdownDrains(workers, clients, run, t);
      }
    } else {
      var run, t := ForgottenJob();
      assert Forgets(workers, 1, run, t);
    }
  }

  // ---- Jobs pushed after the flag ---------------------------------------------------------

  predicate HasExit(run: seq<Step>) { exists k :: 0 <= k < |run| && run[k].Exit? }

  /** The steps after the last worker has exited, or all of them if none does. */
  function Late(run: seq<Step>): seq<Step> { if HasExit(run) then Late(run[1..]) else run }

  function Pushes(run: seq<Step>): nat {
    if run == [] then 0 else (if run[0].Push? then 1 else 0) + Pushes(run[1..])
  }

  ghost predicate AllExited(s: State) { forall i :: 0 <= i < |s.workers| ==> s.workers[i] == Exited }

  /** Only `Exit` makes a worker exit. */
  lemma ExitedBefore(s: State, step: Step)
    requires Enabled(s, step) && !step.Exit? && AllExited(Next(s, step))
    ensures AllExited(s)
  {
    var t := Next(s, step);
    assert |t.workers| == |s.workers|;
    forall i | 0 <= i < |s.workers| ensures s.workers[i] == Exited {
      assert t.workers[i] == Exited;
    }
  }

  /** With all workers gone the queue only grows. */
  lemma OnlyPushes(s: State, step: Step)
    requires Enabled(s, step) && AllExited(s)
    ensures |Next(s, step).jobs| == |s.jobs| + if step.Push? then 1 else 0
  {
  }

  lemma {:induction false} LateJobs(s: State, run: seq<Step>, t: State)
    requires Leads(s, run, t) && AllExited(t)
    ensures HasExit(run) ==> |t.jobs| == Pushes(Late(run))
    ensures !HasExit(run) ==> AllExited(s) && |t.jobs| == |s.jobs| + Pushes(run)
    decreases |run|
  {
    if run != [] {
      var rest := run[1..];
      LateJobs(Next(s, run[0]), rest, t);
      assert forall k :: 0 <= k < |rest| ==> rest[k] == run[k + 1];
      if HasExit(rest) {
        var k :| 0 <= k < |rest| && rest[k].Exit?;
        assert run[k + 1].Exit?;
      } else if !run[0].Exit? {
        ExitedBefore(s, run[0]);
        OnlyPushes(s, run[0]);
      }
    }
  }

  /** In every run of every pool: once `shutdown` has returned, the jobs left in the queue are
      exactly the last ones pushed, as many as were pushed after the last worker had exited. */
  lemma LeftInQueue(workers: nat, clients: nat, run: seq<Step>, t: State)
    requires Leads(Init(workers, clients), run, t) && t.closer.Returned?
    ensures t.pushed == t.taken + t.jobs && |t.jobs| == Pushes(Late(run))
    ensures multiset(t.finished) == multiset(t.taken)
  {
    InitInv(workers, clients);
    InvAlways(Init(workers, clients), run, t);
    LateJobs(Init(workers, clients), run, t);
    AllFinished(t);
  }

  /** Once nobody runs a job, what was taken has finished. */
  lemma AllFinished(t: State)
    requires Accounted(t) && AllExited(t)
    ensures multiset(t.finished) == multiset(t.taken)
  {
    forall job: Job
      ensures multiset(t.finished)[job] == multiset(t.taken)[job]
    {
      NobodyHolds(t.workers, job);
      assert HeldWeight(job)(Exited) == 0;
    }
  }

  /** All jobs ever pushed are done when `shutdown` returns if and only if none was pushed after
      the last worker had exited. */
  lemma AllDoneExactlyWhen(workers: nat, clients: nat, run: seq<Step>, t: State)
    requires Leads(Init(workers, clients), run, t) && t.closer.Returned?
    ensures multiset(t.finished) == multiset(t.pushed) <==> Pushes(Late(run)) == 0
  {
    LeftInQueue(workers, clients, run, t);
    assert |multiset(t.pushed)| == |t.taken| + |t.jobs| && |multiset(t.taken)| == |t.taken|;
    if t.jobs == [] { assert t.taken + t.jobs == t.taken; }
  }

  const BELATED: seq<Step> :=
    [Close, SetFlag, Release, NotifyAll, Acquire(0), Exit(0),
     Enqueue(0, 7), Push(0), NotifyOne(0, None), Unlock(0), Join, Return]

  /** The state of that run after `n` steps. */
  function BelatedAfter(n: nat): State {
    State(if n < 8 then [] else [7], n >= 2,
          if n == 1 || n == 2 then Some(CloserThread)
          else if n == 5 then Some(WorkerThread(0))
          else if 7 <= n < 10 then Some(ClientThread(0)) else None,
          [if n < 5 then Ready else if n == 5 then Checking else Exited],
          [if 7 <= n < 10 then [Locked(7), Pushed, Notified][n - 7] else Away],
          if n < 4 then [Open, Closing, FlagSet, Unlocked][n]
          else if n < 11 then Joining(0) else if n == 11 then Joining(1) else Returned,
          if n < 8 then [] else [7], [], [], 0)
  }

  lemma BelatedStarts()
    ensures BelatedAfter(0) == Init(1, 1)
  {
    assert Init(1, 1).workers == [Ready] && Init(1, 1).clients == [Away];
  }

  lemma BelatedStep(n: nat)
    requires n < |BELATED|
    ensures Enabled(BelatedAfter(n), BELATED[n]) && Next(BelatedAfter(n), BELATED[n]) == BelatedAfter(n + 1)
  {
  }

  /** One worker, and a client that comes after it has exited: `shutdown` returns, the job stays. */
  lemma BelatedJob() returns (run: seq<Step>, t: State)
    ensures Leads(Init(1, 1), run, t) && t.closer.Returned? && t.jobs == [7] && t.taken == []
  {
    run, t := [], Init(1, 1);
    BelatedStarts();
    for n := 0 to |BELATED|
      invariant Leads(BelatedAfter(0), run, t) && t == BelatedAfter(n)
    {
      BelatedStep(n);
      OneMore(BelatedAfter(0), run, t, BELATED[n], BelatedAfter(n + 1));
      run, t := run + [BELATED[n]], BelatedAfter(n + 1);
    }
  }

  // ---- No deadlock ----------------------------------------------------------------------

  /** A step of the pool itself: not a new request from outside, not a spurious wake-up. */
  predicate Internal(step: Step) { !step.Enqueue? && !step.Close? && !step.Spurious? }

  /** Whoever holds the lock can go on, whatever the state. */
  lemma HolderMoves(s: State) returns (step: Step)
    requires Inv(s) && s.holder.Some?
    ensures Enabled(s, step) && Internal(step)
  {
    match s.holder.value {
      case WorkerThread(i) =>
        step := if s.jobs != [] then Take(i) else if s.shutdown then Exit(i) else Wait(i);
      case ClientThread(c) =>
        if s.clients[c].Locked? {
          step := Push(c);
        } else if s.clients[c].Notified? {
          step := Unlock(c);
        } else if Waiting in s.workers {
          var i :| 0 <= i < |s.workers| && s.workers[i] == Waiting;
          step := NotifyOne(c, Some(i));
        } else {
          step := NotifyOne(c, None);
        }
      case CloserThread =>
        step := if s.closer.Closing? then SetFlag else Release;
    }
  }

  lemma WorkerMoves(s: State, i: nat) returns (step: Step)
    requires Inv(s) && s.holder.None? && i < |s.workers|
    requires s.workers[i] == Ready || s.workers[i].Running?
    ensures Enabled(s, step) && Internal(step)
  {
    step := if s.workers[i] == Ready then Acquire(i) else Finish(i);
  }

  /** Once the flag is set, some thread of the pool can move until `shutdown` has returned. */
  lemma NeverStuck(s: State) returns (step: Step)
    requires Inv(s) && s.shutdown && !s.closer.Returned?
    ensures Enabled(s, step) && Internal(step)
  {
    if s.holder.Some? {
      step := HolderMoves(s);
    } else if s.closer.Unlocked? {
      step := NotifyAll;
    } else if s.closer.next == |s.workers| {
      step := Return;
    } else if s.workers[s.closer.next] == Exited {
      step := Join;
    } else {
      step := WorkerMoves(s, s.closer.next);
    }
  }

  /** Before that, with jobs in the queue, some thread of the pool can move: the wake-up for a
      job is never lost. */
  lemma JobsAreServed(s: State) returns (step: Step)
    requires Inv(s) && !s.shutdown && s.jobs != [] && |s.workers| > 0
    ensures Enabled(s, step) && Internal(step)
  {
    if s.holder.Some? {
      step := HolderMoves(s);
    } else if s.workers[0] == Waiting {
      if Sum(s.clients, OwedWeight) > 0 {
        var c := SumWitness(s.clients, OwedWeight);
        assert false;
      }
      var i := SumWitness(s.workers, AwakeWeight);
      step := WorkerMoves(s, i);
    } else {
      step := WorkerMoves(s, 0);
    }
  }

  // ---- Every job finishes ----------------------------------------------------------------

  function WorkerEffort(w: Worker): nat {
    match w
    case Exited => 0
    case Waiting => 0
    case Checking => 1
    case Ready => 2
    case Running(_) => 3
  }

  function ClientEffort(c: Client): nat {
    match c
    case Away => 0
    case Notified => 1
    case Pushed => 4
    case Locked(_) => 8
  }

  /** Work left before the flag is set: until every job has run and every worker waits. */
  function Effort(s: State): nat { 3 * |s.jobs| + Sum(s.workers, WorkerEffort) + Sum(s.clients, ClientEffort) }

  lemma WorkerEffortDrops(s: State, step: Step)
    requires Enabled(s, step) && WorkerStep(step) && !step.Exit?
    ensures Effort(Next(s, step)) <= if step.Spurious? then Effort(s) + 2 else Effort(s) - 1
  {
    match step
    case Acquire(i) => SumUpdate(s.workers, WorkerEffort, i, Checking);
    case Wait(i) => SumUpdate(s.workers, WorkerEffort, i, Waiting);
    case Spurious(i) => SumUpdate(s.workers, WorkerEffort, i, Ready);
    case Take(i) => SumUpdate(s.workers, WorkerEffort, i, Running(s.jobs[0]));
    case Finish(i) => SumUpdate(s.workers, WorkerEffort, i, Ready);
  }

  lemma ClientEffortDrops(s: State, step: Step)
    requires Enabled(s, step) && ClientStep(step)
    ensures Effort(Next(s, step)) <= if step.Enqueue? then Effort(s) + 8 else Effort(s) - 1
  {
    match step
    case Enqueue(c, job) => SumUpdate(s.clients, ClientEffort, c, Locked(job));
    case Push(c) => SumUpdate(s.clients, ClientEffort, c, Pushed);
    case NotifyOne(c, woken) =>
      SumUpdate(s.clients, ClientEffort, c, Notified);
      if woken.Some? { SumUpdate(s.workers, WorkerEffort, woken.value, Ready); }
    case Unlock(c) => SumUpdate(s.clients, ClientEffort, c, Away);
  }

  /** Steps that do not come from the pool: requests, spurious wake-ups and the call of `shutdown`. */
  function Outside(run: seq<Step>): (n: nat) {
    if run == [] then 0 else (if Internal(run[0]) then 0 else 1) + Outside(run[1..])
  }

  lemma {:induction false} FlagStays(s: State, run: seq<Step>, t: State)
    requires Leads(s, run, t) && s.shutdown
    ensures t.shutdown
    decreases |run|
  {
    if run != [] { FlagStays(Next(s, run[0]), run[1..], t); }
  }

  /** Before the flag, under every schedule: the pool makes a bounded number of steps of its own
      until it comes to rest, at most the effort and nine for each step from outside. */
  lemma {:induction false} WorkIsBounded(s: State, run: seq<Step>, t: State)
    requires Flagged(s) && Accounted(s) && Leads(s, run, t) && !t.shutdown
    ensures |run| + Effort(t) <= Effort(s) + 9 * Outside(run)
    decreases |run|
  {
    if run != [] {
      var step, next := run[0], Next(s, run[0]);
      if next.shutdown { FlagStays(next, run[1..], t); }
      FlaggedNext(s, step);
      AccountedNext(s, step);
      WorkIsBounded(next, run[1..], t);
      if WorkerStep(step) {
        WorkerEffortDrops(s, step);
      } else if ClientStep(step) {
        ClientEffortDrops(s, step);
      }
    }
  }

  /** And where it comes to rest, every job ever pushed has been taken, in queue order, and has run,
      and every worker waits. */
  lemma RestMeansDone(workers: nat, clients: nat, run: seq<Step>, t: State)
    requires workers > 0 && Leads(Init(workers, clients), run, t) && !t.shutdown
    requires forall step :: Enabled(t, step) ==> !Internal(step)
    ensures t.jobs == [] && t.taken == t.pushed && multiset(t.finished) == multiset(t.pushed)
    ensures |t.workers| == workers && forall i :: 0 <= i < workers ==> t.workers[i] == Waiting
  {
    InitInv(workers, clients);
    InvAlways(Init(workers, clients), run, t);
    if t.jobs != [] { var step := JobsAreServed(t); }
    if t.holder.Some? { var step := HolderMoves(t); }
    forall i | 0 <= i < workers ensures t.workers[i] == Waiting {
      if t.workers[i] == Ready || t.workers[i].Running? { var step := WorkerMoves(t, i); }
    }
    forall job: Job ensures multiset(t.finished)[job] == multiset(t.taken)[job] {
      NobodyHolds(t.workers, job);
      assert HeldWeight(job)(Waiting) == 0;
    }
  }

  // ---- Termination of a shutdown ---------------------------------------------------------

  function WorkerRank(w: Worker): nat {
    match w
    case Exited => 0
    case Checking => 1
    case Ready => 2
    case Waiting => 3
    case Running(_) => 3
  }

  function ClientRank(c: Client): nat {
    match c
    case Away => 0
    case Notified => 1
    case Pushed => 2
    case Locked(_) => 6
  }

  function CloserRank(s: State): int {
    match s.closer
    case Returned => 0
    case Joining(k) => 1 + |s.workers| - k
    case Unlocked => 2 + |s.workers|
    case _ => 3 + |s.workers|
  }

  /** Work left until `shutdown` returns. */
  function Rank(s: State): int {
    3 * |s.jobs| + Sum(s.workers, WorkerRank) + Sum(s.clients, ClientRank) + CloserRank(s)
  }

  lemma {:induction false} AwakenRanks(ws: seq<Worker>)
    ensures Sum(Awaken(ws), WorkerRank) <= Sum(ws, WorkerRank)
  {
    if ws != [] {
      assert Awaken(ws)[1..] == Awaken(ws[1..]);
      AwakenRanks(ws[1..]);
    }
  }

  lemma WorkerRankDrops(s: State, step: Step)
    requires s.shutdown && Enabled(s, step) && WorkerStep(step)
    ensures Rank(Next(s, step)) <= Rank(s) - 1
  {
    match step {
      case Acquire(i) => SumUpdate(s.workers, WorkerRank, i, Checking);
      case Spurious(i) => SumUpdate(s.workers, WorkerRank, i, Ready);
      case Take(i) => SumUpdate(s.workers, WorkerRank, i, Running(s.jobs[0]));
      case Finish(i) => SumUpdate(s.workers, WorkerRank, i, Ready);
      case Exit(i) => SumUpdate(s.workers, WorkerRank, i, Exited);
      case _ =>
    }
  }

  lemma ClientRankDrops(s: State, step: Step)
    requires s.shutdown && Enabled(s, step) && ClientStep(step)
    ensures Rank(Next(s, step)) <= if step.Enqueue? then Rank(s) + 6 else Rank(s) - 1
  {
    match step {
      case Enqueue(c, job) => SumUpdate(s.clients, ClientRank, c, Locked(job));
      case Push(c) => SumUpdate(s.clients, ClientRank, c, Pushed);
      case NotifyOne(c, woken) =>
        SumUpdate(s.clients, ClientRank, c, Notified);
        if woken.Some? { SumUpdate(s.workers, WorkerRank, woken.value, Ready); }
      case Unlock(c) => SumUpdate(s.clients, ClientRank, c, Away);
      case _ =>
    }
  }

  /** After the flag is set every step lowers the rank, except a new request, which raises it by 6. */
  lemma RankDrops(s: State, step: Step)
    requires Flagged(s) && s.shutdown && Enabled(s, step)
    ensures Rank(Next(s, step)) <= if step.Enqueue? then Rank(s) + 6 else Rank(s) - 1
  {
    if WorkerStep(step) {
      WorkerRankDrops(s, step);
    } else if ClientStep(step) {
      ClientRankDrops(s, step);
    } else if step.NotifyAll? {
      AwakenRanks(s.workers);
    }
  }

  function Requests(run: seq<Step>): (n: nat) {
    if run == [] then 0 else (if run[0].Enqueue? then 1 else 0) + Requests(run[1..])
  }

  /** Under every schedule, fair or not, a shutdown takes a bounded number of steps: at most
      the rank when the flag was set, plus seven for each later request. */
  lemma {:induction false} ShutdownIsBounded(s: State, run: seq<Step>, t: State)
    requires Inv(s) && s.shutdown && Leads(s, run, t)
    ensures |run| + Rank(t) <= Rank(s) + 7 * Requests(run)
    ensures Rank(t) >= 0
    decreases |run|
  {
    if run != [] {
      InvNext(s, run[0]);
      RankDrops(s, run[0]);
      ShutdownIsBounded(Next(s, run[0]), run[1..], t);
    } else {
      RankIsNatural(s);
    }
  }

  lemma RankIsNatural(s: State)
    requires Flagged(s)
    ensures Rank(s) >= 0
  {
  }

  /** A run that cannot go on without new requests has returned from `shutdown`, with nothing
      left to run for the jobs counted at the flag. */
  lemma MaximalRunReturns(workers: nat, clients: nat, run: seq<Step>, t: State)
    requires workers > 0 && Leads(Init(workers, clients), run, t) && t.shutdown
    requires forall step :: Enabled(t, step) ==> !Internal(step)
    ensures t.closer.Returned? && t.cut <= |t.taken| && multiset(t.finished) == multiset(t.taken)
  {
    InitInv(workers, clients);
    InvAlways(Init(workers, clients), run, t);
    if !t.closer.Returned? {
      var step := NeverStuck(t);
    }
    ShutdownDrains(workers, clients, run, t);
  }
}
