/**
 Compressing one stream in parallel: a caller dispatches jobs, workers compress them in any order, a flusher
 writes them in dispatch order. The goroutines, channels and the condition variable are the steps of a state machine.
 */
module Jobs {
  import opened Bits
  import opened Results

  /** A stretch of the input, with the end of the stretch before it as context. */
  datatype Job = Job(prefix: seq<Byte>, input: seq<Byte>, last: bool)

  /**
   What the steps depend on: workers, overlap, the compressor, and the writer behind the flusher: how many bytes of a job it
   takes, and whether it returns an error though it takes them all.
   */
  datatype Env = Env(workers: nat, overlap: nat, work: Job -> Result<seq<Byte>>, accepts: nat -> nat, complains: nat -> bool)

  /** Where the calling goroutine is. */
  datatype Main = Idle | SendResult | SendJob | Waiting | JoinWorkers | JoinFlusher | ShutDown
  datatype Worker = Free | Working(j: nat) | Left
  datatype Flusher = Receiving | AwaitDone(j: nat) | Draining | Exited

  datatype State = State(
    main: Main,
    input: seq<Byte>,          // everything the caller wrote
    filling: seq<Byte>,        // the part not dispatched yet
    nextPrefix: seq<Byte>,
    jobs: seq<Job>,            // every job dispatched, in order
    resultCh: seq<nat>,
    jobCh: seq<nat>,
    jobsClosed: bool,
    resultsClosed: bool,
    workers: seq<Worker>,
    done: set<nat>,
    flusher: Flusher,
    flushed: nat,
    failed: bool,
    written: seq<Byte>)

  datatype Action =
    | Write(p: seq<Byte>) | Dispatch(final: bool) | WaitAll | Shutdown
    | PutResult | PutJob | WaitReturns | WorkersJoined | FlusherJoined
    | Take(w: nat) | Finish(w: nat) | Leave(w: nat)
    | Receive | Flush | Drain | Exit

  /** The calls of the user; every other step is one the machine takes by itself. */
  predicate IsCall(a: Action) { a.Write? || a.Dispatch? || a.WaitAll? || a.Shutdown? }

  predicate ByCaller(a: Action) { IsCall(a) || a.PutResult? || a.PutJob? || a.WaitReturns? || a.WorkersJoined? || a.FlusherJoined? }

  predicate EnvOk(env: Env) { env.workers >= 1 }

  /** The flusher stops at a job whose compression failed or whose output the writer refused. */
  predicate Fails(env: Env, j: nat, job: Job)
  {
    match env.work(job)
    case Err(_) => true
    case Ok(out) => out != [] && (env.accepts(j) < |out| || env.complains(j))
  }

  function Output(env: Env, job: Job): seq<Byte>
  {
    match env.work(job)
    case Err(_) => []
    case Ok(out) => out
  }

  /** What the writer takes of a job that fails. */
  function Part(env: Env, j: nat, job: Job): seq<Byte>
  {
    match env.work(job)
    case Err(_) => []
    case Ok(out) => if env.accepts(j) < |out| then out[..env.accepts(j)] else out
  }

  function Start(env: Env, header: seq<Byte>): State
  {
    State(Idle, [], [], [], [], [], [], false, false, seq(env.workers, _ => Free), {}, Receiving, 0, false, header)
  }

  predicate Enabled(env: Env, s: State, a: Action)
  {
    match a
    case Write(_) => s.main == Idle
    case Dispatch(_) => s.main == Idle && !s.failed
    case WaitAll => s.main == Idle
    case Shutdown => s.main == Idle
    case PutResult => s.main == SendResult && |s.resultCh| < env.workers && |s.jobs| >= 1
    case PutJob => s.main == SendJob && |s.jobCh| < env.workers && |s.jobs| >= 1
    case WaitReturns => s.main == Waiting && (s.flushed >= |s.jobs| || s.failed)
    case WorkersJoined => s.main == JoinWorkers && forall w :: 0 <= w < |s.workers| ==> s.workers[w] == Left
    case FlusherJoined => s.main == JoinFlusher && s.flusher == Exited
    case Take(w) => w < |s.workers| && s.workers[w] == Free && s.jobCh != []
    case Finish(w) => w < |s.workers| && s.workers[w].Working?
    case Leave(w) => w < |s.workers| && s.workers[w] == Free && s.jobCh == [] && s.jobsClosed
    case Receive => s.flusher == Receiving && s.resultCh != []
    case Flush => s.flusher.AwaitDone? && s.flusher.j in s.done && s.flusher.j < |s.jobs|
    case Drain => s.flusher == Draining && s.resultCh != []
    case Exit => (s.flusher == Receiving || s.flusher == Draining) && s.resultCh == [] && s.resultsClosed
  }

  function Step(env: Env, s: State, a: Action): State
    requires Enabled(env, s, a)
  {
    match a
    case Write(p) => s.(input := s.input + p, filling := s.filling + p)
    case Dispatch(final) =>
      var overlap := if env.overlap < |s.filling| then env.overlap else |s.filling|;
      if !final && s.filling == [] then s
      else s.(main := SendResult, jobs := s.jobs + [Job(s.nextPrefix, s.filling, final)],
         nextPrefix := if final then [] else s.filling[|s.filling| - overlap..], filling := [])
    case WaitAll => s.(main := Waiting)
    case Shutdown => s.(main := JoinWorkers, jobsClosed := true)
    case PutResult => s.(main := SendJob, resultCh := s.resultCh + [|s.jobs| - 1])
    case PutJob => s.(main := Idle, jobCh := s.jobCh + [|s.jobs| - 1])
    case WaitReturns => s.(main := Idle)
    case WorkersJoined => s.(main := JoinFlusher, resultsClosed := true)
    case FlusherJoined => s.(main := ShutDown)
    case Take(w) => s.(workers := s.workers[w := Working(s.jobCh[0])], jobCh := s.jobCh[1..])
    case Finish(w) => s.(workers := s.workers[w := Free], done := s.done + {s.workers[w].j})
    case Leave(w) => s.(workers := s.workers[w := Left])
    case Receive => s.(flusher := AwaitDone(s.resultCh[0]), resultCh := s.resultCh[1..])
    case Flush =>
      var j := s.flusher.j;
      if Fails(env, j, s.jobs[j]) then s.(flusher := Draining, failed := true, written := s.written + Part(env, j, s.jobs[j]))
      else s.(flusher := Receiving, flushed := s.flushed + 1, written := s.written + Output(env, s.jobs[j]))
    case Drain => s.(resultCh := s.resultCh[1..])
    case Exit => s.(flusher := Exited)
  }

  // ----- what every reachable state keeps -----

  /** The numbers from a up to but not including b. */
  function Range(a: nat, b: nat): (s: seq<nat>)
    ensures |s| == (if a <= b then b - a else 0) && forall k :: 0 <= k < |s| ==> s[k] == a + k
  {
    if a <= b then seq(b - a, k requires k >= 0 => a + k) else []
  }

  function Outputs(env: Env, jobs: seq<Job>): seq<Byte>
  {
    if jobs == [] then [] else Outputs(env, jobs[..|jobs| - 1]) + Output(env, jobs[|jobs| - 1])
  }

  function Inputs(jobs: seq<Job>): seq<Byte>
  {
    if jobs == [] then [] else Inputs(jobs[..|jobs| - 1]) + jobs[|jobs| - 1].input
  }

  /** How many jobs went into the channel of results. */
  function Announced(s: State): int { if s.main == SendResult then |s.jobs| - 1 else |s.jobs| }

  /** How many jobs went into the channel of jobs. */
  function Handed(s: State): int { if s.main == SendResult || s.main == SendJob then |s.jobs| - 1 else |s.jobs| }

  /** How many jobs the workers took. */
  function Taken(s: State): int { Handed(s) - |s.jobCh| }

  /** How many jobs the flusher received. */
  function Received(s: State): int { Announced(s) - |s.resultCh| }

  predicate Held(s: State, j: nat) { exists w :: 0 <= w < |s.workers| && s.workers[w] == Working(j) }

  /** Both channels carry the jobs in dispatch order. */
  predicate ChannelsOk(env: Env, s: State)
  {
    && (s.main == SendResult || s.main == SendJob ==> |s.jobs| >= 1)
    && 0 <= Taken(s) && 0 <= Received(s)
    && s.jobCh == Range(Taken(s), Handed(s))
    && s.resultCh == Range(Received(s), Announced(s))
  }

  /** A job that was taken is done or with exactly one worker. */
  predicate WorkersOk(env: Env, s: State)
  {
    && |s.workers| == env.workers
    && (forall j :: j in s.done ==> j < Taken(s))
    && (forall w :: 0 <= w < |s.workers| && s.workers[w].Working? ==> s.workers[w].j < Taken(s) && s.workers[w].j !in s.done)
    && (forall v, w :: 0 <= v < w < |s.workers| && s.workers[v].Working? && s.workers[w].Working? ==> s.workers[v].j != s.workers[w].j)
    && (forall j: nat :: j < Taken(s) ==> j in s.done || Held(s, j))
    && (forall w :: 0 <= w < |s.workers| && s.workers[w] == Left ==> s.jobsClosed && s.jobCh == [])
  }

  /** What was taken of the job that failed. */
  function FromFailed(env: Env, s: State): seq<Byte>
  {
    if s.failed && s.flushed < |s.jobs| then Part(env, s.flushed, s.jobs[s.flushed]) else []
  }

  /** What is written is the output of the flushed jobs, all of which went well; the flusher stops at the first that did not. */
  predicate FlusherOk(env: Env, s: State, header: seq<Byte>)
  {
    && s.flushed <= Received(s) && s.flushed <= |s.jobs|
    && s.written == header + Outputs(env, s.jobs[..s.flushed]) + FromFailed(env, s)
    && (forall j :: 0 <= j < s.flushed ==> !Fails(env, j, s.jobs[j]) && j in s.done)
    && (s.failed ==> s.flushed < |s.jobs| && Fails(env, s.flushed, s.jobs[s.flushed]) && s.flushed in s.done)
    && match s.flusher
       case Receiving => !s.failed && Received(s) == s.flushed
       case AwaitDone(j) => !s.failed && j == s.flushed && Received(s) == s.flushed + 1
       case Draining => s.failed
       case Exited => s.resultsClosed && s.resultCh == [] && (!s.failed ==> s.flushed == Received(s))
  }

  predicate MainOk(s: State)
  {
    && (s.jobsClosed <==> s.main == JoinWorkers || s.main == JoinFlusher || s.main == ShutDown)
    && (s.resultsClosed <==> s.main == JoinFlusher || s.main == ShutDown)
    && (s.resultsClosed ==> forall w :: 0 <= w < |s.workers| ==> s.workers[w] == Left)
    && (s.main == ShutDown ==> s.flusher == Exited)
  }

  /** Every byte of the input is in exactly one job or still waits, and a job sees the end of the one before it. */
  predicate InputOk(env: Env, s: State)
  {
    && s.input == Inputs(s.jobs) + s.filling
    && Chained(env, s.jobs)
    && s.nextPrefix == Context(env, s.jobs, |s.jobs|)
  }

  /** The context for job k. */
  function Context(env: Env, jobs: seq<Job>, k: nat): seq<Byte>
    requires k <= |jobs|
  {
    if k == 0 then [] else Tail(env, jobs[k - 1])
  }

  predicate Chained(env: Env, jobs: seq<Job>)
  {
    forall k :: 0 <= k < |jobs| ==> jobs[k].prefix == Context(env, jobs, k)
  }

  lemma ChainGrows(env: Env, jobs: seq<Job>, x: Job)
    requires Chained(env, jobs) && x.prefix == Context(env, jobs, |jobs|)
    ensures Chained(env, jobs + [x]) && Context(env, jobs + [x], |jobs| + 1) == Tail(env, x)
  {
    assert (jobs + [x])[|jobs|] == x;
    forall k | 0 <= k < |jobs| + 1
      ensures (jobs + [x])[k].prefix == Context(env, jobs + [x], k)
    {
      assert Context(env, jobs + [x], k) == Context(env, jobs, k);
    }
  }

  /** What a job hands to the next one. */
  function Tail(env: Env, job: Job): seq<Byte>
  {
    if job.last then [] else job.input[|job.input| - (if env.overlap < |job.input| then env.overlap else |job.input|)..]
  }

  predicate Inv(env: Env, s: State, header: seq<Byte>)
  {
    ChannelsOk(env, s) && WorkersOk(env, s) && FlusherOk(env, s, header) && MainOk(s) && InputOk(env, s)
  }

  lemma StartInv(env: Env, header: seq<Byte>)
    requires EnvOk(env)
    ensures Inv(env, Start(env, header), header)
  {
  }

  lemma RangeEnds(a: nat, b: nat)
    requires a <= b
    ensures Range(a, b) + [b] == Range(a, b + 1)
    ensures a < b ==> Range(a, b)[1..] == Range(a + 1, b) && Range(a, b)[0] == a
  {
  }

  lemma CallerChannels(env: Env, s: State, a: Action)
    requires ChannelsOk(env, s) && Enabled(env, s, a) && ByCaller(a)
    ensures ChannelsOk(env, Step(env, s, a))
  {
    hide Range, Fails;
    RangeEnds(Taken(s), Handed(s));
    RangeEnds(Received(s), Announced(s));
  }

  lemma ChannelsTaken(env: Env, s: State, s': State)
    requires ChannelsOk(env, s) && s'.main == s.main && s'.jobs == s.jobs
    requires s'.jobCh == s.jobCh || (s.jobCh != [] && s'.jobCh == s.jobCh[1..])
    requires s'.resultCh == s.resultCh || (s.resultCh != [] && s'.resultCh == s.resultCh[1..])
    ensures ChannelsOk(env, s')
  {
    hide Range;
    RangeEnds(Taken(s), Handed(s));
    RangeEnds(Received(s), Announced(s));
  }

  lemma StepChannels(env: Env, s: State, a: Action)
    requires ChannelsOk(env, s) && Enabled(env, s, a)
    ensures ChannelsOk(env, Step(env, s, a))
  {
    hide ChannelsOk, Fails;
    if ByCaller(a) {
      CallerChannels(env, s, a);
    } else {
      ChannelsTaken(env, s, Step(env, s, a));
    }
  }

  lemma WorkersSame(env: Env, s: State, s': State)
    requires WorkersOk(env, s) && s'.workers == s.workers && s'.done == s.done && Taken(s') == Taken(s)
    requires forall w :: 0 <= w < |s.workers| && s.workers[w] == Left ==> s'.jobsClosed && s'.jobCh == []
    ensures WorkersOk(env, s')
  {
    forall j: nat | j < Taken(s')
      ensures j in s'.done || Held(s', j)
    {
      if Held(s, j) {
        var w :| 0 <= w < |s.workers| && s.workers[w] == Working(j);
        assert s'.workers[w] == Working(j);
      }
    }
  }

  lemma WorkerTakes(env: Env, s: State, w: nat, s': State)
    requires ChannelsOk(env, s) && WorkersOk(env, s) && Enabled(env, s, Take(w)) && s' == Step(env, s, Take(w))
    ensures WorkersOk(env, s')
  {
    hide Range;
    RangeEnds(Taken(s), Handed(s));
    forall j: nat | j < Taken(s')
      ensures j in s'.done || Held(s', j)
    {
      if j == Taken(s) {
        assert s'.workers[w] == Working(j);
      } else if Held(s, j) {
        var v :| 0 <= v < |s.workers| && s.workers[v] == Working(j);
        assert s'.workers[v] == Working(j);
      }
    }
  }

  lemma WorkerFinishes(env: Env, s: State, w: nat, s': State)
    requires WorkersOk(env, s) && Enabled(env, s, Finish(w)) && s' == Step(env, s, Finish(w))
    ensures WorkersOk(env, s')
  {
    hide Range;
    forall j: nat | j < Taken(s')
      ensures j in s'.done || Held(s', j)
    {
      if Held(s, j) && j != s.workers[w].j {
        var v :| 0 <= v < |s.workers| && s.workers[v] == Working(j);
        assert s'.workers[v] == Working(j);
      }
    }
  }

  lemma WorkerLeaves(env: Env, s: State, w: nat, s': State)
    requires WorkersOk(env, s) && Enabled(env, s, Leave(w)) && s' == Step(env, s, Leave(w))
    ensures WorkersOk(env, s')
  {
    hide Range;
    forall j: nat | j < Taken(s')
      ensures j in s'.done || Held(s', j)
    {
      if Held(s, j) {
        var v :| 0 <= v < |s.workers| && s.workers[v] == Working(j);
        assert s'.workers[v] == Working(j);
      }
    }
  }

  lemma StepWorkers(env: Env, s: State, a: Action, header: seq<Byte>)
    requires Inv(env, s, header) && Enabled(env, s, a)
    ensures WorkersOk(env, Step(env, s, a))
  {
    hide Range, Fails, FlusherOk, InputOk, WorkersOk;
    LeftOnlyAtTheEnd(env, s);
    match a
    case Take(w) => WorkerTakes(env, s, w, Step(env, s, a));
    case Finish(w) => WorkerFinishes(env, s, w, Step(env, s, a));
    case Leave(w) => WorkerLeaves(env, s, w, Step(env, s, a));
    case _ => WorkersSame(env, s, Step(env, s, a));
  }

  lemma LeftOnlyAtTheEnd(env: Env, s: State)
    requires WorkersOk(env, s)
    ensures forall w :: 0 <= w < |s.workers| && s.workers[w] == Left ==> s.jobsClosed && s.jobCh == []
  {
  }

  lemma SameFront(jobs: seq<Job>, x: Job, k: nat)
    requires k <= |jobs|
    ensures (jobs + [x])[..k] == jobs[..k] && (jobs + [x])[..|jobs|] == jobs
  {
  }

  lemma CallerFlusher(env: Env, s: State, a: Action, header: seq<Byte>)
    requires Inv(env, s, header) && Enabled(env, s, a) && ByCaller(a)
    ensures FlusherOk(env, Step(env, s, a), header)
  {
    hide InputOk, WorkersOk, Range, Tail, Part;
    if a.Dispatch? && Step(env, s, a).jobs != s.jobs {
      SameFront(s.jobs, Step(env, s, a).jobs[|s.jobs|], s.flushed);
    }
  }

  lemma StepFlusher(env: Env, s: State, a: Action, header: seq<Byte>)
    requires Inv(env, s, header) && Enabled(env, s, a)
    ensures FlusherOk(env, Step(env, s, a), header)
  {
    hide InputOk, Held, Range, WorkersOk, FlusherOk;
    if ByCaller(a) {
      CallerFlusher(env, s, a, header);
    } else if a.Take? || a.Finish? || a.Leave? {
      WorkerFlusher(env, s, a, header);
    } else {
      FlusherFlusher(env, s, a, header);
    }
  }

  lemma WorkerFlusher(env: Env, s: State, a: Action, header: seq<Byte>)
    requires FlusherOk(env, s, header) && Enabled(env, s, a) && (a.Take? || a.Finish? || a.Leave?)
    ensures FlusherOk(env, Step(env, s, a), header)
  {
    hide Fails, Outputs;
  }

  lemma FlusherFlusher(env: Env, s: State, a: Action, header: seq<Byte>)
    requires Inv(env, s, header) && Enabled(env, s, a) && !ByCaller(a) && !a.Take? && !a.Finish? && !a.Leave?
    ensures FlusherOk(env, Step(env, s, a), header)
  {
    hide InputOk, Held, Range, WorkersOk, Fails, Part;
    if a.Flush? { FlushKeeps(env, s, header); }
  }

  lemma FlushKeeps(env: Env, s: State, header: seq<Byte>)
    requires FlusherOk(env, s, header) && ChannelsOk(env, s) && Enabled(env, s, Flush)
    ensures FlusherOk(env, Step(env, s, Flush), header)
  {
    hide Range, Fails, Part, Output, Outputs;
    if !Fails(env, s.flushed, s.jobs[s.flushed]) {
      OneMoreOutput(env, s.jobs, s.flushed, header);
      assert header + Outputs(env, s.jobs[..s.flushed]) + [] == header + Outputs(env, s.jobs[..s.flushed]);
      assert header + Outputs(env, s.jobs[..s.flushed + 1]) + [] == header + Outputs(env, s.jobs[..s.flushed + 1]);
    } else {
      assert header + Outputs(env, s.jobs[..s.flushed]) + [] == header + Outputs(env, s.jobs[..s.flushed]);
    }
  }

  lemma OneMoreOutput(env: Env, jobs: seq<Job>, k: nat, header: seq<Byte>)
    requires k < |jobs|
    ensures header + Outputs(env, jobs[..k]) + Output(env, jobs[k]) == header + Outputs(env, jobs[..k + 1])
  {
    assert jobs[..k + 1][..k] == jobs[..k];
  }

  lemma StepMain(env: Env, s: State, a: Action, header: seq<Byte>)
    requires Inv(env, s, header) && Enabled(env, s, a)
    ensures MainOk(Step(env, s, a))
  {
    hide InputOk, Held, Range, ChannelsOk;
  }

  lemma StepInput(env: Env, s: State, a: Action, header: seq<Byte>)
    requires Inv(env, s, header) && Enabled(env, s, a)
    ensures InputOk(env, Step(env, s, a))
  {
    hide ChannelsOk, WorkersOk, FlusherOk, MainOk, InputOk, Tail;
    match a
    case Dispatch(final) => DispatchInput(env, s, final);
    case Write(p) => WriteInput(env, s, Step(env, s, a), p);
    case _ => WriteInput(env, s, Step(env, s, a), []);
  }

  lemma DispatchInput(env: Env, s: State, final: bool)
    requires InputOk(env, s) && Enabled(env, s, Dispatch(final))
    ensures InputOk(env, Step(env, s, Dispatch(final)))
  {
    hide Chained, Context;
    var x := Job(s.nextPrefix, s.filling, final);
    ChainGrows(env, s.jobs, x);
    SameFront(s.jobs, x, 0);
    assert s.input == Inputs(s.jobs) + s.filling + [];
  }

  lemma WriteInput(env: Env, s: State, s': State, p: seq<Byte>)
    requires InputOk(env, s) && s'.jobs == s.jobs && s'.nextPrefix == s.nextPrefix
    requires s'.input == s.input + p && s'.filling == s.filling + p
    ensures InputOk(env, s')
  {
    hide Chained, Context;
    assert s.input + p == Inputs(s.jobs) + (s.filling + p);
  }

  /** No step of any goroutine breaks the invariant. */
  lemma StepInv(env: Env, s: State, a: Action, header: seq<Byte>)
    requires Inv(env, s, header) && Enabled(env, s, a)
    ensures Inv(env, Step(env, s, a), header)
  {
    hide Step, Enabled, ChannelsOk, WorkersOk, FlusherOk, MainOk, InputOk;
    StepChannels(env, s, a);
    StepWorkers(env, s, a, header);
    StepFlusher(env, s, a, header);
    StepMain(env, s, a, header);
    StepInput(env, s, a, header);
  }

  /** A run: actions, each enabled where it happens. */
  predicate IsRun(env: Env, s: State, run: seq<Action>)
    decreases |run|
  {
    run == [] || (Enabled(env, s, run[0]) && IsRun(env, Step(env, s, run[0]), run[1..]))
  }

  function End(env: Env, s: State, run: seq<Action>): State
    requires IsRun(env, s, run)
    decreases |run|
  {
    if run == [] then s else End(env, Step(env, s, run[0]), run[1..])
  }

  lemma {:induction false} RunInv(env: Env, s: State, run: seq<Action>, header: seq<Byte>)
    requires Inv(env, s, header) && IsRun(env, s, run)
    ensures Inv(env, End(env, s, run), header)
    decreases |run|
  {
    if run != [] {
      StepInv(env, s, run[0], header);
      RunInv(env, Step(env, s, run[0]), run[1..], header);
    }
  }

  // ----- what the caller sees -----

  /** The output of the jobs up to the first failing one, and what is taken of that. */
  function Flushable(env: Env, jobs: seq<Job>, from: nat): seq<Byte>
    requires from <= |jobs|
    decreases |jobs| - from
  {
    if from == |jobs| then []
    else if Fails(env, from, jobs[from]) then Part(env, from, jobs[from])
    else Output(env, jobs[from]) + Flushable(env, jobs, from + 1)
  }

  lemma {:induction false} FlushableIsPrefix(env: Env, jobs: seq<Job>, from: nat, to: nat)
    requires from <= to <= |jobs|
    requires forall j :: from <= j < to ==> !Fails(env, j, jobs[j])
    requires to == |jobs| || Fails(env, to, jobs[to])
    ensures Outputs(env, jobs[..to]) + (if to < |jobs| then Part(env, to, jobs[to]) else []) == Outputs(env, jobs[..from]) + Flushable(env, jobs, from)
    decreases |jobs| - from
  {
    hide Fails, Part, Output;
    if from < to {
      FlushableIsPrefix(env, jobs, from + 1, to);
      assert jobs[..from + 1][..from] == jobs[..from];
      var a, b, c := Outputs(env, jobs[..from]), Output(env, jobs[from]), Flushable(env, jobs, from + 1);
      assert a + b + c == a + (b + c);
    }
  }

  /** Whatever the interleaving, at every moment the writer holds the outputs of the first jobs, in dispatch order, and at most a part of one that failed. */
  lemma WrittenInOrder(env: Env, header: seq<Byte>, run: seq<Action>)
    requires EnvOk(env) && IsRun(env, Start(env, header), run)
    ensures var s := End(env, Start(env, header), run);
            && s.flushed <= |s.jobs|
            && s.written == header + Outputs(env, s.jobs[..s.flushed]) + FromFailed(env, s)
            && (forall j :: 0 <= j < s.flushed ==> !Fails(env, j, s.jobs[j]))
            && (s.failed ==> s.flushed < |s.jobs| && Fails(env, s.flushed, s.jobs[s.flushed]))
  {
    StartInv(env, header);
    RunInv(env, Start(env, header), run, header);
  }

  /** Waiting ends only when every dispatched job is flushed or a failure is recorded. */
  lemma WaitEndsFlushed(env: Env, header: seq<Byte>, run: seq<Action>)
    requires EnvOk(env) && IsRun(env, Start(env, header), run)
    requires Enabled(env, End(env, Start(env, header), run), WaitReturns)
    ensures var s := End(env, Start(env, header), run);
            s.failed || s.written == header + Outputs(env, s.jobs)
  {
    StartInv(env, header);
    RunInv(env, Start(env, header), run, header);
    var s := End(env, Start(env, header), run);
    assert s.jobs[..|s.jobs|] == s.jobs;
  }

  /** After the shutdown the bytes depend on the dispatched jobs alone, and a failure is recorded exactly when some job fails. */
  lemma ShutDownWritten(env: Env, header: seq<Byte>, run: seq<Action>)
    requires EnvOk(env) && IsRun(env, Start(env, header), run)
    requires End(env, Start(env, header), run).main == ShutDown
    ensures var s := End(env, Start(env, header), run);
            && s.written == header + Flushable(env, s.jobs, 0)
            && (s.failed <==> exists j :: 0 <= j < |s.jobs| && Fails(env, j, s.jobs[j]))
            && s.input == Inputs(s.jobs) + s.filling
            && Chained(env, s.jobs)
  {
    hide Step, Enabled, IsRun, End, Inv, Flushable, Chained;
    StartInv(env, header);
    RunInv(env, Start(env, header), run, header);
    FinalState(env, End(env, Start(env, header), run), header);
  }

  /**
   The context of a job is the end of what came before it: as many of its last bytes as the overlap allows. A job that begins a
   stream has none.
   */
  lemma PrefixIsEnd(env: Env, header: seq<Byte>, run: seq<Action>, k: nat) returns (front: seq<Byte>)
    requires EnvOk(env) && IsRun(env, Start(env, header), run) && k < |End(env, Start(env, header), run).jobs|
    ensures var jobs := End(env, Start(env, header), run).jobs;
            if k == 0 || jobs[k - 1].last then jobs[k].prefix == []
            else front + jobs[k].prefix == jobs[k - 1].input && (|jobs[k].prefix| == env.overlap || (front == [] && |jobs[k].prefix| <= env.overlap))
  {
    hide Enabled, Step, ChannelsOk, WorkersOk, FlusherOk, MainOk, IsRun, End;
    StartInv(env, header);
    RunInv(env, Start(env, header), run, header);
    var jobs := End(env, Start(env, header), run).jobs;
    front := if k == 0 || jobs[k - 1].last then [] else jobs[k - 1].input[..|jobs[k - 1].input| - |jobs[k].prefix|];
  }

  lemma FinalState(env: Env, s: State, header: seq<Byte>)
    requires Inv(env, s, header) && s.main == ShutDown
    ensures s.written == header + Flushable(env, s.jobs, 0)
    ensures s.failed <==> exists j :: 0 <= j < |s.jobs| && Fails(env, j, s.jobs[j])
    ensures s.input == Inputs(s.jobs) + s.filling && Chained(env, s.jobs)
  {
    hide WorkersOk, Flushable, Chained, Range, Fails, Part, Output;
    FlushableIsPrefix(env, s.jobs, 0, s.flushed);
    var a, b := Outputs(env, s.jobs[..s.flushed]), FromFailed(env, s);
    assert header + a + b == header + (a + b);
    assert s.jobs[..0] == [];
    assert Outputs(env, []) == [];
    assert [] + Flushable(env, s.jobs, 0) == Flushable(env, s.jobs, 0);
  }

  // ----- nothing gets stuck -----

  /** Some worker can move while a job was handed out and is not done. */
  lemma WorkerMoves(env: Env, s: State, header: seq<Byte>, j: nat) returns (a: Action)
    requires EnvOk(env) && Inv(env, s, header) && j < Handed(s) && j !in s.done
    ensures !IsCall(a) && Enabled(env, s, a)
  {
    if j < Taken(s) {
      var w :| 0 <= w < |s.workers| && s.workers[w] == Working(j);
      a := Finish(w);
    } else {
      assert s.workers[0] != Left;
      a := if s.workers[0] == Free then Take(0) else Finish(0);
    }
  }

  /** The flusher can move, or a worker it waits for, while jobs are announced and not flushed. */
  lemma FlusherMoves(env: Env, s: State, header: seq<Byte>) returns (a: Action)
    requires EnvOk(env) && Inv(env, s, header) && s.main != SendJob
    requires s.resultCh != [] || (s.flushed < |s.jobs| && !s.failed && s.main != SendResult)
    ensures !IsCall(a) && Enabled(env, s, a)
  {
    match s.flusher
    case Receiving => a := Receive;
    case Draining => a := Drain;
    case AwaitDone(j) =>
      if j in s.done { a := Flush; } else { a := WorkerMoves(env, s, header, j); }
    case Exited => assert false;
  }

  lemma WorkersLeave(env: Env, s: State, header: seq<Byte>) returns (a: Action)
    requires Inv(env, s, header) && s.main == JoinWorkers
    ensures !IsCall(a) && Enabled(env, s, a)
  {
    hide ChannelsOk, WorkersOk, FlusherOk, InputOk;
    if w :| 0 <= w < |s.workers| && s.workers[w] != Left {
      a := if s.workers[w].Working? then Finish(w) else if s.jobCh != [] then Take(w) else Leave(w);
    } else {
      a := WorkersJoined;
    }
  }

  lemma FlusherLeaves(env: Env, s: State, header: seq<Byte>) returns (a: Action)
    requires EnvOk(env) && Inv(env, s, header) && s.main == JoinFlusher
    ensures !IsCall(a) && Enabled(env, s, a)
  {
    hide InputOk;
    assert s.workers[0] == Left;
    match s.flusher
    case Exited => a := FlusherJoined;
    case Receiving => a := if s.resultCh != [] then Receive else Exit;
    case Draining => a := if s.resultCh != [] then Drain else Exit;
    case AwaitDone(j) =>
      assert !Held(s, j);
      a := Flush;
  }

  /** While the caller is inside a call some goroutine can step: no reachable state is stuck. */
  lemma NeverStuck(env: Env, s: State, header: seq<Byte>) returns (a: Action)
    requires EnvOk(env) && Inv(env, s, header) && s.main != Idle && s.main != ShutDown
    ensures !IsCall(a) && Enabled(env, s, a)
  {
    hide FlusherOk, InputOk;
    match s.main
    case SendResult =>
      if |s.resultCh| < env.workers { a := PutResult; } else { a := FlusherMoves(env, s, header); }
    case SendJob =>
      if |s.jobCh| < env.workers { a := PutJob; } else { a := WorkerMoves(env, s, header, s.jobCh[0]); }
    case Waiting =>
      if s.flushed >= |s.jobs| || s.failed { a := WaitReturns; } else { a := FlusherMoves(env, s, header); }
    case JoinWorkers => a := WorkersLeave(env, s, header);
    case JoinFlusher => a := FlusherLeaves(env, s, header);
  }

  function MainWork(m: Main): nat
  {
    match m case SendResult => 10 case SendJob => 6 case Idle => 2 case Waiting => 3 case JoinWorkers => 2 case JoinFlusher => 1 case ShutDown => 0
  }

  function WorkerWork(ws: seq<Worker>): nat
  {
    if ws == [] then 0
    else WorkerWork(ws[..|ws| - 1]) + match ws[|ws| - 1] case Free => 1 case Working(_) => 2 case Left => 0
  }

  function FlusherWork(f: Flusher): nat
  {
    match f case Receiving => 2 case AwaitDone(_) => 4 case Draining => 1 case Exited => 0
  }

  /** The steps still to be taken before the next call. */
  function Work(s: State): nat
  {
    MainWork(s.main) + 3 * |s.jobCh| + 3 * |s.resultCh| + WorkerWork(s.workers) + FlusherWork(s.flusher)
  }

  lemma {:induction false} WorkerWorkUpdate(ws: seq<Worker>, w: nat, x: Worker)
    requires w < |ws|
    ensures WorkerWork(ws[w := x]) - WorkerWork(ws) == WorkerWork([x]) - WorkerWork([ws[w]])
    decreases |ws|
  {
    var n := |ws| - 1;
    if w < n {
      WorkerWorkUpdate(ws[..n], w, x);
      assert ws[w := x][..n] == ws[..n][w := x];
    } else {
      assert ws[w := x][..n] == ws[..n];
      assert [x][..0] == [] && [ws[w]][..0] == [];
    }
  }

  /** Every step that is not a call brings the next return of a call nearer. */
  lemma StepsDecrease(env: Env, s: State, a: Action)
    requires Enabled(env, s, a) && !IsCall(a)
    ensures Work(Step(env, s, a)) < Work(s)
  {
    if a.Take? || a.Finish? || a.Leave? {
      var x := Step(env, s, a).workers[a.w];
      WorkerWorkUpdate(s.workers, a.w, x);
      assert [x][..0] == [] && [s.workers[a.w]][..0] == [];
    }
  }

  /** Without new calls at most Work(s) steps happen, under any scheduler; and only a returned caller or a shut down machine stops. */
  lemma {:induction false} CallsReturn(env: Env, s: State, run: seq<Action>, header: seq<Byte>)
    requires EnvOk(env) && Inv(env, s, header) && IsRun(env, s, run)
    requires forall k :: 0 <= k < |run| ==> !IsCall(run[k])
    ensures |run| <= Work(s)
    ensures (forall a :: !IsCall(a) ==> !Enabled(env, End(env, s, run), a)) ==> End(env, s, run).main in {Idle, ShutDown}
    decreases |run|
  {
    if run == [] {
      if s.main != Idle && s.main != ShutDown {
        var a := NeverStuck(env, s, header);
      }
    } else {
      StepInv(env, s, run[0], header);
      StepsDecrease(env, s, run[0]);
      CallsReturn(env, Step(env, s, run[0]), run[1..], header);
    }
  }
}
