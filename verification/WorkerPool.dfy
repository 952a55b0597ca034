/**
 The concurrent reader of the guardrail scan: workers share one index counter and write into one
 output array.  Between two awaits a worker runs alone, so a run is a sequence of steps, each of
 one worker, in any order.
 */
module WorkerPool {
  import opened Wrappers
  import opened Selection

  datatype SourceFile = SourceFile(relativePath: string, source: string)

  /** The paths, what reading each of them gives (`None` when it throws), and `path.relative`. */
  datatype Job = Job(paths: seq<string>, read: nat -> Option<string>, relative: string -> string)

  datatype Worker = Claiming | Reading(index: nat) | Stopped

  /** `claims` logs the indices taken below the number of paths, in order. */
  datatype State = State(nextIndex: nat, workers: seq<Worker>, output: seq<Option<SourceFile>>, claims: seq<nat>)

  const FILE_READ_CONCURRENCY: nat := 24

  function WorkerCount(n: nat): (k: nat)
    ensures 1 <= k <= FILE_READ_CONCURRENCY && (n >= 1 ==> k <= n)
  {
    var wanted := if n > 1 then n else 1;
    if wanted < FILE_READ_CONCURRENCY then wanted else FILE_READ_CONCURRENCY
  }

  /** Worker `w` has not stopped, and what it reads has a slot in the output. */
  predicate CanStep(job: Job, s: State, w: nat) {
    && w < |s.workers| && s.workers[w] != Stopped
    && |s.output| == |job.paths|
    && (s.workers[w].Reading? ==> s.workers[w].index < |job.paths|)
  }

  /** From one await of worker `w` to its next: claim an index, or take in the file it was reading. */
  function Step(job: Job, s: State, w: nat): State
    requires CanStep(job, s, w)
  {
    var n := |job.paths|;
    match s.workers[w]
    case Claiming =>
      var index := s.nextIndex;
      var taken := s.(nextIndex := index + 1);
      if index >= n then taken.(workers := s.workers[w := Stopped])
      else
        taken.(workers := if job.paths[index] == "" then s.workers else s.workers[w := Reading(index)],
               claims := s.claims + [index])
    case Reading(index) =>
      s.(workers := s.workers[w := Claiming],
         output := match job.read(index)
                   case Some(source) => s.output[index := Some(SourceFile(job.relative(job.paths[index]), source))]
                   case None => s.output)
  }

  // ---------- the sequential reading ----------

  function Entry(job: Job, i: nat): Option<SourceFile>
    requires i < |job.paths|
  {
    if job.paths[i] == "" then None
    else
      match job.read(i)
      case Some(source) => Some(SourceFile(job.relative(job.paths[i]), source))
      case None => None
  }

  function Present(output: seq<Option<SourceFile>>): seq<SourceFile> {
    if output == [] then []
    else (match output[0] case Some(f) => [f] case None => []) + Present(output[1..])
  }

  /** Reading the files one after the other, in order. */
  function Sequential(job: Job): seq<SourceFile> {
    Present(seq(|job.paths|, i requires 0 <= i < |job.paths| => Entry(job, i)))
  }

  // ---------- what every step keeps ----------

  function Claimed(job: Job, s: State): nat {
    if s.nextIndex < |job.paths| then s.nextIndex else |job.paths|
  }

  ghost predicate Inv(job: Job, s: State) {
    var n := |job.paths|;
    && |s.output| == n
    && s.claims == seq(Claimed(job, s), i => i)
    && (forall w | 0 <= w < |s.workers| && s.workers[w].Reading? ::
          var i := s.workers[w].index; i < Claimed(job, s) && job.paths[i] != "" && s.output[i] == None)
    && (forall v, w | 0 <= v < w < |s.workers| && s.workers[v].Reading? :: s.workers[v] != s.workers[w])
    && (forall i | Claimed(job, s) <= i < n :: s.output[i] == None)
    && (forall i | 0 <= i < Claimed(job, s) :: s.output[i] == Entry(job, i) || Reading(i) in s.workers)
    && (Stopped in s.workers ==> s.nextIndex > n)
  }

  lemma {:induction false} StepKeepsInv(job: Job, s: State, w: nat)
    requires Inv(job, s) && CanStep(job, s, w)
    ensures Inv(job, Step(job, s, w)) && |Step(job, s, w).workers| == |s.workers|
  {
    var t := Step(job, s, w);
    forall i | 0 <= i < Claimed(job, t)
      ensures t.output[i] == Entry(job, i) || Reading(i) in t.workers
    {
      if i < Claimed(job, s) && Reading(i) in s.workers {
        var v :| 0 <= v < |s.workers| && s.workers[v] == Reading(i);
        assert v != w ==> t.workers[v] == Reading(i);
      } else if i >= Claimed(job, s) && job.paths[i] != "" {
        assert t.workers[w] == Reading(i);
      }
    }
  }

  /** Once every worker has stopped, every index was claimed exactly once and every slot holds its file. */
  lemma {:induction false} StoppedMeansComplete(job: Job, s: State)
    requires Inv(job, s) && s.workers != [] && forall w | 0 <= w < |s.workers| :: s.workers[w] == Stopped
    ensures s.claims == seq(|job.paths|, i => i)
    ensures Present(s.output) == Sequential(job)
  {
    assert s.workers[0] == Stopped;
    assert s.output == seq(|job.paths|, i requires 0 <= i < |job.paths| => Entry(job, i));
  }

  /** No worker is ever stuck: one that has not stopped can take a step. */
  lemma {:induction false} NeverStuck(job: Job, s: State, w: nat)
    requires Inv(job, s) && w < |s.workers|
    ensures CanStep(job, s, w) <==> s.workers[w] != Stopped
  {
  }

  // ---------- termination ----------

  function Weight(w: Worker): nat {
    match w
    case Stopped => 0
    case Claiming => 1
    case Reading(_) => 2
  }

  function Weights(ws: seq<Worker>): nat {
    if ws == [] then 0 else Weight(ws[0]) + Weights(ws[1..])
  }

  function StepsLeft(job: Job, s: State): nat {
    3 * (|job.paths| - Claimed(job, s)) + Weights(s.workers)
  }

  lemma {:induction false} WeightsUpdate(ws: seq<Worker>, w: nat, worker: Worker)
    requires w < |ws|
    ensures Weights(ws[w := worker]) == Weights(ws) - Weight(ws[w]) + Weight(worker)
  {
    if w == 0 {
      assert ws[0 := worker][1..] == ws[1..];
    } else {
      WeightsUpdate(ws[1..], w - 1, worker);
      assert ws[w := worker][1..] == ws[1..][w - 1 := worker];
    }
  }

  /** Every step of a worker that has not stopped uses up part of a bound fixed at the start. */
  lemma {:induction false} StepUsesUp(job: Job, s: State, w: nat)
    requires Inv(job, s) && CanStep(job, s, w)
    ensures StepsLeft(job, Step(job, s, w)) < StepsLeft(job, s)
  {
    WeightsUpdate(s.workers, w, Step(job, s, w).workers[w]);
    assert s.workers[w := s.workers[w]] == s.workers;
  }

  // ---------- every schedule ----------

  function Start(job: Job): State {
    State(0, seq(WorkerCount(|job.paths|), _ => Claiming), seq(|job.paths|, _ => None), [])
  }

  /** The state after the workers named by `schedule` have each taken a step. */
  ghost predicate Reaches(job: Job, s: State, schedule: seq<nat>, t: State)
    decreases |schedule|
  {
    if schedule == [] then s == t
    else CanStep(job, s, schedule[0]) && Reaches(job, Step(job, s, schedule[0]), schedule[1..], t)
  }

  lemma {:induction false} StartInv(job: Job)
    ensures Inv(job, Start(job)) && StepsLeft(job, Start(job)) == 3 * |job.paths| + WorkerCount(|job.paths|)
  {
    WeightsOfClaiming(WorkerCount(|job.paths|));
  }

  lemma {:induction false} WeightsOfClaiming(k: nat)
    ensures Weights(seq(k, _ => Claiming)) == k
  {
    if k > 0 {
      assert seq(k, _ => Claiming)[1..] == seq(k - 1, _ => Claiming);
      WeightsOfClaiming(k - 1);
    }
  }

  lemma {:induction false} ReachesKeeps(job: Job, s: State, schedule: seq<nat>, t: State)
    requires Inv(job, s) && Reaches(job, s, schedule, t)
    ensures Inv(job, t) && |t.workers| == |s.workers| && |schedule| + StepsLeft(job, t) <= StepsLeft(job, s)
    decreases |schedule|
  {
    if schedule != [] {
      StepKeepsInv(job, s, schedule[0]);
      StepUsesUp(job, s, schedule[0]);
      ReachesKeeps(job, Step(job, s, schedule[0]), schedule[1..], t);
    }
  }

  /**
   Determinism: whatever order the workers run in, a schedule has at most 3n + W steps, and when it
   leaves no worker running the result is the sequential one and each index was claimed exactly once.
   */
  lemma {:induction false} EveryScheduleAgrees(job: Job, schedule: seq<nat>, t: State)
    requires Reaches(job, Start(job), schedule, t)
    ensures |schedule| <= 3 * |job.paths| + WorkerCount(|job.paths|)
    ensures (forall w | 0 <= w < |t.workers| :: t.workers[w] == Stopped) ==>
              Present(t.output) == Sequential(job) && t.claims == seq(|job.paths|, i => i)
  {
    StartInv(job);
    ReachesKeeps(job, Start(job), schedule, t);
    if forall w | 0 <= w < |t.workers| :: t.workers[w] == Stopped {
      StoppedMeansComplete(job, t);
    }
  }

  // ---------- the pool itself ----------

  class Pool {
    const job: Job
    const output: array<Option<SourceFile>>
    var nextIndex: nat
    var workers: seq<Worker>
    var claims: seq<nat>

    ghost function Value(): State
      reads this, output
    {
      State(nextIndex, workers, output[..], claims)
    }

    constructor (j: Job)
      ensures job == j && Value() == Start(j) && fresh(output)
    {
      job := j;
      output := new Option<SourceFile>[|j.paths|](_ => None);
      nextIndex := 0;
      workers := seq(WorkerCount(|j.paths|), _ => Claiming);
      claims := [];
    }

    /** One worker runs from one await to the next. */
    method Advance(w: nat)
      requires CanStep(job, Value(), w)
      modifies this, output
      ensures Value() == Step(job, old(Value()), w)
    {
      match workers[w] {
        case Claiming =>
          var index := nextIndex;
          nextIndex := nextIndex + 1;
          if index >= |job.paths| {
            workers := workers[w := Stopped];
          } else {
            claims := claims + [index];
            if job.paths[index] != "" {
              workers := workers[w := Reading(index)];
            }
          }
        case Reading(index) =>
          var read := job.read(index);
          if read.Some? {
            output[index] := Some(SourceFile(job.relative(job.paths[index]), read.value));
          }
          workers := workers[w := Claiming];
      }
    }
  }

  /** All workers run to their end under an arbitrary scheduler. */
  method ReadRuntimeSourceFiles(job: Job) returns (files: seq<SourceFile>)
    ensures files == Sequential(job)
  {
    var pool := new Pool(job);
    StartInv(job);
    while exists w :: 0 <= w < |pool.workers| && pool.workers[w] != Stopped
      invariant pool.job == job && fresh(pool) && fresh(pool.output)
      invariant Inv(job, pool.Value()) && pool.workers != []
      decreases StepsLeft(job, pool.Value())
    {
      var w :| 0 <= w < |pool.workers| && pool.workers[w] != Stopped;
      StepKeepsInv(job, pool.Value(), w);
      StepUsesUp(job, pool.Value(), w);
      pool.Advance(w);
    }
    StoppedMeansComplete(job, pool.Value());
    files := Present(pool.output[..]);
  }

  // ---------- what the result holds ----------

  /** The slots that are filled. */
  function FilledIn(output: seq<Option<SourceFile>>): nat -> bool {
    (i: nat) => i < |output| && output[i].Some?
  }

  /** Filtering keeps the slots that are filled, in order, and no other. */
  lemma {:induction false} PresentInOrder(output: seq<Option<SourceFile>>) returns (at: seq<nat>)
    ensures Selects(at, |output|, FilledIn(output))
    ensures |Present(output)| == |at|
    ensures forall k | 0 <= k < |at| :: output[at[k]] == Some(Present(output)[k])
  {
    if output == [] {
      at := [];
    } else {
      hide Selects;
      var n := |output| - 1;
      at := PresentInOrder(output[..n]);
      SelectsLast(at, n, FilledIn(output[..n]), FilledIn(output));
      PresentLast(output);
      at := at + (if output[n].Some? then [n] else []);
    }
  }

  lemma {:induction false} PresentLast(output: seq<Option<SourceFile>>)
    requires output != []
    ensures var n := |output| - 1;
            Present(output) == Present(output[..n]) + (if output[n].Some? then [output[n].value] else [])
  {
    if |output| > 1 {
      PresentLast(output[1..]);
      assert output[1..][..|output| - 2] == output[..|output| - 1][1..];
    }
  }

  /** The result has, in the order of the paths, every file that has a path and can be read, and nothing else. */
  lemma {:induction false} ResultInOrder(job: Job) returns (at: seq<nat>)
    ensures Selects(at, |job.paths|, (i: nat) => i < |job.paths| && job.paths[i] != "" && job.read(i).Some?)
    ensures |Sequential(job)| == |at|
    ensures forall k | 0 <= k < |at| ::
              Sequential(job)[k] == SourceFile(job.relative(job.paths[at[k]]), job.read(at[k]).value)
  {
    at := PresentInOrder(seq(|job.paths|, i requires 0 <= i < |job.paths| => Entry(job, i)));
  }
}
