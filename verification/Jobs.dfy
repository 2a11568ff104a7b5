/**
 light-prover/server/job.go: jobs that run until they are asked to stop, and jobs combined of
 other jobs. Every job has a goroutine that waits for its `stop` channel, shuts the job down and
 closes its `closed` channel. The goroutines are modelled as a system of atomic steps.
 */
module Jobs {
  import opened Wrappers

  /** A plain job has a shutdown function of its own; a combined one stops the jobs it is made of. */
  datatype Kind = Leaf | Combined(jobs: seq<nat>)

  /** Where the goroutine of a job is. */
  datatype Pc = Waiting | Running | Requesting(next: nat) | AwaitingStop(next: nat) | Closing | Done

  /**
   `stop` and `closed` say whether the channels are closed; `runs` counts completed calls of the
   shutdown function.
   */
  datatype Job = Job(stop: bool, closed: bool, pc: Pc, runs: nat)

  datatype State = State(jobs: seq<Job>, panicked: bool)

  datatype Step =
    | RequestRoot
    | Observe(job: nat)
    | Request(job: nat)
    | Await(job: nat)
    | Finish(job: nat)
    | Close(job: nat)

  /**
   Any nesting of jobs: a job is combined of jobs created before, each of which is part of no
   other job. The last job is the root. `parent` and `pos` say where each other job is used.
   */
  datatype Nesting = Nesting(kinds: seq<Kind>, parent: seq<nat>, pos: seq<nat>) {
    ghost predicate Valid() {
      && kinds != [] && |parent| == |pos| == |kinds|
      && (forall j: nat {:trigger parent[j]} :: j + 1 < |kinds| ==>
            parent[j] < |kinds| && IsPart(parent[j], pos[j]) && Part(parent[j], pos[j]) == j)
      && (forall j: nat, k: nat {:trigger Part(j, k)} :: IsPart(j, k) ==>
            Part(j, k) < j && parent[Part(j, k)] == j && pos[Part(j, k)] == k)
    }

    predicate IsPart(j: nat, k: nat) {
      j < |kinds| && kinds[j].Combined? && k < |kinds[j].jobs|
    }

    function Part(j: nat, k: nat): nat
      requires IsPart(j, k)
    {
      kinds[j].jobs[k]
    }

    ghost function Root(): nat
      requires kinds != []
    {
      |kinds| - 1
    }

    /** All goroutines wait. */
    function Initial(): State {
      State(seq(|kinds|, _ => Job(false, false, Waiting, 0)), false)
    }
  }

  ghost predicate Enabled(n: Nesting, s: State, step: Step)
    requires n.Valid() && |s.jobs| == |n.kinds|
  {
    match step
    case RequestRoot => !s.jobs[n.Root()].stop
    case Observe(j) => j < |s.jobs| && s.jobs[j].pc == Waiting && s.jobs[j].stop
    case Request(j) => j < |s.jobs| && s.jobs[j].pc.Requesting?
    case Await(j) =>
      && j < |s.jobs| && s.jobs[j].pc.AwaitingStop?
      && (n.IsPart(j, s.jobs[j].pc.next) ==>
            n.Part(j, s.jobs[j].pc.next) < |s.jobs| && s.jobs[n.Part(j, s.jobs[j].pc.next)].closed)
    case Finish(j) => j < |s.jobs| && s.jobs[j].pc == Running
    case Close(j) => j < |s.jobs| && s.jobs[j].pc == Closing
  }

  /** Closing a channel that is closed already panics. */
  function CloseStop(s: State, j: nat): State
    requires j < |s.jobs|
  {
    if s.jobs[j].stop then s.(panicked := true) else s.(jobs := s.jobs[j := s.jobs[j].(stop := true)])
  }

  /** Asking a job to stop works once; asking it twice panics, and only then is anything wrong. */
  lemma AskingTwicePanics(s: State, j: nat)
    requires j < |s.jobs| && !s.panicked
    ensures !s.jobs[j].stop ==> !CloseStop(s, j).panicked && CloseStop(s, j).jobs[j].stop
    ensures |CloseStop(s, j).jobs| == |s.jobs| && CloseStop(CloseStop(s, j), j).panicked
    ensures forall i: nat :: i < |s.jobs| && i != j ==> CloseStop(s, j).jobs[i] == s.jobs[i]
  {
  }

  function Goto(s: State, j: nat, pc: Pc): State
    requires j < |s.jobs|
  {
    s.(jobs := s.jobs[j := s.jobs[j].(pc := pc)])
  }

  ghost function Apply(n: Nesting, s: State, step: Step): State
    requires n.Valid() && |s.jobs| == |n.kinds| && Enabled(n, s, step)
  {
    match step
    case RequestRoot => CloseStop(s, n.Root())
    case Observe(j) => Goto(s, j, if n.kinds[j].Leaf? then Running else Requesting(0))
    case Request(j) =>
      var k := s.jobs[j].pc.next;
      if n.IsPart(j, k) then CloseStop(Goto(s, j, Requesting(k + 1)), n.Part(j, k))
      else Goto(s, j, AwaitingStop(0))
    case Await(j) =>
      var k := s.jobs[j].pc.next;
      Goto(s, j, if n.IsPart(j, k) then AwaitingStop(k + 1) else Closing)
    case Finish(j) =>
      s.(jobs := s.jobs[j := s.jobs[j].(pc := Closing, runs := s.jobs[j].runs + 1)])
    case Close(j) =>
      if s.jobs[j].closed then s.(panicked := true)
      else s.(jobs := s.jobs[j := s.jobs[j].(closed := true, pc := Done)])
  }

  // ---------------------------------------------------------------------------
  // What every step keeps
  // ---------------------------------------------------------------------------

  /** The goroutine of a job has asked its part `k` to stop. */
  predicate HasAsked(pc: Pc, k: nat) {
    match pc
    case Waiting => false
    case Running => false
    case Requesting(next) => k < next
    case AwaitingStop(_) => true
    case Closing => true
    case Done => true
  }

  /** The goroutine of a job has seen its part `k` closed. */
  predicate Awaited(pc: Pc, k: nat) {
    match pc
    case Waiting => false
    case Running => false
    case Requesting(_) => false
    case AwaitingStop(next) => k < next
    case Closing => true
    case Done => true
  }

  /** The state of one job is consistent in itself. */
  predicate JobOk(kind: Kind, job: Job) {
    && (job.closed <==> job.pc == Done)
    && (!job.stop ==> job.pc == Waiting)
    && job.runs == (if kind.Leaf? && (job.pc == Closing || job.pc == Done) then 1 else 0)
    && match job.pc
       case Running => kind.Leaf?
       case Requesting(next) => kind.Combined? && next <= |kind.jobs|
       case AwaitingStop(next) => kind.Combined? && next <= |kind.jobs|
       case _ => true
  }

  /** A part is asked to stop exactly when its parent has done so, and the parent waits for the part. */
  predicate PartOk(parent: Job, k: nat, part: Job) {
    && (part.stop <==> HasAsked(parent.pc, k))
    && (Awaited(parent.pc, k) ==> part.closed)
  }

  ghost predicate Inv(n: Nesting, s: State)
    requires n.Valid()
  {
    && |s.jobs| == |n.kinds| && !s.panicked
    && (forall j: nat {:trigger s.jobs[j]} :: j < |s.jobs| ==> JobOk(n.kinds[j], s.jobs[j]))
    && (forall j: nat, k: nat {:trigger n.Part(j, k)} :: n.IsPart(j, k) ==> PartOk(s.jobs[j], k, s.jobs[n.Part(j, k)]))
  }

  lemma InitialInv(n: Nesting)
    requires n.Valid()
    ensures Inv(n, n.Initial())
  {
  }

  /** Asking the next part to stop never closes a channel twice: nobody else asks that part. */
  lemma RequestKeepsInv(n: Nesting, s: State, j: nat)
    requires n.Valid() && Inv(n, s) && Enabled(n, s, Request(j))
    ensures Inv(n, Apply(n, s, Request(j)))
  {
    var k, s' := s.jobs[j].pc.next, Apply(n, s, Request(j));
    if n.IsPart(j, k) {
      assert PartOk(s.jobs[j], k, s.jobs[n.Part(j, k)]);
    }
    forall i: nat, l: nat | n.IsPart(i, l)
      ensures PartOk(s'.jobs[i], l, s'.jobs[n.Part(i, l)])
    {
      assert PartOk(s.jobs[i], l, s.jobs[n.Part(i, l)]);
    }
  }

  /** The other steps of a goroutine change the state of its own job only. */
  lemma OwnStepKeepsInv(n: Nesting, s: State, step: Step)
    requires n.Valid() && Inv(n, s) && Enabled(n, s, step) && !step.RequestRoot? && !step.Request?
    ensures Inv(n, Apply(n, s, step))
  {
    var s' := Apply(n, s, step);
    forall i: nat, l: nat | n.IsPart(i, l)
      ensures PartOk(s'.jobs[i], l, s'.jobs[n.Part(i, l)])
    {
      assert PartOk(s.jobs[i], l, s.jobs[n.Part(i, l)]);
    }
  }

  lemma StepKeepsInv(n: Nesting, s: State, step: Step)
    requires n.Valid() && Inv(n, s) && Enabled(n, s, step)
    ensures Inv(n, Apply(n, s, step))
  {
    match step {
      case RequestRoot =>
      case Request(j) => RequestKeepsInv(n, s, j);
      case _ => OwnStepKeepsInv(n, s, step);
    }
  }

  // ---------------------------------------------------------------------------
  // Runs
  // ---------------------------------------------------------------------------

  /** The state after a sequence of steps, if each of them is enabled when it is taken. */
  ghost function After(n: Nesting, steps: seq<Step>): Option<State>
    requires n.Valid()
    decreases |steps|
  {
    if steps == [] then Some(n.Initial())
    else
      var before, step := After(n, steps[..|steps| - 1]), steps[|steps| - 1];
      if before.Some? && |before.value.jobs| == |n.kinds| && Enabled(n, before.value, step)
         then Some(Apply(n, before.value, step))
      else None
  }

  /** A run of the system ends in state `s`. */
  ghost predicate Reaches(n: Nesting, steps: seq<Step>, s: State)
    requires n.Valid()
  {
    After(n, steps) == Some(s)
  }

  /** No interleaving of the goroutines ever closes a channel twice. */
  lemma {:induction false} EveryRunKeepsInv(n: Nesting, steps: seq<Step>, s: State)
    requires n.Valid() && Reaches(n, steps, s)
    ensures Inv(n, s)
    decreases |steps|
  {
    if steps == [] {
      InitialInv(n);
    } else {
      var s0 := After(n, steps[..|steps| - 1]).value;
      EveryRunKeepsInv(n, steps[..|steps| - 1], s0);
      StepKeepsInv(n, s0, steps[|steps| - 1]);
    }
  }

  lemma {:induction false} ClosedFromRoot(n: Nesting, s: State, j: nat)
    requires n.Valid() && Inv(n, s) && s.jobs[n.Root()].closed && j < |s.jobs|
    ensures s.jobs[j].closed
    decreases |s.jobs| - j
  {
    if j + 1 < |s.jobs| {
      var p, k := n.parent[j], n.pos[j];
      assert n.Part(p, k) == j;
      ClosedFromRoot(n, s, p);
      assert PartOk(s.jobs[p], k, s.jobs[j]) && JobOk(n.kinds[p], s.jobs[p]);
    }
  }

  /** When the root reports that it has stopped, every job has, and every shutdown function has run exactly once. */
  lemma RootClosesLast(n: Nesting, steps: seq<Step>, s: State)
    requires n.Valid() && Reaches(n, steps, s)
    ensures !s.panicked && |s.jobs| == |n.kinds|
    ensures s.jobs[n.Root()].closed ==>
              forall j: nat {:trigger s.jobs[j]} :: j < |s.jobs| ==>
                  s.jobs[j].closed && (n.kinds[j].Leaf? ==> s.jobs[j].runs == 1)
  {
    EveryRunKeepsInv(n, steps, s);
    if s.jobs[n.Root()].closed {
      forall j: nat | j < |s.jobs|
        ensures s.jobs[j].closed && (n.kinds[j].Leaf? ==> s.jobs[j].runs == 1)
      {
        ClosedFromRoot(n, s, j);
        assert JobOk(n.kinds[j], s.jobs[j]);
      }
    }
  }

  // ---------------------------------------------------------------------------
  // Every run ends, and it ends with the root closed
  // ---------------------------------------------------------------------------

  /** Steps the goroutine of a job has left. */
  function Left(kind: Kind, pc: Pc): int {
    var m := if kind.Combined? then |kind.jobs| else 0;
    match pc
    case Waiting => if kind.Leaf? then 3 else 2 * m + 4
    case Running => 2
    case Requesting(next) => 2 * m + 3 - next
    case AwaitingStop(next) => m + 2 - next
    case Closing => 1
    case Done => 0
  }

  ghost function LeftUpTo(n: Nesting, s: State, j: nat): int
    requires j <= |s.jobs| == |n.kinds|
  {
    if j == 0 then 0 else LeftUpTo(n, s, j - 1) + Left(n.kinds[j - 1], s.jobs[j - 1].pc)
  }

  /** Steps left altogether, with the request to the root. */
  ghost function Work(n: Nesting, s: State): int
    requires n.Valid() && |s.jobs| == |n.kinds|
  {
    LeftUpTo(n, s, |s.jobs|) + if s.jobs[n.Root()].stop then 0 else 1
  }

  lemma {:induction false} LeftAfter(n: Nesting, s: State, s': State, j: nat, m: nat)
    requires |s.jobs| == |s'.jobs| == |n.kinds| && m <= |s.jobs| && j < |s.jobs|
    requires forall i: nat :: i < |s.jobs| && i != j ==> s'.jobs[i].pc == s.jobs[i].pc
    ensures LeftUpTo(n, s', m) == LeftUpTo(n, s, m) + if j < m
            then Left(n.kinds[j], s'.jobs[j].pc) - Left(n.kinds[j], s.jobs[j].pc) else 0
    decreases m
  {
    if m > 0 { LeftAfter(n, s, s', j, m - 1); }
  }

  lemma {:induction false} LeftNonNegative(n: Nesting, s: State, m: nat)
    requires n.Valid() && Inv(n, s) && m <= |s.jobs|
    ensures LeftUpTo(n, s, m) >= 0
    decreases m
  {
    if m > 0 {
      LeftNonNegative(n, s, m - 1);
      assert JobOk(n.kinds[m - 1], s.jobs[m - 1]);
    }
  }

  /** Every step is progress. */
  lemma StepDecreasesWork(n: Nesting, s: State, step: Step)
    requires n.Valid() && Inv(n, s) && Enabled(n, s, step)
    ensures |Apply(n, s, step).jobs| == |n.kinds| && Work(n, Apply(n, s, step)) < Work(n, s)
  {
    var s' := Apply(n, s, step);
    StepKeepsInv(n, s, step);
    if step.RequestRoot? {
      LeftAfter(n, s, s', n.Root(), |s.jobs|);
    } else {
      LeftAfter(n, s, s', step.job, |s.jobs|);
    }
  }

  /** Runs are finite: there is a bound on their length. */
  lemma {:induction false} RunsAreBounded(n: Nesting, steps: seq<Step>, s: State)
    requires n.Valid() && Reaches(n, steps, s)
    ensures |s.jobs| == |n.kinds| && 0 <= Work(n, s) <= Work(n, n.Initial()) - |steps|
    decreases |steps|
  {
    EveryRunKeepsInv(n, steps, s);
    LeftNonNegative(n, s, |s.jobs|);
    if steps != [] {
      var s0 := After(n, steps[..|steps| - 1]).value;
      EveryRunKeepsInv(n, steps[..|steps| - 1], s0);
      RunsAreBounded(n, steps[..|steps| - 1], s0);
      StepDecreasesWork(n, s0, steps[|steps| - 1]);
    }
  }

  /** A job that was asked to stop and has not stopped yet can take a step, or one of its parts can. */
  lemma {:induction false} SomeStep(n: Nesting, s: State, j: nat)
    requires n.Valid() && Inv(n, s) && j < |s.jobs| && s.jobs[j].stop && !s.jobs[j].closed
    ensures exists step: Step :: !step.RequestRoot? && Enabled(n, s, step)
    decreases j
  {
    assert JobOk(n.kinds[j], s.jobs[j]);
    match s.jobs[j].pc {
      case Waiting => assert Enabled(n, s, Observe(j));
      case Running => assert Enabled(n, s, Finish(j));
      case Requesting(_) => assert Enabled(n, s, Request(j));
      case AwaitingStop(k) =>
        if n.IsPart(j, k) && !s.jobs[n.Part(j, k)].closed {
          assert PartOk(s.jobs[j], k, s.jobs[n.Part(j, k)]);
          SomeStep(n, s, n.Part(j, k));
        } else {
          assert Enabled(n, s, Await(j));
        }
      case Closing => assert Enabled(n, s, Close(j));
    }
  }

  /** A run that cannot go on has stopped the root and everything below it. */
  lemma RunsEndClosed(n: Nesting, steps: seq<Step>, s: State)
    requires n.Valid() && Reaches(n, steps, s)
    requires |s.jobs| == |n.kinds| && forall step: Step :: !Enabled(n, s, step)
    ensures s.jobs[n.Root()].closed
  {
    EveryRunKeepsInv(n, steps, s);
    assert !Enabled(n, s, RequestRoot);
    if !s.jobs[n.Root()].closed { SomeStep(n, s, n.Root()); }
  }
}
