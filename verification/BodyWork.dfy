/** Admission of body work: a bounded queue of charged jobs in front of two permits. */
module BodyWork {
  import opened Basics
  import opened Sums

  const ACTIVE_LIMIT: nat := 2
  const QUEUED_LIMIT: nat := 8
  const QUEUED_BYTES_LIMIT: nat := 32 * 1024 * 1024

  datatype Refusal = QueueFull | QueueBytes(requested: nat, queued: nat)

  datatype Verdict = Admitted | Refused(why: Refusal)

  // ---------------------------------------------------------------------------------------
  // Leases under concurrency

  /** Where one job is. `Freeing` has cleared its own charge flag but not yet taken the queue lock;
      it becomes active, or is gone if it was cancelled, timed out or dropped while queued. */
  datatype Stage =
    | Queued
    | Permitted
    | Counted
    | Freeing(active: bool)
    | Active
    | Leaving
    | Gone

  /** `releases` counts how often the job's charge went back to the queue. */
  datatype Job = Job(input: nat, stage: Stage, releases: nat) {
    predicate Owes() { stage.Queued? || stage.Permitted? || stage.Counted? || stage.Freeing? }
    predicate HasPermit() {
      stage.Permitted? || stage.Counted? || (stage.Freeing? && stage.active) || stage.Active? || stage.Leaving?
    }
    predicate IsActive() { stage.Counted? || (stage.Freeing? && stage.active) || stage.Active? }
  }

  datatype World = World(jobs: nat, bytes: nat, permits: nat, active: nat, rejected: nat, all: seq<Job>)

  datatype Step =
    | TryQueue(input: nat)
    | Grant(job: nat)
    | CountActive(job: nat)
    | Discharge(job: nat)
    | Release(job: nat)
    | Leave(job: nat)
    | ReturnPermit(job: nat)

  const START: World := World(0, 0, 0, 0, 0, [])

  function OwesOne(j: Job): nat { if j.Owes() then 1 else 0 }

  function OwesBytes(j: Job): nat { if j.Owes() then j.input else 0 }

  function PermitOne(j: Job): nat { if j.HasPermit() then 1 else 0 }

  function ActiveOne(j: Job): nat { if j.IsActive() then 1 else 0 }

  predicate Enabled(w: World, s: Step) {
    match s
    case TryQueue(_) => true
    case Grant(j) => j < |w.all| && w.all[j].stage.Queued? && w.permits < ACTIVE_LIMIT
    case CountActive(j) => j < |w.all| && w.all[j].stage.Permitted?
    case Discharge(j) => j < |w.all| && (w.all[j].stage.Counted? || w.all[j].stage.Queued?)
    case Release(j) => j < |w.all| && w.all[j].stage.Freeing?
    case Leave(j) => j < |w.all| && w.all[j].stage.Active?
    case ReturnPermit(j) => j < |w.all| && w.all[j].stage.Leaving?
  }

  function Move(w: World, j: nat, stage: Stage): World
    requires j < |w.all|
  {
    w.(all := w.all[j := w.all[j].(stage := stage)])
  }

  /** One atomic step; the subtractions are the code's saturating ones. */
  function Take(w: World, s: Step): World
    requires Enabled(w, s)
  {
    match s
    case TryQueue(input) =>
      if w.jobs < QUEUED_LIMIT && w.bytes + input <= QUEUED_BYTES_LIMIT
      then w.(jobs := w.jobs + 1, bytes := w.bytes + input, all := w.all + [Job(input, Queued, 0)])
      else w.(rejected := w.rejected + 1)
    case Grant(j) => Move(w, j, Permitted).(permits := w.permits + 1)
    case CountActive(j) => Move(w, j, Counted).(active := w.active + 1)
    case Discharge(j) => Move(w, j, Freeing(w.all[j].stage.Counted?))
    case Release(j) =>
      var job := w.all[j];
      w.(jobs := Minus(w.jobs, 1), bytes := Minus(w.bytes, job.input),
         all := w.all[j := Job(job.input, if job.stage.active then Active else Gone, job.releases + 1)])
    case Leave(j) => Move(w, j, Leaving).(active := Minus(w.active, 1))
    case ReturnPermit(j) => Move(w, j, Gone).(permits := Minus(w.permits, 1))
  }

  ghost predicate Inv(w: World) {
    && w.jobs == Sum(w.all, OwesOne) && w.jobs <= QUEUED_LIMIT
    && w.bytes == Sum(w.all, OwesBytes) && w.bytes <= QUEUED_BYTES_LIMIT
    && w.permits == Sum(w.all, PermitOne) && w.permits <= ACTIVE_LIMIT
    && w.active == Sum(w.all, ActiveOne) && w.active <= w.permits
    && (forall j :: 0 <= j < |w.all| ==> w.all[j].releases == 1 - OwesOne(w.all[j]))
  }

  lemma JobMoves(w: World, j: nat, job: Job)
    requires j < |w.all|
    ensures var all := w.all[j := job];
            && Sum(all, OwesOne) + OwesOne(w.all[j]) == Sum(w.all, OwesOne) + OwesOne(job)
            && Sum(all, OwesBytes) + OwesBytes(w.all[j]) == Sum(w.all, OwesBytes) + OwesBytes(job)
            && Sum(all, PermitOne) + PermitOne(w.all[j]) == Sum(w.all, PermitOne) + PermitOne(job)
            && Sum(all, ActiveOne) + ActiveOne(w.all[j]) == Sum(w.all, ActiveOne) + ActiveOne(job)
    ensures OwesOne(w.all[j]) <= Sum(w.all, OwesOne) && OwesBytes(w.all[j]) <= Sum(w.all, OwesBytes)
    ensures PermitOne(w.all[j]) <= Sum(w.all, PermitOne) && ActiveOne(w.all[j]) <= Sum(w.all, ActiveOne)
  {
    SumUpdate(w.all, j, job, OwesOne);
    SumUpdate(w.all, j, job, OwesBytes);
    SumUpdate(w.all, j, job, PermitOne);
    SumUpdate(w.all, j, job, ActiveOne);
    SumAtLeast(w.all, j, OwesOne);
    SumAtLeast(w.all, j, OwesBytes);
    SumAtLeast(w.all, j, PermitOne);
    SumAtLeast(w.all, j, ActiveOne);
  }

  /** Whoever is active has a permit. */
  lemma {:induction false} ActiveWithinPermits(all: seq<Job>)
    ensures Sum(all, ActiveOne) <= Sum(all, PermitOne)
  {
    if all != [] { ActiveWithinPermits(all[..|all| - 1]); }
  }

  /** A change of one job with the matching change of the counters keeps the invariant. */
  lemma JobChanged(w: World, w': World, j: nat)
    requires Inv(w) && j < |w.all| && |w'.all| == |w.all| && w'.all == w.all[j := w'.all[j]]
    requires w'.jobs + OwesOne(w.all[j]) == w.jobs + OwesOne(w'.all[j]) && w'.jobs <= QUEUED_LIMIT
    requires w'.bytes + OwesBytes(w.all[j]) == w.bytes + OwesBytes(w'.all[j]) && w'.bytes <= QUEUED_BYTES_LIMIT
    requires w'.permits + PermitOne(w.all[j]) == w.permits + PermitOne(w'.all[j]) && w'.permits <= ACTIVE_LIMIT
    requires w'.active + ActiveOne(w.all[j]) == w.active + ActiveOne(w'.all[j])
    requires w'.all[j].releases == 1 - OwesOne(w'.all[j])
    ensures Inv(w')
  {
    hide Sum;
    JobMoves(w, j, w'.all[j]);
    ActiveWithinPermits(w'.all);
  }

  lemma StepInv(w: World, s: Step)
    requires Inv(w) && Enabled(w, s)
    ensures Inv(Take(w, s))
  {
    hide Sum;
    if s.TryQueue? {
      var job := Job(s.input, Queued, 0);
      SumAppend(w.all, job, OwesOne);
      SumAppend(w.all, job, OwesBytes);
      SumAppend(w.all, job, PermitOne);
      SumAppend(w.all, job, ActiveOne);
    } else {
      JobMoves(w, s.job, w.all[s.job]);
      JobChanged(w, Take(w, s), s.job);
    }
  }

  predicate Legal(w: World, steps: seq<Step>)
    decreases |steps|
  {
    steps == [] || (Enabled(w, steps[0]) && Legal(Take(w, steps[0]), steps[1..]))
  }

  function Reach(w: World, steps: seq<Step>): World
    requires Legal(w, steps)
    decreases |steps|
  {
    if steps == [] then w else Reach(Take(w, steps[0]), steps[1..])
  }

  lemma {:induction false} ReachInv(w: World, steps: seq<Step>)
    requires Inv(w) && Legal(w, steps)
    ensures Inv(Reach(w, steps))
    decreases |steps|
  {
    hide Inv, Take, Enabled;
    if steps != [] {
      StepInv(w, steps[0]);
      ReachInv(Take(w, steps[0]), steps[1..]);
    }
  }

  /** The admission protocol over all runs: the queue counters are the count and the sum over the
      jobs still charged and stay within their limits, active jobs all hold one of the two permits,
      every charge goes back exactly once, and no saturating subtraction ever has to saturate. */
  lemma AdmissionSafe(steps: seq<Step>)
    requires Legal(START, steps)
    ensures var w := Reach(START, steps);
            && w.jobs == Sum(w.all, OwesOne) && w.bytes == Sum(w.all, OwesBytes)
            && w.jobs <= 8 && w.bytes <= 32 * 1024 * 1024
            && w.active == Sum(w.all, ActiveOne) <= w.permits == Sum(w.all, PermitOne) <= 2
            && (forall j :: 0 <= j < |w.all| ==> w.all[j].releases == if w.all[j].Owes() then 0 else 1)
            && (forall j: nat :: Enabled(w, Release(j)) ==> w.jobs >= 1 && w.bytes >= w.all[j].input)
            && (forall j: nat :: Enabled(w, Leave(j)) ==> w.active >= 1)
            && (forall j: nat :: Enabled(w, ReturnPermit(j)) ==> w.permits >= 1)
  {
    hide Legal, Reach;
    ReachInv(START, steps);
    var w := Reach(START, steps);
    forall j | 0 <= j < |w.all|
      ensures OwesOne(w.all[j]) <= w.jobs && OwesBytes(w.all[j]) <= w.bytes
      ensures PermitOne(w.all[j]) <= w.permits && ActiveOne(w.all[j]) <= w.active
      ensures w.all[j].releases == if w.all[j].Owes() then 0 else 1
    {
      JobMoves(w, j, w.all[j]);
    }
  }

  /** A queued job can always get out of the queue: its charge is returned by two steps nobody
      can block, so no run leaks queue capacity. */
  lemma QueueDrains(w: World, j: nat)
    requires Inv(w) && j < |w.all| && w.all[j].stage.Queued?
    ensures Enabled(w, Discharge(j))
    ensures var w1 := Take(w, Discharge(j));
            Enabled(w1, Release(j)) &&
            var w2 := Take(w1, Release(j));
            w2.jobs == w.jobs - 1 && w2.bytes == w.bytes - w.all[j].input && w2.all[j].stage.Gone?
  {
    JobMoves(w, j, w.all[j]);
  }

  // ---------------------------------------------------------------------------------------
  // The counters

  lemma Counters(w: World)
    requires Inv(w)
    ensures w.jobs == Sum(w.all, OwesOne) <= QUEUED_LIMIT && w.bytes == Sum(w.all, OwesBytes) <= QUEUED_BYTES_LIMIT
  {
  }

  /** What is behind the queue lock, in a world of jobs. */
  class Admission {
    var jobs: nat
    var bytes: nat
    var rejected: nat
    ghost var world: World

    ghost predicate Valid()
      reads this
    {
      Inv(world) && jobs == world.jobs && bytes == world.bytes && rejected == world.rejected
    }

    constructor ()
      ensures Valid() && world == START
    {
      jobs, bytes, rejected, world := 0, 0, 0, START;
    }

    /** `try_queue` is the machine's step. It refuses a job as one too many exactly when eight are
        charged already, and for its size exactly when there are fewer, but their input and its own
        exceed what may wait; every refusal is counted. */
    method TryQueue(input: nat) returns (v: Verdict)
      requires Valid()
      modifies this
      ensures Valid() && world == Take(old(world), Step.TryQueue(input))
      ensures v.Admitted? ==> world.all == old(world).all + [Job(input, Queued, 0)] && rejected == old(rejected)
      ensures v.Refused? ==> world.all == old(world).all && rejected == old(rejected) + 1
      ensures v == Refused(QueueFull) <==> Sum(old(world).all, OwesOne) == 8
      ensures (v.Refused? && v.why.QueueBytes?) <==>
                && Sum(old(world).all, OwesOne) < 8
                && Sum(old(world).all, OwesBytes) + input > 32 * 1024 * 1024
      ensures v.Refused? && v.why.QueueBytes? ==> v.why == QueueBytes(input, Sum(old(world).all, OwesBytes))
    {
      hide Sum, Inv;
      Counters(world);
      StepInv(world, Step.TryQueue(input));
      Counters(Take(world, Step.TryQueue(input)));
      world := Take(world, Step.TryQueue(input));
      if jobs >= QUEUED_LIMIT {
        rejected := rejected + 1;
        return Refused(QueueFull);
      }
      var next := bytes + input;
      if next > QUEUED_BYTES_LIMIT {
        rejected := rejected + 1;
        return Refused(QueueBytes(input, bytes));
      }
      jobs := jobs + 1;
      bytes := next;
      return Admitted;
    }

    /** `release_queued` for job `j`, whose own charge flag has been cleared. */
    method ReleaseQueued(ghost j: nat, input: nat)
      requires Valid() && Enabled(world, Release(j)) && world.all[j].input == input
      modifies this`jobs, this`bytes, this`world
      ensures Valid() && world == Take(old(world), Release(j))
      ensures jobs == old(jobs) - 1 && bytes == old(bytes) - input
    {
      StepInv(world, Release(j));
      JobMoves(world, j, world.all[j]);
      world := Take(world, Release(j));
      jobs := Minus(jobs, 1);
      bytes := Minus(bytes, input);
    }

    /** Nothing else touches these counters. */
    ghost method Elsewhere(s: Step)
      requires Valid() && Enabled(world, s) && !s.TryQueue? && !s.Release?
      modifies this`world
      ensures Valid() && world == Take(old(world), s)
    {
      StepInv(world, s);
      world := Take(world, s);
    }
  }
}
