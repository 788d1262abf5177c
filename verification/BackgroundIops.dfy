/** The background IOPS jobs of pkg/collect/host_filesystem_performance_linux.go: goroutines
    that share a fixed-window rate limiter, a preparation barrier and a completion channel.

    The goroutines are a transition system. A schedule is any list of steps: the clock being
    set to any value, the collector's own goroutine doing its next step, or one job doing its
    next step with a system call that succeeds or fails. What is proved of Exec for every
    schedule is proved of every interleaving. */
module BackgroundIops {
  import opened Options

  const SECOND := 1_000_000_000

  /** time.Time.Unix of a clock in nanoseconds. */
  function Unix(clock: int): int {
    clock / SECOND
  }

  /** Where a job is. The mutex is held in Locked, Stamped and Counted. */
  datatype Job =
    | NotStarted
    | Opening
    | OpenFailed           // the file could not be created
    | Preparing            // the file exists and is being filled or resized
    | PrepareFailed
    | Prepared             // about to call wg.Done
    | Top                  // about to look at the context
    | Locking
    | Locked               // about to read the clock
    | Stamped(time: int)   // has read the clock
    | Counted              // has incremented its window, about to unlock
    | Operating            // the admitted read or write
    | Sleeping(key: int)   // turned away from window key
    | Removing
    | Sending
    | Finished
  {
    /** Started and not yet past its call of wg.Done. */
    predicate Pending() {
      Opening? || OpenFailed? || Preparing? || PrepareFailed? || Prepared?
    }

    predicate InLoop() {
      Top? || Locking? || Locked? || Stamped? || Counted? || Operating? || Sleeping?
    }

    predicate HasFile() {
      Preparing? || PrepareFailed? || Prepared? || InLoop() || Removing?
    }

    predicate HoldsMutex() {
      Locked? || Stamped? || Counted?
    }

    /** How far the job is from its end once the context is cancelled. */
    function Rank(): nat {
      match this
      case Finished => 0
      case Sending => 1
      case Removing => 2
      case Top => 3
      case Operating => 4
      case Sleeping(_) => 4
      case Counted => 5
      case Stamped(_) => 6
      case Locked => 7
      case Locking => 8
      case _ => 9
    }
  }

  /** One call of backgroundIOPS: its jobs and the variables they share. The last six fields
      are records: the admission times in order, how often each job called wg.Done and sent on
      the channel, the jobs whose work file exists, and how many admitted operations were performed
      or given up for want of data to write. */
  datatype Pool = Pool(
    jobs: seq<Job>,
    started: nat,
    wg: int,
    mutex: Option<nat>,
    windows: map<int, nat>,
    admissions: seq<int>,
    wgDones: seq<nat>,
    sends: seq<nat>,
    files: set<nat>,
    operations: nat,
    abandoned: nat)
  {
    function Window(key: int): nat {
      if key in windows then windows[key] else 0
    }

    function At(i: nat, job: Job): Pool
      requires i < |jobs|
    {
      this.(jobs := jobs[i := job])
    }
  }

  function NewPool(n: nat): Pool {
    Pool(seq(n, _ => NotStarted), 0, 0, None, map[], [], seq(n, _ => 0), seq(n, _ => 0), {}, 0, 0)
  }

  /** wg.Add and the go statement of the next job. */
  function Spawn(p: Pool): Pool
    requires p.started < |p.jobs|
  {
    p.(jobs := p.jobs[p.started := Opening], started := p.started + 1, wg := p.wg + 1)
  }

  function WgDone(p: Pool, i: nat): Pool
    requires i < |p.wgDones|
  {
    p.(wg := p.wg - 1, wgDones := p.wgDones[i := p.wgDones[i] + 1])
  }

  /** What a job sees of the world outside its pool: the kind of job, the limit, the context,
      the clock and whether the channel has room. */
  datatype Outside = Outside(read: bool, limit: int, cancelled: bool, clock: int, room: bool)

  /** The next step of job i while it prepares its file. ok is the result of its system call. */
  function PrepareStep(o: Outside, p: Pool, i: nat, ok: bool): Pool
    requires i < |p.jobs| == |p.wgDones| && p.jobs[i].Pending()
  {
    match p.jobs[i]
    case Opening => if ok then p.At(i, Preparing).(files := p.files + {i}) else p.At(i, OpenFailed)
    case Preparing => p.At(i, if o.read && !ok then PrepareFailed else Prepared)
    case OpenFailed => WgDone(p, i).At(i, Sending)
    case PrepareFailed => WgDone(p, i).At(i, Removing)
    case Prepared => WgDone(p, i).At(i, Top)
  }

  /** The next step of job i in its loop, None when it cannot move. A sleep may end at any time: it
      lasts for a duration computed before it, which the clock can outrun or, set back, not reach. */
  function LoopStep(o: Outside, p: Pool, i: nat, ok: bool): Option<Pool>
    requires i < |p.jobs| && p.jobs[i].InLoop()
  {
    match p.jobs[i]
    case Top => Some(p.At(i, if o.cancelled then Removing else Locking))
    case Locking => if p.mutex == None then Some(p.At(i, Locked).(mutex := Some(i))) else None
    case Locked => Some(p.At(i, Stamped(o.clock)))
    case Stamped(time) =>
      if p.Window(Unix(time)) >= o.limit then Some(p.At(i, Sleeping(Unix(time))).(mutex := None))
      else Some(Admit(p, time).At(i, Counted))
    case Counted => Some(p.At(i, Operating).(mutex := None))
    case Operating =>
      Some(if o.read || ok then p.At(i, Top).(operations := p.operations + 1)
           else p.At(i, Removing).(abandoned := p.abandoned + 1))
    case Sleeping(_) => Some(p.At(i, Top))
  }

  function Admit(p: Pool, time: int): Pool {
    var key := Unix(time);
    p.(windows := p.windows[key := p.Window(key) + 1], admissions := p.admissions + [time])
  }

  /** The deferred calls of job i: removing its file, then sending on the channel. */
  function EndStep(o: Outside, p: Pool, i: nat): Option<Pool>
    requires i < |p.jobs| == |p.sends| && (p.jobs[i].Removing? || p.jobs[i].Sending?)
  {
    if p.jobs[i].Removing? then Some(p.At(i, Sending).(files := p.files - {i}))
    else if o.room then Some(p.At(i, Finished).(sends := p.sends[i := p.sends[i] + 1]))
    else None
  }

  /** The next step of job i, None when it cannot move. */
  function JobStep(o: Outside, p: Pool, i: nat, ok: bool): Option<Pool>
    requires i < |p.jobs| == |p.wgDones| == |p.sends|
  {
    var job := p.jobs[i];
    if job.Pending() then Some(PrepareStep(o, p, i, ok))
    else if job.InLoop() then LoopStep(o, p, i, ok)
    else if job.Removing? || job.Sending? then EndStep(o, p, i)
    else None
  }

  function Count(jobs: seq<Job>, p: Job -> bool): (n: nat)
    ensures n <= |jobs|
  {
    if jobs == [] then 0 else Count(jobs[1..], p) + if p(jobs[0]) then 1 else 0
  }

  lemma {:induction false} CountUpdate(jobs: seq<Job>, p: Job -> bool, i: nat, job: Job)
    requires i < |jobs|
    ensures Count(jobs[i := job], p) ==
            Count(jobs, p) - (if p(jobs[i]) then 1 else 0) + (if p(job) then 1 else 0)
  {
    if i == 0 {
      assert jobs[i := job][1..] == jobs[1..];
    } else {
      CountUpdate(jobs[1..], p, i - 1, job);
      assert jobs[i := job][1..] == jobs[1..][i - 1 := job];
    }
  }

  lemma {:induction false} CountNone(jobs: seq<Job>, p: Job -> bool)
    ensures Count(jobs, p) == 0 <==> forall i :: 0 <= i < |jobs| ==> !p(jobs[i])
  {
    if jobs != [] {
      CountNone(jobs[1..], p);
      assert forall i :: 1 <= i < |jobs| ==> jobs[i] == jobs[1..][i - 1];
    }
  }

  lemma {:induction false} CountAll(jobs: seq<Job>, p: Job -> bool)
    ensures Count(jobs, p) == |jobs| <==> forall i :: 0 <= i < |jobs| ==> p(jobs[i])
  {
    if jobs != [] {
      CountAll(jobs[1..], p);
      assert forall i :: 1 <= i < |jobs| ==> jobs[i] == jobs[1..][i - 1];
    }
  }

  const PENDING: Job -> bool := (job: Job) => job.Pending()
  const FINISHED: Job -> bool := (job: Job) => job.Finished?

  /** How many admissions have a stamp in [from, to). */
  function Stamps(admissions: seq<int>, from: int, to: int): nat {
    if admissions == [] then 0
    else Stamps(admissions[1..], from, to) + if from <= admissions[0] < to then 1 else 0
  }

  lemma {:induction false} StampsAppend(admissions: seq<int>, time: int, from: int, to: int)
    ensures Stamps(admissions + [time], from, to) ==
            Stamps(admissions, from, to) + if from <= time < to then 1 else 0
  {
    if admissions == [] {
    } else {
      StampsAppend(admissions[1..], time, from, to);
      assert (admissions + [time])[1..] == admissions[1..] + [time];
    }
  }

  lemma {:induction false} StampsCover(admissions: seq<int>, from: int, to: int, low: int, mid: int, high: int)
    requires low <= from && to <= high
    ensures Stamps(admissions, from, to) <= Stamps(admissions, low, mid) + Stamps(admissions, mid, high)
  {
    if admissions != [] {
      StampsCover(admissions[1..], from, to, low, mid, high);
    }
  }

  function Max(a: int, b: int): int {
    if a < b then b else a
  }

  /** Each window's counter is the number of admissions stamped with that second, and the
      limit bounds it. */
  ghost predicate WindowsInv(limit: int, p: Pool) {
    forall key: int ::
      p.Window(key) == Stamps(p.admissions, key * SECOND, (key + 1) * SECOND) && p.Window(key) <= Max(0, limit)
  }

  ghost predicate MutexInv(p: Pool) {
    && (forall i :: 0 <= i < |p.jobs| ==> (p.jobs[i].HoldsMutex() <==> p.mutex == Some(i)))
    && (p.mutex.Some? ==> p.mutex.value < |p.jobs|)
  }

  ghost predicate JobInv(p: Pool, i: nat)
    requires i < |p.jobs| == |p.wgDones| == |p.sends|
  {
    var job := p.jobs[i];
    && (job.NotStarted? <==> p.started <= i)
    && (i in p.files <==> job.HasFile())
    && p.wgDones[i] == (if job.NotStarted? || job.Pending() then 0 else 1)
    && p.sends[i] == (if job.Finished? then 1 else 0)
  }

  ghost predicate PoolInv(limit: int, p: Pool) {
    && |p.jobs| == |p.wgDones| == |p.sends|
    && p.started <= |p.jobs|
    && p.wg == Count(p.jobs, PENDING)
    && WindowsInv(limit, p)
    && MutexInv(p)
    && (forall i :: 0 <= i < |p.jobs| ==> JobInv(p, i))
    && (forall i :: i in p.files ==> i < |p.jobs|)
  }

  lemma NewPoolInv(limit: int, n: nat)
    ensures PoolInv(limit, NewPool(n))
  {
    CountNone(NewPool(n).jobs, PENDING);
  }

  lemma SpawnInv(limit: int, p: Pool)
    requires PoolInv(limit, p) && p.started < |p.jobs|
    ensures PoolInv(limit, Spawn(p))
    ensures Count(Spawn(p).jobs, FINISHED) == Count(p.jobs, FINISHED)
  {
    assert JobInv(p, p.started);
    CountUpdate(p.jobs, PENDING, p.started, Opening);
    CountUpdate(p.jobs, FINISHED, p.started, Opening);
    SameWindows(limit, p, Spawn(p));
    forall i | 0 <= i < |p.jobs|
      ensures JobInv(Spawn(p), i)
    {
      assert JobInv(p, i);
    }
  }

  lemma SameWindows(limit: int, p: Pool, q: Pool)
    requires WindowsInv(limit, p) && q.windows == p.windows && q.admissions == p.admissions
    ensures WindowsInv(limit, q)
  {
    assert forall key: int :: q.Window(key) == p.Window(key);
  }

  lemma AdmitInv(limit: int, p: Pool, time: int)
    requires WindowsInv(limit, p) && p.Window(Unix(time)) < limit
    ensures WindowsInv(limit, Admit(p, time))
  {
    var q := Admit(p, time);
    forall key: int
      ensures q.Window(key) == Stamps(q.admissions, key * SECOND, (key + 1) * SECOND)
      ensures q.Window(key) <= Max(0, limit)
    {
      StampsAppend(p.admissions, time, key * SECOND, (key + 1) * SECOND);
      assert p.Window(key) == Stamps(p.admissions, key * SECOND, (key + 1) * SECOND) && p.Window(key) <= Max(0, limit);
      assert key * SECOND <= time < (key + 1) * SECOND <==> key == Unix(time);
    }
  }

  /** What a step of job i may change: only its own entries, from a state that was consistent
      to one that is. */
  ghost predicate Moves(limit: int, p: Pool, i: nat, q: Pool)
    requires PoolInv(limit, p) && i < |p.jobs|
  {
    && |q.wgDones| == |q.sends| == |q.jobs| == |p.jobs|
    && q.started == p.started
    && q.jobs == p.jobs[i := q.jobs[i]]
    && q.wg == p.wg - (if p.jobs[i].Pending() then 1 else 0) + (if q.jobs[i].Pending() then 1 else 0)
    && (forall k :: k != i ==> (k in q.files <==> k in p.files))
    && (forall k :: 0 <= k < |p.jobs| && k != i ==> q.wgDones[k] == p.wgDones[k] && q.sends[k] == p.sends[k])
    && JobInv(q, i)
    && (p.jobs[i].Pending() || !q.jobs[i].Pending())
    && !p.jobs[i].Finished? && (q.jobs[i].Finished? <==> p.jobs[i].Sending?)
  }

  lemma MovesKeepsInv(limit: int, p: Pool, i: nat, q: Pool)
    requires PoolInv(limit, p) && i < |p.jobs| && Moves(limit, p, i, q)
    requires MutexInv(q) && WindowsInv(limit, q)
    ensures PoolInv(limit, q) && q.wg <= p.wg
    ensures Count(q.jobs, FINISHED) == Count(p.jobs, FINISHED) + if p.jobs[i].Sending? then 1 else 0
  {
    CountUpdate(p.jobs, PENDING, i, q.jobs[i]);
    CountUpdate(p.jobs, FINISHED, i, q.jobs[i]);
    assert JobInv(p, i);
    forall k | 0 <= k < |q.jobs|
      ensures JobInv(q, k)
    {
      assert JobInv(p, k);
    }
  }

  lemma PrepareStepMoves(o: Outside, p: Pool, i: nat, ok: bool)
    requires PoolInv(o.limit, p) && i < |p.jobs| && p.jobs[i].Pending()
    ensures var q := PrepareStep(o, p, i, ok);
            Moves(o.limit, p, i, q) && MutexInv(q) && WindowsInv(o.limit, q)
  {
    assert JobInv(p, i);
    SameWindows(o.limit, p, PrepareStep(o, p, i, ok));
  }

  lemma LoopStepMoves(o: Outside, p: Pool, i: nat, ok: bool)
    requires PoolInv(o.limit, p) && i < |p.jobs| && p.jobs[i].InLoop() && LoopStep(o, p, i, ok).Some?
    ensures var q := LoopStep(o, p, i, ok).value;
            Moves(o.limit, p, i, q) && MutexInv(q) && WindowsInv(o.limit, q)
  {
    var q := LoopStep(o, p, i, ok).value;
    assert JobInv(p, i);
    if p.jobs[i].Stamped? && p.Window(Unix(p.jobs[i].time)) < o.limit {
      var admitted := Admit(p, p.jobs[i].time);
      AdmitInv(o.limit, p, p.jobs[i].time);
      SameWindows(o.limit, admitted, q);
    } else {
      SameWindows(o.limit, p, q);
    }
  }

  lemma EndStepMoves(o: Outside, p: Pool, i: nat)
    requires PoolInv(o.limit, p) && i < |p.jobs| && (p.jobs[i].Removing? || p.jobs[i].Sending?)
    requires EndStep(o, p, i).Some?
    ensures var q := EndStep(o, p, i).value;
            Moves(o.limit, p, i, q) && MutexInv(q) && WindowsInv(o.limit, q)
  {
    assert JobInv(p, i);
    SameWindows(o.limit, p, EndStep(o, p, i).value);
  }

  /** Every step of every job keeps the invariant of its pool. */
  lemma JobStepInv(o: Outside, p: Pool, i: nat, ok: bool)
    requires PoolInv(o.limit, p) && i < |p.jobs| && JobStep(o, p, i, ok).Some?
    ensures var q := JobStep(o, p, i, ok).value;
            && PoolInv(o.limit, q) && q.wg <= p.wg
            && |q.jobs| == |p.jobs| && q.started == p.started
            && Count(q.jobs, FINISHED) == Count(p.jobs, FINISHED) + if p.jobs[i].Sending? then 1 else 0
  {
    if p.jobs[i].Pending() {
      PrepareStepMoves(o, p, i, ok);
    } else if p.jobs[i].InLoop() {
      LoopStepMoves(o, p, i, ok);
    } else {
      EndStepMoves(o, p, i);
    }
    MovesKeepsInv(o.limit, p, i, JobStep(o, p, i, ok).value);
  }

  /** The collector's goroutine. It cancels the context when it starts to drain. */
  datatype Main =
    | SpawningReads
    | AwaitingReads
    | SpawningWrites
    | AwaitingWrites
    | Running
    | Draining(received: nat)
    | Returned
  {
    predicate Cancelled() {
      Draining? || Returned?
    }

    /** How many completions have been received from the channel. */
    function Received(jobs: nat): nat {
      if Returned? then jobs else if Draining? then received else 0
    }
  }

  datatype Config = Config(readJobs: nat, readLimit: int, writeJobs: nat, writeLimit: int) {
    /** The capacity of the done channel, and the number of receives of the drain loop. */
    function Jobs(): nat {
      readJobs + writeJobs
    }
  }

  datatype State = State(clock: int, main: Main, readPool: Pool, writePool: Pool, queued: nat)

  function Init(c: Config): State {
    State(0, SpawningReads, NewPool(c.readJobs), NewPool(c.writeJobs), 0)
  }

  datatype Step = Tick(clock: int) | MainStep | ReadJob(i: nat, ok: bool) | WriteJob(i: nat, ok: bool)

  function OutsideOf(c: Config, s: State, read: bool): Outside {
    Outside(read, if read then c.readLimit else c.writeLimit, s.main.Cancelled(), s.clock, s.queued < c.Jobs())
  }

  predicate WellFormed(p: Pool) {
    |p.jobs| == |p.wgDones| == |p.sends|
  }

  function NextMain(c: Config, s: State): Option<State> {
    match s.main
    case SpawningReads =>
      Some(if s.readPool.started < |s.readPool.jobs| then s.(readPool := Spawn(s.readPool))
           else s.(main := AwaitingReads))
    case AwaitingReads => if s.readPool.wg == 0 then Some(s.(main := SpawningWrites)) else None
    case SpawningWrites =>
      Some(if s.writePool.started < |s.writePool.jobs| then s.(writePool := Spawn(s.writePool))
           else s.(main := AwaitingWrites))
    case AwaitingWrites => if s.writePool.wg == 0 then Some(s.(main := Running)) else None
    case Running => Some(s.(main := Draining(0)))
    case Draining(received) =>
      if received == c.Jobs() then Some(s.(main := Returned))
      else if s.queued > 0 then Some(s.(main := Draining(received + 1), queued := s.queued - 1))
      else None
    case Returned => None
  }

  /** The state after a step, None when the step cannot be taken. */
  function Next(c: Config, s: State, step: Step): Option<State> {
    match step
    case Tick(clock) => Some(s.(clock := clock))
    case MainStep => NextMain(c, s)
    case ReadJob(i, ok) =>
      if i < |s.readPool.jobs| && WellFormed(s.readPool) then
        match JobStep(OutsideOf(c, s, true), s.readPool, i, ok)
        case None => None
        case Some(p) => Some(s.(readPool := p, queued := s.queued + if s.readPool.jobs[i].Sending? then 1 else 0))
      else None
    case WriteJob(i, ok) =>
      if i < |s.writePool.jobs| && WellFormed(s.writePool) then
        match JobStep(OutsideOf(c, s, false), s.writePool, i, ok)
        case None => None
        case Some(p) => Some(s.(writePool := p, queued := s.queued + if s.writePool.jobs[i].Sending? then 1 else 0))
      else None
  }

  /** The state a schedule leads to from s, None when one of its steps cannot be taken. */
  function Exec(c: Config, s: State, schedule: seq<Step>): Option<State>
    decreases |schedule|
  {
    if schedule == [] then Some(s)
    else
      match Next(c, s, schedule[0])
      case None => None
      case Some(s') => Exec(c, s', schedule[1..])
  }

  ghost predicate Reachable(c: Config, s: State) {
    exists schedule: seq<Step> :: Exec(c, Init(c), schedule) == Some(s)
  }

  /** Every job of the pool has been started and has called wg.Done. */
  predicate Ready(p: Pool) {
    p.started == |p.jobs| && p.wg == 0
  }

  function FinishedJobs(s: State): nat {
    Count(s.readPool.jobs, FINISHED) + Count(s.writePool.jobs, FINISHED)
  }

  ghost predicate Inv(c: Config, s: State) {
    && PoolInv(c.readLimit, s.readPool) && |s.readPool.jobs| == c.readJobs
    && PoolInv(c.writeLimit, s.writePool) && |s.writePool.jobs| == c.writeJobs
    && s.main.Received(c.Jobs()) <= c.Jobs()
    && s.queued + s.main.Received(c.Jobs()) == FinishedJobs(s)
    && (s.main.AwaitingReads? ==> s.readPool.started == |s.readPool.jobs|)
    && (!s.main.SpawningReads? && !s.main.AwaitingReads? ==> Ready(s.readPool))
    && (s.main.AwaitingWrites? ==> s.writePool.started == |s.writePool.jobs|)
    && (s.main.Running? || s.main.Cancelled() ==> Ready(s.writePool))
  }

  lemma InitInv(c: Config)
    ensures Inv(c, Init(c))
  {
    NewPoolInv(c.readLimit, c.readJobs);
    NewPoolInv(c.writeLimit, c.writeJobs);
    CountNone(Init(c).readPool.jobs, FINISHED);
    CountNone(Init(c).writePool.jobs, FINISHED);
  }

  lemma MainInv(c: Config, s: State)
    requires Inv(c, s) && NextMain(c, s).Some?
    ensures Inv(c, NextMain(c, s).value)
  {
    if s.main.SpawningReads? && s.readPool.started < |s.readPool.jobs| {
      SpawnInv(c.readLimit, s.readPool);
    } else if s.main.SpawningWrites? && s.writePool.started < |s.writePool.jobs| {
      SpawnInv(c.writeLimit, s.writePool);
    }
  }

  lemma NextInv(c: Config, s: State, step: Step)
    requires Inv(c, s) && Next(c, s, step).Some?
    ensures Inv(c, Next(c, s, step).value)
  {
    match step {
      case Tick(_) =>
      case MainStep => MainInv(c, s);
      case ReadJob(i, ok) => JobStepInv(OutsideOf(c, s, true), s.readPool, i, ok);
      case WriteJob(i, ok) => JobStepInv(OutsideOf(c, s, false), s.writePool, i, ok);
    }
  }

  lemma {:induction false} ExecInv(c: Config, s: State, schedule: seq<Step>)
    requires Inv(c, s) && Exec(c, s, schedule).Some?
    ensures Inv(c, Exec(c, s, schedule).value)
    decreases |schedule|
  {
    if schedule != [] {
      NextInv(c, s, schedule[0]);
      ExecInv(c, Next(c, s, schedule[0]).value, schedule[1..]);
    }
  }

  lemma ReachableInv(c: Config, s: State)
    requires Reachable(c, s)
    ensures Inv(c, s)
  {
    var schedule :| Exec(c, Init(c), schedule) == Some(s);
    InitInv(c);
    ExecInv(c, Init(c), schedule);
  }

  /** In every reachable state each window's counter is the number of admissions stamped with
      that second, and it is at most the limit, or zero when the limit is negative. */
  lemma WindowsNeverExceedTheLimit(c: Config, s: State, key: int)
    requires Reachable(c, s)
    ensures s.readPool.Window(key) == Stamps(s.readPool.admissions, key * SECOND, (key + 1) * SECOND)
    ensures s.readPool.Window(key) <= Max(0, c.readLimit)
    ensures s.writePool.Window(key) == Stamps(s.writePool.admissions, key * SECOND, (key + 1) * SECOND)
    ensures s.writePool.Window(key) <= Max(0, c.writeLimit)
  {
    ReachableInv(c, s);
  }

  lemma TwoWindows(limit: int, p: Pool, from: int)
    requires WindowsInv(limit, p)
    ensures Stamps(p.admissions, from, from + SECOND) <= 2 * Max(0, limit)
  {
    var key := Unix(from);
    var low, mid, high := key * SECOND, (key + 1) * SECOND, (key + 1 + 1) * SECOND;
    StampsCover(p.admissions, from, from + SECOND, low, mid, high);
    assert p.Window(key) == Stamps(p.admissions, low, mid) && p.Window(key + 1) == Stamps(p.admissions, mid, high);
  }

  /** However a one-second interval is aligned, at most twice the limit is admitted in it. */
  lemma AnySecondAdmitsTwiceTheLimit(c: Config, s: State, from: int)
    requires Reachable(c, s)
    ensures Stamps(s.readPool.admissions, from, from + SECOND) <= 2 * Max(0, c.readLimit)
    ensures Stamps(s.writePool.admissions, from, from + SECOND) <= 2 * Max(0, c.writeLimit)
  {
    ReachableInv(c, s);
    TwoWindows(c.readLimit, s.readPool, from);
    TwoWindows(c.writeLimit, s.writePool, from);
  }

  ghost predicate AtMostOnce(p: Pool) {
    && WellFormed(p)
    && p.wg >= 0
    && (forall i :: 0 <= i < |p.jobs| ==> p.wgDones[i] <= 1 && p.sends[i] <= 1)
    && (forall i, k :: 0 <= i < |p.jobs| && 0 <= k < |p.jobs| && p.jobs[i].HoldsMutex() && p.jobs[k].HoldsMutex() ==>
          i == k)
  }

  lemma PoolAtMostOnce(limit: int, p: Pool)
    requires PoolInv(limit, p)
    ensures AtMostOnce(p)
  {
    forall i | 0 <= i < |p.jobs|
      ensures p.wgDones[i] <= 1 && p.sends[i] <= 1
    {
      assert JobInv(p, i);
    }
  }

  /** No job calls wg.Done or sends on the channel a second time, the WaitGroup never goes
      negative, and two jobs of a pool are never inside the mutex together. */
  lemma EachJobSignalsAtMostOnce(c: Config, s: State)
    requires Reachable(c, s)
    ensures AtMostOnce(s.readPool) && AtMostOnce(s.writePool)
  {
    ReachableInv(c, s);
    PoolAtMostOnce(c.readLimit, s.readPool);
    PoolAtMostOnce(c.writeLimit, s.writePool);
  }

  /** Every job is past its preparation: its file is complete, or the job has failed. */
  ghost predicate AllPrepared(p: Pool) {
    forall i :: 0 <= i < |p.jobs| ==> !p.jobs[i].NotStarted? && !p.jobs[i].Pending()
  }

  lemma ReadyIsPrepared(limit: int, p: Pool)
    requires PoolInv(limit, p) && Ready(p)
    ensures AllPrepared(p)
  {
    CountNone(p.jobs, PENDING);
    forall i | 0 <= i < |p.jobs|
      ensures !p.jobs[i].NotStarted? && !PENDING(p.jobs[i])
    {
      assert JobInv(p, i);
    }
  }

  /** A call of backgroundIOPS returns only when all its jobs are prepared, so the collector
      warms up and measures with every work file in place. */
  lemma BarrierHolds(c: Config, s: State)
    requires Reachable(c, s)
    ensures !s.main.SpawningReads? && !s.main.AwaitingReads? ==> AllPrepared(s.readPool)
    ensures s.main.Running? || s.main.Cancelled() ==> AllPrepared(s.writePool)
  {
    ReachableInv(c, s);
    if !s.main.SpawningReads? && !s.main.AwaitingReads? {
      ReadyIsPrepared(c.readLimit, s.readPool);
    }
    if s.main.Running? || s.main.Cancelled() {
      ReadyIsPrepared(c.writeLimit, s.writePool);
    }
  }

  /** A job about to send always finds room in the channel. */
  lemma SendersNeverBlock(c: Config, s: State, i: nat)
    requires Reachable(c, s)
    requires (i < |s.readPool.jobs| && s.readPool.jobs[i].Sending?) ||
             (i < |s.writePool.jobs| && s.writePool.jobs[i].Sending?)
    ensures s.queued < c.Jobs()
  {
    ReachableInv(c, s);
    CountAll(s.readPool.jobs, FINISHED);
    CountAll(s.writePool.jobs, FINISHED);
  }

  /** Some job of the pool can move. */
  lemma SomeJobMoves(o: Outside, p: Pool, i: nat) returns (k: nat)
    requires PoolInv(o.limit, p) && o.room
    requires i < |p.jobs| && !p.jobs[i].NotStarted? && !p.jobs[i].Finished?
    ensures k < |p.jobs| && JobStep(o, p, k, true).Some?
  {
    k := if p.jobs[i].Locking? && p.mutex.Some? then p.mutex.value else i;
  }

  lemma SomePending(p: Pool) returns (i: nat)
    requires p.wg == Count(p.jobs, PENDING) != 0
    ensures i < |p.jobs| && p.jobs[i].Pending()
  {
    CountNone(p.jobs, PENDING);
    i :| 0 <= i < |p.jobs| && p.jobs[i].Pending();
  }

  lemma SomeUnfinished(p: Pool) returns (i: nat)
    requires Count(p.jobs, FINISHED) != |p.jobs|
    ensures i < |p.jobs| && !p.jobs[i].Finished?
  {
    CountAll(p.jobs, FINISHED);
    i :| 0 <= i < |p.jobs| && !p.jobs[i].Finished?;
  }

  /** Until the collector has returned, some goroutine can always move, the end of a sleep being a
      move. */
  lemma NeverDeadlocked(c: Config, s: State) returns (step: Step)
    requires Inv(c, s) && !s.main.Returned?
    ensures !step.Tick? && Next(c, s, step).Some?
  {
    step := MainStep;
    var i: nat, k: nat;
    match s.main {
      case AwaitingReads =>
        if s.readPool.wg != 0 {
          i := SomePending(s.readPool);
          step := ReadJob(i, true);
        }
      case AwaitingWrites =>
        if s.writePool.wg != 0 {
          i := SomePending(s.writePool);
          step := WriteJob(i, true);
        }
      case Draining(received) =>
        if received < c.Jobs() && s.queued == 0 {
          if Count(s.readPool.jobs, FINISHED) != c.readJobs {
            i := SomeUnfinished(s.readPool);
            assert JobInv(s.readPool, i);
            k := SomeJobMoves(OutsideOf(c, s, true), s.readPool, i);
            step := ReadJob(k, true);
          } else {
            i := SomeUnfinished(s.writePool);
            assert JobInv(s.writePool, i);
            k := SomeJobMoves(OutsideOf(c, s, false), s.writePool, i);
            step := WriteJob(k, true);
          }
        }
      case _ =>
    }
  }

  function Ranks(jobs: seq<Job>): nat {
    if jobs == [] then 0 else jobs[0].Rank() + Ranks(jobs[1..])
  }

  lemma {:induction false} RanksUpdate(jobs: seq<Job>, i: nat, job: Job)
    requires i < |jobs|
    ensures Ranks(jobs[i := job]) == Ranks(jobs) - jobs[i].Rank() + job.Rank()
  {
    if i == 0 {
      assert jobs[i := job][1..] == jobs[1..];
    } else {
      RanksUpdate(jobs[1..], i - 1, job);
      assert jobs[i := job][1..] == jobs[1..][i - 1 := job];
    }
  }

  /** A bound on the steps left once the context is cancelled. */
  function StepsLeft(c: Config, s: State): int
    requires s.main.Cancelled()
  {
    Ranks(s.readPool.jobs) + Ranks(s.writePool.jobs)
    + if s.main.Returned? then 0 else c.Jobs() - s.main.received + 1
  }

  lemma JobStepDescends(o: Outside, p: Pool, i: nat, ok: bool)
    requires PoolInv(o.limit, p) && Ready(p) && o.cancelled && i < |p.jobs| && JobStep(o, p, i, ok).Some?
    ensures Ranks(JobStep(o, p, i, ok).value.jobs) < Ranks(p.jobs)
  {
    var q := JobStep(o, p, i, ok).value;
    ReadyIsPrepared(o.limit, p);
    assert q.jobs == p.jobs[i := q.jobs[i]];
    RanksUpdate(p.jobs, i, q.jobs[i]);
  }

  /** After cancellation every step other than the clock's brings the end closer. */
  lemma DrainDescends(c: Config, s: State, step: Step)
    requires Inv(c, s) && s.main.Cancelled() && Next(c, s, step).Some?
    ensures var s' := Next(c, s, step).value;
            && s'.main.Cancelled()
            && 0 <= StepsLeft(c, s')
            && (if step.Tick? then StepsLeft(c, s') == StepsLeft(c, s) else StepsLeft(c, s') < StepsLeft(c, s))
  {
    NextInv(c, s, step);
    match step {
      case ReadJob(i, ok) => JobStepDescends(OutsideOf(c, s, true), s.readPool, i, ok);
      case WriteJob(i, ok) => JobStepDescends(OutsideOf(c, s, false), s.writePool, i, ok);
      case _ =>
    }
  }

  function Works(schedule: seq<Step>): nat {
    if schedule == [] then 0 else Works(schedule[1..]) + if schedule[0].Tick? then 0 else 1
  }

  /** After cancellation no schedule has more steps than that, clock steps aside. */
  lemma {:induction false} DrainIsBounded(c: Config, s: State, schedule: seq<Step>)
    requires Inv(c, s) && s.main.Cancelled() && Exec(c, s, schedule).Some?
    ensures Works(schedule) <= StepsLeft(c, s)
    decreases |schedule|
  {
    if schedule == [] {
    } else {
      NextInv(c, s, schedule[0]);
      DrainDescends(c, s, schedule[0]);
      DrainIsBounded(c, Next(c, s, schedule[0]).value, schedule[1..]);
    }
  }

  /** And from every state after cancellation the collector can still return. */
  lemma {:induction false} DrainCompletes(c: Config, s: State) returns (schedule: seq<Step>)
    requires Inv(c, s) && s.main.Cancelled()
    ensures Exec(c, s, schedule).Some? && Exec(c, s, schedule).value.main.Returned?
    decreases StepsLeft(c, s)
  {
    if s.main.Returned? {
      schedule := [];
    } else {
      var step := NeverDeadlocked(c, s);
      DrainDescends(c, s, step);
      NextInv(c, s, step);
      var rest := DrainCompletes(c, Next(c, s, step).value);
      schedule := [step] + rest;
      assert schedule[1..] == rest;
    }
  }

  ghost predicate CleanedUp(p: Pool) {
    && WellFormed(p)
    && p.files == {}
    && forall i :: 0 <= i < |p.jobs| ==> p.jobs[i].Finished? && p.wgDones[i] == 1 && p.sends[i] == 1
  }

  lemma FinishedIsCleanedUp(limit: int, p: Pool)
    requires PoolInv(limit, p) && Count(p.jobs, FINISHED) == |p.jobs|
    ensures CleanedUp(p)
  {
    CountAll(p.jobs, FINISHED);
    forall i | 0 <= i < |p.jobs|
      ensures p.jobs[i].Finished? && p.wgDones[i] == 1 && p.sends[i] == 1 && i !in p.files
    {
      assert FINISHED(p.jobs[i]) && JobInv(p, i);
    }
  }

  /** When the drain loop has ended, every job has called wg.Done once and sent once, no work
      file is left, and no completion is left in the channel. */
  lemma ReturnedIsCleanedUp(c: Config, s: State)
    requires Reachable(c, s)
    requires s.main == Draining(c.Jobs()) || s.main.Returned?
    ensures CleanedUp(s.readPool) && CleanedUp(s.writePool) && s.queued == 0
  {
    ReachableInv(c, s);
    FinishedIsCleanedUp(c.readLimit, s.readPool);
    FinishedIsCleanedUp(c.writeLimit, s.writePool);
  }
}
