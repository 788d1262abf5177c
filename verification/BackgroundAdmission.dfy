/** What the rate limiter of the background IOPS jobs promises beyond its bound: it turns a job away
    only when the window is full, it lets every job in as long as there is room, the bound is
    reached, and every admission is for one operation. */
module BackgroundAdmission {
  import opened Options
  import opened BackgroundIops

  const ADMITTED: Job -> bool := (job: Job) => job.Counted? || job.Operating?

  /** Every admission is for an operation that was performed, was given up, or is still to come. */
  ghost predicate Ledger(p: Pool) {
    |p.admissions| == p.operations + p.abandoned + Count(p.jobs, ADMITTED)
  }

  /** A job sleeps only when the window that it was turned away from is full. */
  ghost predicate Sleepers(limit: int, p: Pool) {
    forall i :: 0 <= i < |p.jobs| && p.jobs[i].Sleeping? ==> p.Window(p.jobs[i].key) >= limit
  }

  /** Only steps in the loop touch the books. */
  lemma OtherSteps(o: Outside, p: Pool, i: nat, ok: bool)
    requires PoolInv(o.limit, p) && i < |p.jobs| && JobStep(o, p, i, ok).Some? && !p.jobs[i].InLoop()
    ensures var q := JobStep(o, p, i, ok).value;
            && q.jobs == p.jobs[i := q.jobs[i]] && q.windows == p.windows && q.admissions == p.admissions
            && q.operations == p.operations && q.abandoned == p.abandoned
            && !ADMITTED(p.jobs[i]) && !ADMITTED(q.jobs[i]) && !q.jobs[i].Sleeping?
  {
  }

  lemma LoopSteps(o: Outside, p: Pool, i: nat, ok: bool)
    requires PoolInv(o.limit, p) && i < |p.jobs| && p.jobs[i].InLoop() && LoopStep(o, p, i, ok).Some?
    ensures var q := LoopStep(o, p, i, ok).value;
            && q.jobs == p.jobs[i := q.jobs[i]]
            && |q.admissions| - q.operations - q.abandoned - (if ADMITTED(q.jobs[i]) then 1 else 0) ==
               |p.admissions| - p.operations - p.abandoned - (if ADMITTED(p.jobs[i]) then 1 else 0)
            && (forall key: int :: q.Window(key) >= p.Window(key))
            && (q.jobs[i].Sleeping? ==> q.Window(q.jobs[i].key) >= o.limit)
  {
  }

  lemma StepKeepsLedger(o: Outside, p: Pool, i: nat, ok: bool)
    requires PoolInv(o.limit, p) && Ledger(p) && i < |p.jobs| && JobStep(o, p, i, ok).Some?
    ensures Ledger(JobStep(o, p, i, ok).value)
  {
    if p.jobs[i].InLoop() {
      LoopSteps(o, p, i, ok);
    } else {
      OtherSteps(o, p, i, ok);
    }
    CountUpdate(p.jobs, ADMITTED, i, JobStep(o, p, i, ok).value.jobs[i]);
  }

  lemma StepKeepsSleepers(o: Outside, p: Pool, i: nat, ok: bool)
    requires PoolInv(o.limit, p) && Sleepers(o.limit, p) && i < |p.jobs| && JobStep(o, p, i, ok).Some?
    ensures Sleepers(o.limit, JobStep(o, p, i, ok).value)
  {
    if p.jobs[i].InLoop() {
      LoopSteps(o, p, i, ok);
    } else {
      OtherSteps(o, p, i, ok);
      assert forall key: int :: JobStep(o, p, i, ok).value.Window(key) == p.Window(key);
    }
  }

  ghost predicate Books(c: Config, s: State) {
    && Inv(c, s)
    && Ledger(s.readPool) && Sleepers(c.readLimit, s.readPool)
    && Ledger(s.writePool) && Sleepers(c.writeLimit, s.writePool)
  }

  lemma SpawnKeepsBooks(limit: int, p: Pool)
    requires PoolInv(limit, p) && Ledger(p) && Sleepers(limit, p) && p.started < |p.jobs|
    ensures Ledger(Spawn(p)) && Sleepers(limit, Spawn(p))
  {
    assert JobInv(p, p.started);
    CountUpdate(p.jobs, ADMITTED, p.started, Opening);
    assert forall key: int :: Spawn(p).Window(key) == p.Window(key);
  }

  lemma NextKeepsBooks(c: Config, s: State, step: Step)
    requires Books(c, s) && Next(c, s, step).Some?
    ensures Books(c, Next(c, s, step).value)
  {
    NextInv(c, s, step);
    match step {
      case Tick(_) =>
      case MainStep =>
        if s.main.SpawningReads? && s.readPool.started < |s.readPool.jobs| {
          SpawnKeepsBooks(c.readLimit, s.readPool);
        } else if s.main.SpawningWrites? && s.writePool.started < |s.writePool.jobs| {
          SpawnKeepsBooks(c.writeLimit, s.writePool);
        }
      case ReadJob(i, ok) =>
        StepKeepsLedger(OutsideOf(c, s, true), s.readPool, i, ok);
        StepKeepsSleepers(OutsideOf(c, s, true), s.readPool, i, ok);
      case WriteJob(i, ok) =>
        StepKeepsLedger(OutsideOf(c, s, false), s.writePool, i, ok);
        StepKeepsSleepers(OutsideOf(c, s, false), s.writePool, i, ok);
    }
  }

  lemma {:induction false} ExecKeepsBooks(c: Config, s: State, schedule: seq<Step>)
    requires Books(c, s) && Exec(c, s, schedule).Some?
    ensures Books(c, Exec(c, s, schedule).value)
    decreases |schedule|
  {
    if schedule != [] {
      NextKeepsBooks(c, s, schedule[0]);
      ExecKeepsBooks(c, Next(c, s, schedule[0]).value, schedule[1..]);
    }
  }

  lemma ReachableBooks(c: Config, s: State)
    requires Reachable(c, s)
    ensures Books(c, s)
  {
    InitInv(c);
    CountNone(Init(c).readPool.jobs, ADMITTED);
    CountNone(Init(c).writePool.jobs, ADMITTED);
    var schedule :| Exec(c, Init(c), schedule) == Some(s);
    ExecKeepsBooks(c, Init(c), schedule);
  }

  function PoolOf(s: State, read: bool): Pool {
    if read then s.readPool else s.writePool
  }

  function LimitOf(c: Config, read: bool): int {
    if read then c.readLimit else c.writeLimit
  }

  /** In every reachable state the window that a sleeping job was turned away from is full: its
      counter is the limit, or zero when the limit is negative. */
  lemma OnlyFullWindowsTurnAway(c: Config, s: State, read: bool, i: nat)
    requires Reachable(c, s) && i < |PoolOf(s, read).jobs| && PoolOf(s, read).jobs[i].Sleeping?
    ensures PoolOf(s, read).Window(PoolOf(s, read).jobs[i].key) == Max(0, LimitOf(c, read))
  {
    ReachableBooks(c, s);
    var p := PoolOf(s, read);
    assert p.Window(p.jobs[i].key) <= Max(0, LimitOf(c, read));
  }

  /** In every reachable state the operations performed are the admissions but for those given up and
      one for each job that is about to perform its operation. */
  lemma OneOperationPerAdmission(c: Config, s: State, read: bool)
    requires Reachable(c, s)
    ensures var p := PoolOf(s, read);
            |p.admissions| == p.operations + p.abandoned + Count(p.jobs, ADMITTED)
  {
    ReachableBooks(c, s);
  }

  lemma SecondsOfTheClock()
    ensures Unix(1_999_999_999) == 1 && Unix(2_000_000_000) == 2 && Unix(-1) == -1
  {
  }

  /** A run of the jobs of one pool in their loops: at each time the next step of a job. */
  type Run = seq<(int, nat)>

  function Act(read: bool, limit: int, p: Pool, time: int, k: nat): Option<Pool> {
    if k < |p.jobs| && p.jobs[k].InLoop() then LoopStep(Outside(read, limit, false, time, true), p, k, true) else None
  }

  function RunOf(read: bool, limit: int, p: Pool, run: Run): Option<Pool>
    decreases |run|
  {
    if run == [] then Some(p)
    else
      match Act(read, limit, p, run[0].0, run[0].1)
      case None => None
      case Some(q) => RunOf(read, limit, q, run[1..])
  }

  lemma {:induction false} RunSum(read: bool, limit: int, p: Pool, a: Run, b: Run)
    requires RunOf(read, limit, p, a).Some?
    ensures RunOf(read, limit, p, a + b) == RunOf(read, limit, RunOf(read, limit, p, a).value, b)
    decreases |a|
  {
    if a == [] {
      assert a + b == b;
    } else {
      assert (a + b)[1..] == a[1..] + b;
      RunSum(read, limit, Act(read, limit, p, a[0].0, a[0].1).value, a[1..], b);
    }
  }

  lemma ActInv(read: bool, limit: int, p: Pool, time: int, k: nat)
    requires PoolInv(limit, p) && Act(read, limit, p, time, k).Some?
    ensures PoolInv(limit, Act(read, limit, p, time, k).value)
    ensures |Act(read, limit, p, time, k).value.jobs| == |p.jobs|
  {
    JobStepInv(Outside(read, limit, false, time, true), p, k, true);
  }

  /** A job is about to take a place in the window of a second. */
  predicate Takes(job: Job, key: int) {
    job.Stamped? && Unix(job.time) == key
  }

  /** Another job than i is. Only the one that holds the mutex can be. */
  function Taking(p: Pool, i: nat, key: int): nat {
    if p.mutex.Some? && p.mutex.value != i && p.mutex.value < |p.jobs| && Takes(p.jobs[p.mutex.value], key) then 1
    else 0
  }

  function JobRank(job: Job, key: int): nat {
    match job
    case Stamped(time) => if Unix(time) == key then 0 else 6
    case Locked => 1
    case Locking => 2
    case Top => 3
    case Counted => 5
    case _ => 4
  }

  function OwnerRank(p: Pool): nat {
    if p.mutex.None? || p.mutex.value >= |p.jobs| then 0
    else
      match p.jobs[p.mutex.value]
      case Locked => 3
      case Stamped(_) => 2
      case _ => 1
  }

  /** How far job i is from being admitted in the second. */
  function Distance(p: Pool, i: nat, key: int): nat
    requires i < |p.jobs|
  {
    4 * JobRank(p.jobs[i], key) + if p.jobs[i].Locking? then OwnerRank(p) else 3
  }

  /** Whose step brings it closer, and when: a job in the way reads the clock in the next second. */
  function Mover(p: Pool, i: nat): nat
    requires i < |p.jobs|
  {
    if p.jobs[i].Locking? && p.mutex.Some? then p.mutex.value else i
  }

  function Moment(p: Pool, i: nat, time: int): int
    requires i < |p.jobs|
  {
    if Mover(p, i) == i then time else time + SECOND
  }

  lemma NextSecond(time: int)
    ensures Unix(time + SECOND) == Unix(time) + 1
  {
  }

  /** While job i waits for the mutex the job that holds it moves on. */
  lemma OwnerMoves(read: bool, limit: int, p: Pool, i: nat, time: int)
    requires PoolInv(limit, p) && i < |p.jobs| && p.jobs[i].Locking? && p.mutex.Some?
    requires p.Window(Unix(time)) + Taking(p, i, Unix(time)) < limit
    ensures var key, owner := Unix(time), p.mutex.value;
            && owner != i && Act(read, limit, p, time + SECOND, owner).Some?
            && var q := Act(read, limit, p, time + SECOND, owner).value;
               && |q.jobs| == |p.jobs| && q.jobs[i] == p.jobs[i] && OwnerRank(q) < OwnerRank(p)
               && q.Window(key) + Taking(q, i, key) == p.Window(key) + Taking(p, i, key)
  {
    NextSecond(time);
    var owner := p.mutex.value;
    assert p.jobs[owner].HoldsMutex();
  }

  /** Otherwise job i moves on itself. */
  lemma JobMoves(read: bool, limit: int, p: Pool, i: nat, time: int)
    requires PoolInv(limit, p) && i < |p.jobs| && p.jobs[i].InLoop() && !(p.jobs[i].Locking? && p.mutex.Some?)
    requires !Takes(p.jobs[i], Unix(time))
    requires p.Window(Unix(time)) + Taking(p, i, Unix(time)) < limit
    ensures var key := Unix(time);
            && Act(read, limit, p, time, i).Some?
            && var q := Act(read, limit, p, time, i).value;
               && |q.jobs| == |p.jobs| && q.jobs[i].InLoop()
               && 4 * JobRank(q.jobs[i], key) + 3 < 4 * JobRank(p.jobs[i], key) + (if p.jobs[i].Locking? then 4 else 3)
               && q.Window(key) + Taking(q, i, key) == p.Window(key) + Taking(p, i, key)
  {
    var q := Act(read, limit, p, time, i).value;
    if p.jobs[i].HoldsMutex() {
      assert p.mutex == Some(i);
    } else {
      assert p.mutex != Some(i);
    }
  }

  /** Job i was admitted in the second by the last step. */
  predicate JustAdmitted(q: Pool, i: nat, key: int) {
    && i < |q.jobs| && q.jobs[i].Counted?
    && |q.admissions| > 0 && Unix(q.admissions[|q.admissions| - 1]) == key
  }

  /** While there is room in the window of a second, every job of the pool that is in its loop can be
      admitted in that second, wherever it is and whoever holds the mutex. */
  lemma {:induction false} Admission(read: bool, limit: int, p: Pool, i: nat, time: int) returns (run: Run, q: Pool)
    requires PoolInv(limit, p) && i < |p.jobs| && p.jobs[i].InLoop()
    requires p.Window(Unix(time)) + Taking(p, i, Unix(time)) < limit
    ensures RunOf(read, limit, p, run) == Some(q) && PoolInv(limit, q) && |q.jobs| == |p.jobs|
    ensures JustAdmitted(q, i, Unix(time))
    ensures q.Window(Unix(time)) == p.Window(Unix(time)) + Taking(p, i, Unix(time)) + 1
    decreases Distance(p, i, Unix(time))
  {
    var key, k, moment := Unix(time), Mover(p, i), Moment(p, i, time);
    if Takes(p.jobs[i], key) {
      assert p.mutex == Some(i);
      q := Act(read, limit, p, time, i).value;
      ActInv(read, limit, p, time, i);
      run := [(time, i)];
      assert run[1..] == [];
    } else {
      if p.jobs[i].Locking? && p.mutex.Some? {
        OwnerMoves(read, limit, p, i, time);
      } else {
        JobMoves(read, limit, p, i, time);
      }
      var next := Act(read, limit, p, moment, k).value;
      ActInv(read, limit, p, moment, k);
      var rest;
      rest, q := Admission(read, limit, next, i, time);
      run := [(moment, k)] + rest;
      assert run[1..] == rest;
    }
  }

  /** So a window can be filled, by any job in its loop on its own. */
  lemma {:induction false} Filling(read: bool, limit: int, p: Pool, i: nat, time: int) returns (run: Run, q: Pool)
    requires PoolInv(limit, p) && i < |p.jobs| && p.jobs[i].InLoop()
    requires p.Window(Unix(time)) + Taking(p, i, Unix(time)) < limit
    ensures RunOf(read, limit, p, run) == Some(q) && PoolInv(limit, q) && |q.jobs| == |p.jobs|
    ensures q.Window(Unix(time)) == limit
    decreases limit - p.Window(Unix(time))
  {
    run, q := Admission(read, limit, p, i, time);
    if q.Window(Unix(time)) < limit {
      assert q.mutex == Some(i);
      var rest, last := Filling(read, limit, q, i, time);
      RunSum(read, limit, p, run, rest);
      run, q := run + rest, last;
    }
  }

  /** The schedule of a run: the clock is set, then the job takes its step. */
  function ScheduleOf(read: bool, run: Run): seq<Step>
    decreases |run|
  {
    if run == [] then []
    else
      [Tick(run[0].0), if read then ReadJob(run[0].1, true) else WriteJob(run[0].1, true)] + ScheduleOf(read, run[1..])
  }

  function WithPool(s: State, read: bool, p: Pool): State {
    if read then s.(readPool := p) else s.(writePool := p)
  }

  lemma OneAct(c: Config, s: State, read: bool, time: int, k: nat)
    requires Inv(c, s) && !s.main.Cancelled() && Act(read, LimitOf(c, read), PoolOf(s, read), time, k).Some?
    ensures var q := Act(read, LimitOf(c, read), PoolOf(s, read), time, k).value;
            Next(c, s.(clock := time), if read then ReadJob(k, true) else WriteJob(k, true)) ==
            Some(WithPool(s, read, q).(clock := time))
  {
  }

  /** Before cancellation a run of one pool is a schedule of the whole. */
  lemma {:induction false} RunIsASchedule(c: Config, s: State, read: bool, run: Run) returns (s': State)
    requires Inv(c, s) && !s.main.Cancelled() && RunOf(read, LimitOf(c, read), PoolOf(s, read), run).Some?
    ensures Exec(c, s, ScheduleOf(read, run)) == Some(s') && s'.main == s.main
    ensures PoolOf(s', read) == RunOf(read, LimitOf(c, read), PoolOf(s, read), run).value
    decreases |run|
  {
    if run == [] {
      s' := s;
    } else {
      var time, k := run[0].0, run[0].1;
      var step := if read then ReadJob(k, true) else WriteJob(k, true);
      OneAct(c, s, read, time, k);
      NextInv(c, s, Tick(time));
      NextInv(c, s.(clock := time), step);
      var next := Next(c, s.(clock := time), step).value;
      s' := RunIsASchedule(c, next, read, run[1..]);
      var schedule := ScheduleOf(read, run);
      assert schedule[0] == Tick(time) && schedule[1..][0] == step && schedule[1..][1..] == ScheduleOf(read, run[1..]);
    }
  }

  /** From every reachable state before cancellation, a job in its loop can still be admitted in a
      second, as long as its window has room for it and for the job, if any, that is about to take a
      place in it. */
  lemma RoomAdmits(c: Config, s: State, read: bool, i: nat, time: int) returns (schedule: seq<Step>, s': State)
    requires Reachable(c, s) && !s.main.Cancelled()
    requires i < |PoolOf(s, read).jobs| && PoolOf(s, read).jobs[i].InLoop()
    requires var p := PoolOf(s, read); p.Window(Unix(time)) + Taking(p, i, Unix(time)) < LimitOf(c, read)
    ensures Exec(c, s, schedule) == Some(s') && JustAdmitted(PoolOf(s', read), i, Unix(time))
  {
    ReachableInv(c, s);
    var run, q := Admission(read, LimitOf(c, read), PoolOf(s, read), i, time);
    s' := RunIsASchedule(c, s, read, run);
    schedule := ScheduleOf(read, run);
  }

  /** And the window can be filled up to the limit. */
  lemma WindowCanBeFilled(c: Config, s: State, read: bool, i: nat, time: int) returns (schedule: seq<Step>, s': State)
    requires Inv(c, s) && !s.main.Cancelled()
    requires i < |PoolOf(s, read).jobs| && PoolOf(s, read).jobs[i].InLoop()
    requires var p := PoolOf(s, read); p.Window(Unix(time)) + Taking(p, i, Unix(time)) < LimitOf(c, read)
    ensures Exec(c, s, schedule) == Some(s') && PoolOf(s', read).Window(Unix(time)) == LimitOf(c, read)
  {
    var run, q := Filling(read, LimitOf(c, read), PoolOf(s, read), i, time);
    s' := RunIsASchedule(c, s, read, run);
    schedule := ScheduleOf(read, run);
  }

  /** So the bound is attained, for any second, when there is a read job. */
  lemma BoundIsAttained(c: Config, time: int) returns (s: State)
    requires c.readJobs > 0 && c.readLimit >= 0
    ensures Reachable(c, s) && s.readPool.Window(Unix(time)) == c.readLimit
  {
    InitInv(c);
    if c.readLimit == 0 {
      s := Init(c);
      assert Exec(c, Init(c), []) == Some(s);
    } else {
      var start, looping := FirstReadJobLoops(c);
      ExecInv(c, Init(c), start);
      var schedule;
      schedule, s := WindowCanBeFilled(c, looping, true, 0, time);
      ExecSum(c, Init(c), start, schedule);
    }
  }

  lemma {:induction false} ExecSum(c: Config, s: State, a: seq<Step>, b: seq<Step>)
    requires Exec(c, s, a).Some?
    ensures Exec(c, s, a + b) == Exec(c, Exec(c, s, a).value, b)
    decreases |a|
  {
    if a == [] {
      assert a + b == b;
    } else {
      assert (a + b)[1..] == a[1..] + b;
      ExecSum(c, Next(c, s, a[0]).value, a[1..], b);
    }
  }

  lemma FirstReadJobLoops(c: Config) returns (schedule: seq<Step>, s: State)
    requires c.readJobs > 0
    ensures Exec(c, Init(c), schedule) == Some(s) && !s.main.Cancelled()
    ensures |s.readPool.jobs| > 0 && s.readPool.jobs[0].InLoop() && s.readPool.mutex.None?
    ensures forall key :: s.readPool.Window(key) == 0
  {
    var job := ReadJob(0, true);
    var spawned := Next(c, Init(c), MainStep).value;
    var withFile := Next(c, spawned, job).value;
    var prepared := Next(c, withFile, job).value;
    s := Next(c, prepared, job).value;
    schedule := [MainStep, job, job, job];
    assert [job][1..] == [] && Exec(c, prepared, [job]) == Some(s);
    assert [job, job][1..] == [job] && Exec(c, withFile, [job, job]) == Some(s);
    assert [job, job, job][1..] == [job, job] && Exec(c, spawned, [job, job, job]) == Some(s);
    assert schedule[1..] == [job, job, job];
  }

  /** A job that is started and not finished waits for nothing but the mutex, while another job holds
      it, and room in the channel. */
  lemma WaitsIff(o: Outside, p: Pool, i: nat, ok: bool)
    requires PoolInv(o.limit, p) && i < |p.jobs| && !p.jobs[i].NotStarted? && !p.jobs[i].Finished?
    ensures JobStep(o, p, i, ok).None? <==>
            || (p.jobs[i].Locking? && exists k :: 0 <= k < |p.jobs| && k != i && p.jobs[k].HoldsMutex())
            || (p.jobs[i].Sending? && !o.room)
  {
    if p.mutex.Some? {
      assert p.jobs[p.mutex.value].HoldsMutex();
    }
  }

  /** A job that cannot create its file leaves none and goes on to send, without its turn in the loop. */
  lemma OpeningOutcome(o: Outside, p: Pool, i: nat, ok: bool, ok': bool)
    requires PoolInv(o.limit, p) && i < |p.jobs| && p.jobs[i].Opening?
    ensures var next := JobStep(o, p, i, ok);
            && next.Some? && |next.value.jobs| == |next.value.wgDones| == |next.value.sends| == |p.jobs|
            && (ok ==> next.value.jobs[i] == Preparing && next.value.files == p.files + {i})
            && (!ok ==>
                  && next.value.files == p.files && i !in p.files
                  && var last := JobStep(o, next.value, i, ok');
                     last.Some? && last.value.wg == p.wg - 1 && last.value.jobs == p.jobs[i := Sending])
  {
    assert JobInv(p, i);
  }

  /** A job whose file could be created gets into its loop, whatever becomes of resizing it for writes,
      but not without what is to be read from it. */
  lemma PreparationOutcome(o: Outside, p: Pool, i: nat, ok: bool, ok': bool)
    requires PoolInv(o.limit, p) && i < |p.jobs| && p.jobs[i].Preparing?
    ensures var next := JobStep(o, p, i, ok);
            && next.Some? && |next.value.jobs| == |next.value.wgDones| == |next.value.sends| == |p.jobs|
            && var last := JobStep(o, next.value, i, ok');
               && last.Some? && last.value.wg == p.wg - 1
               && (!o.read || ok ==> last.value.jobs[i] == Top)
               && (o.read && !ok ==> last.value.jobs[i] == Removing)
  {
  }

  /** Otherwise it cannot be: in every schedule from there on the window stays full, and the job is
      turned away from it. */
  lemma {:induction false} NoRoomTurnsAway(c: Config, s: State, read: bool, i: nat, key: int, schedule: seq<Step>)
    requires Inv(c, s) && i < |PoolOf(s, read).jobs|
    requires PoolOf(s, read).Window(key) + Taking(PoolOf(s, read), i, key) >= LimitOf(c, read)
    requires Exec(c, s, schedule).Some?
    ensures var p := PoolOf(Exec(c, s, schedule).value, read);
            && |p.jobs| == |PoolOf(s, read).jobs|
            && p.Window(key) + Taking(p, i, key) >= LimitOf(c, read)
            && (Takes(p.jobs[i], key) ==>
                  forall o: Outside, ok :: o.limit == LimitOf(c, read) ==>
                    LoopStep(o, p, i, ok) == Some(p.At(i, Sleeping(key)).(mutex := None)))
    decreases |schedule|
  {
    if schedule == [] {
      var p := PoolOf(s, read);
      assert p.jobs[i].HoldsMutex() <==> p.mutex == Some(i);
    } else {
      var next := Next(c, s, schedule[0]).value;
      NextInv(c, s, schedule[0]);
      StaysFull(c, s, read, i, key, schedule[0]);
      NoRoomTurnsAway(c, next, read, i, key, schedule[1..]);
    }
  }

  lemma StaysFull(c: Config, s: State, read: bool, i: nat, key: int, step: Step)
    requires Inv(c, s) && i < |PoolOf(s, read).jobs| && Next(c, s, step).Some?
    requires PoolOf(s, read).Window(key) + Taking(PoolOf(s, read), i, key) >= LimitOf(c, read)
    ensures var p := PoolOf(Next(c, s, step).value, read);
            && |p.jobs| == |PoolOf(s, read).jobs|
            && p.Window(key) + Taking(p, i, key) >= LimitOf(c, read)
  {
    match step {
      case Tick(_) =>
      case MainStep => SpawnStaysFull(c, s, read, i, key);
      case ReadJob(k, ok) =>
        if read {
          JobStaysFull(OutsideOf(c, s, true), s.readPool, k, ok, i, key);
        }
      case WriteJob(k, ok) =>
        if !read {
          JobStaysFull(OutsideOf(c, s, false), s.writePool, k, ok, i, key);
        }
    }
  }

  lemma SpawnStaysFull(c: Config, s: State, read: bool, i: nat, key: int)
    requires Inv(c, s) && i < |PoolOf(s, read).jobs| && NextMain(c, s).Some?
    ensures var p, q := PoolOf(s, read), PoolOf(NextMain(c, s).value, read);
            |q.jobs| == |p.jobs| && q.Window(key) == p.Window(key) && Taking(q, i, key) >= Taking(p, i, key)
  {
    var p := PoolOf(s, read);
    assert p.started < |p.jobs| ==> JobInv(p, p.started);
  }

  lemma JobStaysFull(o: Outside, p: Pool, k: nat, ok: bool, i: nat, key: int)
    requires PoolInv(o.limit, p) && i < |p.jobs| && k < |p.jobs| && JobStep(o, p, k, ok).Some?
    requires p.Window(key) + Taking(p, i, key) >= o.limit
    ensures var q := JobStep(o, p, k, ok).value;
            |q.jobs| == |p.jobs| && q.Window(key) + Taking(q, i, key) >= o.limit
  {
    if !p.jobs[k].InLoop() {
      OtherSteps(o, p, k, ok);
    }
    assert p.jobs[k].HoldsMutex() <==> p.mutex == Some(k);
  }
}
