/**
 The job table of the manager and the calls that read and write it, as a state machine. One
 action is one database transaction or one external call of one of the calls in progress, so
 that reads and writes of different calls may interleave, and any of them may fail.
 */
module Dispatching {
  datatype Status = PENDING | RUNNING | RETRY | SUCCESS | FAILED

  datatype Job = Job(id: int, status: Status, retryTimes: int, createdTime: int, deleted: bool)

  const MAX_RETRY_TIMES := 10

  /**
   What a call in progress does next. `rolling` marks the part inside `_rollback_to_retry`,
   whose exceptions are swallowed; an exception anywhere else in `CreateReport` leads there.
   */
  datatype Task =
    | Report(id: int, empty: bool)                   // CreateReport: look the job up
    | Succeed(id: int)                               // update_job_status(SUCCESS)
    | Submit(id: int)                                // create_report in the external API
    | Fail(id: int, rolling: bool)                   // update_job_status(FAILED)
    | Lookup(id: int, retries: int, rolling: bool)   // update_job(RETRY, retries): read the row
    | Store(id: int, row: Job, rolling: bool)        // ... and write it back whole
    | Serve(id: int)                                 // GetJob: the external calls after the job was taken
    | Rollback(id: int)                              // _rollback_to_retry: look the job up

  /** Whether a step works, raises before it took effect, or raises after it. */
  datatype Outcome = Works | Raises | WorksThenRaises

  /** `taken` and `retried` are history: how often each job became RUNNING, and RETRY. */
  datatype State = State(rows: map<int, Job>, tasks: seq<Task>, taken: map<int, nat>, retried: map<int, nat>)

  const EMPTY := State(map[], [], map[], map[])

  function Times(history: map<int, nat>, id: int): nat {
    if id in history then history[id] else 0
  }

  predicate Live(rows: map<int, Job>, id: int) {
    id in rows && !rows[id].deleted
  }

  predicate Waits(job: Job) {
    job.status == PENDING || job.status == RETRY
  }

  /** `ORDER BY retry_times, created_time` */
  predicate NoLater(a: Job, b: Job) {
    a.retryTimes < b.retryTimes || (a.retryTimes == b.retryTimes && a.createdTime <= b.createdTime)
  }

  predicate Counts(rows: map<int, Job>, id: int, status: Status) {
    Live(rows, id) && rows[id].status == status
  }

  /** `get_one_pending_for_update` may take this job: the oldest pending one, or else the least retried. */
  predicate IsPick(rows: map<int, Job>, id: int) {
    || (&& Counts(rows, id, PENDING)
        && forall x :: x in rows && Counts(rows, x, PENDING) ==> rows[id].createdTime <= rows[x].createdTime)
    || (&& Counts(rows, id, RETRY) && (forall x :: x in rows ==> !Counts(rows, x, PENDING))
        && forall x :: x in rows && Counts(rows, x, RETRY) ==> NoLater(rows[id], rows[x]))
  }

  datatype Action =
    | Create(id: int, now: int)
    | Delete(id: int)
    | Take(id: int, reported: bool)     // get_one_pending_for_update; an exception after the commit ends the call
    | Begin(id: int, empty: bool)       // a CreateReport call arrives
    | Advance(k: nat, outcome: Outcome) // the k-th call in progress takes its next step

  function SetStatus(rows: map<int, Job>, id: int, status: Status): map<int, Job> {
    if id in rows then rows[id := rows[id].(status := status)] else rows
  }

  /** Where an exception leads. */
  function Recover(id: int, rolling: bool): seq<Task> {
    if rolling then [] else [Rollback(id)]
  }

  /** What follows a failure of the job: another try, or none when there were too many. */
  function Retrying(rows: map<int, Job>, id: int, rolling: bool): seq<Task>
    requires id in rows
  {
    var n := rows[id].retryTimes + 1;
    if n >= MAX_RETRY_TIMES then [Fail(id, rolling)] else [Lookup(id, n, rolling)]
  }

  /** The step's effect on the table and the counts. */
  function Effect(s: State, t: Task, o: Outcome): State {
    if o.Raises? then s
    else
      match t
      case Succeed(id) => s.(rows := SetStatus(s.rows, id, SUCCESS))
      case Fail(id, _) => s.(rows := SetStatus(s.rows, id, FAILED))
      case Store(id, row, _) =>
        s.(rows := s.rows[id := row], retried := s.retried[id := Times(s.retried, id) + 1])
      case _ => s
  }

  /** What the call does after the step. */
  function Next(s: State, t: Task, o: Outcome): seq<Task> {
    match t
    case Report(id, empty) =>
      if !o.Works? then Recover(id, false)
      else if !Live(s.rows, id) then []
      else if empty then Retrying(s.rows, id, false)
      else [Succeed(id)]
    case Succeed(id) => if o.Works? then [Submit(id)] else Recover(id, false)
    case Submit(id) => if o.Works? then [] else [Rollback(id)]
    case Fail(id, rolling) => if o.Works? then [] else Recover(id, rolling)
    case Lookup(id, n, rolling) =>
      if !o.Works? then Recover(id, rolling)
      else if !Live(s.rows, id) then []
      else [Store(id, s.rows[id].(status := RETRY, retryTimes := n), rolling)]
    case Store(id, _, rolling) => if o.Works? then [] else Recover(id, rolling)
    case Serve(id) => if o.Works? then [] else [Rollback(id)]
    case Rollback(id) => if !o.Works? || !Live(s.rows, id) then [] else Retrying(s.rows, id, true)
  }

  /** One action; one that cannot happen now changes nothing. */
  function Step(s: State, a: Action): State {
    match a
    case Create(id, now) =>
      if id in s.rows then s
      else s.(rows := s.rows[id := Job(id, PENDING, 0, now, false)], taken := s.taken[id := 0],
              retried := s.retried[id := 0])
    case Delete(id) => if id in s.rows then s.(rows := s.rows[id := s.rows[id].(deleted := true)]) else s
    case Take(id, reported) =>
      if !IsPick(s.rows, id) then s
      else s.(rows := SetStatus(s.rows, id, RUNNING), taken := s.taken[id := Times(s.taken, id) + 1],
              tasks := s.tasks + if reported then [Serve(id)] else [])
    case Begin(id, empty) => s.(tasks := s.tasks + [Report(id, empty)])
    case Advance(k, o) =>
      if k >= |s.tasks| then s
      else Effect(s, s.tasks[k], o).(tasks := s.tasks[..k] + Next(s, s.tasks[k], o) + s.tasks[k + 1..])
  }

  function Run(s: State, actions: seq<Action>): State
    decreases |actions|
  {
    if actions == [] then s else Run(Step(s, actions[0]), actions[1..])
  }

  // ------------------------------------------------------------ the pick

  lemma HasMember(ids: set<int>)
    ensures ids == {} || exists x :: x in ids
  {
    if forall x :: x !in ids {
      assert ids == {};
    }
  }

  lemma LeastRetry(rows: map<int, Job>, ids: set<int>) returns (id: int)
    requires ids != {} && ids <= rows.Keys
    ensures id in ids && forall x :: x in ids ==> NoLater(rows[id], rows[x])
    decreases |ids|
  {
    HasMember(ids);
    id :| id in ids;
    var rest := ids - {id};
    if rest != {} {
      var other := LeastRetry(rows, rest);
      if !NoLater(rows[id], rows[other]) {
        id := other;
      }
    }
  }

  lemma OldestOf(rows: map<int, Job>, ids: set<int>) returns (id: int)
    requires ids != {} && ids <= rows.Keys
    ensures id in ids && forall x :: x in ids ==> rows[id].createdTime <= rows[x].createdTime
    decreases |ids|
  {
    HasMember(ids);
    id :| id in ids;
    var rest := ids - {id};
    if rest != {} {
      var other := OldestOf(rows, rest);
      if rows[other].createdTime < rows[id].createdTime {
        id := other;
      }
    }
  }

  /** There is a job to take exactly when `count_pending` is not zero. */
  lemma PickExists(rows: map<int, Job>)
    ensures (exists id :: IsPick(rows, id)) <==> exists id :: Live(rows, id) && Waits(rows[id])
  {
    var pending := set id | id in rows && Counts(rows, id, PENDING);
    var retrying := set id | id in rows && Counts(rows, id, RETRY);
    if x :| Live(rows, x) && Waits(rows[x]) {
      if pending != {} {
        var id := OldestOf(rows, pending);
        assert IsPick(rows, id);
      } else {
        assert x !in pending && x in retrying;
        assert forall y :: Counts(rows, y, PENDING) ==> y in pending;
        var id := LeastRetry(rows, retrying);
        assert IsPick(rows, id);
      }
    }
    if id :| IsPick(rows, id) {
      assert Live(rows, id) && Waits(rows[id]);
    }
  }

  /**
   A job with a status other than PENDING and RETRY is never taken; a RETRY job only when no
   job is PENDING. No job of the same status was waiting longer, nor, of RETRY jobs, had
   fewer retries.
   */
  lemma PickIsNext(rows: map<int, Job>, id: int, x: int)
    requires IsPick(rows, id) && x in rows && !rows[x].deleted
    ensures id in rows && !rows[id].deleted
    ensures rows[id].status == PENDING || rows[id].status == RETRY
    ensures rows[x].status == PENDING ==>
      rows[id].status == PENDING && rows[id].createdTime <= rows[x].createdTime
    ensures rows[x].status == RETRY && rows[id].status == RETRY ==>
      && rows[id].retryTimes <= rows[x].retryTimes
      && (rows[id].retryTimes == rows[x].retryTimes ==> rows[id].createdTime <= rows[x].createdTime)
  {
    assert Live(rows, x);
  }

  // ------------------------------------------------------------ every call ends

  /** How many steps a call still takes at most, whatever fails. */
  function StepsLeft(t: Task): nat {
    match t
    case Report(_, _) => 6
    case Succeed(_) => 5
    case Submit(_) => 4
    case Serve(_) => 4
    case Fail(_, rolling) => if rolling then 1 else 4
    case Lookup(_, _, rolling) => if rolling then 2 else 5
    case Store(_, _, rolling) => if rolling then 1 else 4
    case Rollback(_) => 3
  }

  function AllLeft(tasks: seq<Task>): nat {
    if tasks == [] then 0 else StepsLeft(tasks[0]) + AllLeft(tasks[1..])
  }

  lemma {:induction false} AllLeftConcat(a: seq<Task>, b: seq<Task>)
    ensures AllLeft(a + b) == AllLeft(a) + AllLeft(b)
  {
    if a == [] {
      assert a + b == b;
    } else {
      assert (a + b)[1..] == a[1..] + b;
      AllLeftConcat(a[1..], b);
    }
  }

  /** The steps that calls take in a run, and the calls that arrive in it. */
  function StepsTaken(s: State, actions: seq<Action>): nat
    decreases |actions|
  {
    if actions == [] then 0
    else
      (if actions[0].Advance? && actions[0].k < |s.tasks| then 1 else 0)
      + StepsTaken(Step(s, actions[0]), actions[1..])
  }

  function Arrivals(actions: seq<Action>): nat {
    if actions == [] then 0
    else
      (if actions[0].Begin? || (actions[0].Take? && actions[0].reported) then 1 else 0) + Arrivals(actions[1..])
  }

  lemma StepSpends(s: State, a: Action)
    ensures AllLeft(Step(s, a).tasks) + (if a.Advance? && a.k < |s.tasks| then 1 else 0)
         <= AllLeft(s.tasks) + 6 * Arrivals([a])
  {
    match a
    case Begin(id, empty) =>
      AllLeftConcat(s.tasks, [Report(id, empty)]);
    case Take(id, reported) =>
      AllLeftConcat(s.tasks, if reported then [Serve(id)] else []);
    case Advance(k, o) =>
      if k < |s.tasks| {
        var next := Next(s, s.tasks[k], o);
        assert AllLeft(next) < StepsLeft(s.tasks[k]);
        assert s.tasks == s.tasks[..k] + ([s.tasks[k]] + s.tasks[k + 1..]);
        AllLeftConcat(s.tasks[..k], [s.tasks[k]] + s.tasks[k + 1..]);
        AllLeftConcat(s.tasks[..k] + next, s.tasks[k + 1..]);
        AllLeftConcat(s.tasks[..k], next);
      }
    case _ =>
  }

  lemma {:induction false} RunSpends(s: State, actions: seq<Action>)
    ensures StepsTaken(s, actions) + AllLeft(Run(s, actions).tasks) <= AllLeft(s.tasks) + 6 * Arrivals(actions)
    decreases |actions|
  {
    if actions != [] {
      hide Step, AllLeft;
      StepSpends(s, actions[0]);
      RunSpends(Step(s, actions[0]), actions[1..]);
      assert [actions[0]][1..] == [];
    }
  }

  /** In every interleaving, whatever fails, no call takes more than six steps: no rollback is rolled back. */
  lemma CallsEnd(actions: seq<Action>)
    ensures StepsTaken(EMPTY, actions) <= 6 * Arrivals(actions)
  {
    RunSpends(EMPTY, actions);
  }

  /** A call that fails outside its rollback is rolled back once, and a rollback that fails is given up. */
  lemma FaultRollsBack(s: State, t: Task, o: Outcome)
    requires o == Raises || o == WorksThenRaises
    ensures Next(s, t, o) == if StepsLeft(t) > 3 then [Rollback(t.id)] else []
  {
  }

  // ------------------------------------------------------------ every interleaving

  predicate RetriesOk(n: int) {
    0 <= n < MAX_RETRY_TIMES
  }

  predicate TaskOk(t: Task) {
    match t
    case Lookup(_, n, _) => RetriesOk(n)
    case Store(id, row, _) => RetriesOk(row.retryTimes) && row.status == RETRY && row.id == id
    case _ => true
  }

  /** A job that waits has been taken no more often than it was put back; any other, once more at most. */
  ghost predicate JobOk(s: State, id: int)
    requires id in s.rows
  {
    && s.rows[id].id == id && RetriesOk(s.rows[id].retryTimes)
    && Times(s.taken, id) <= Times(s.retried, id) + if Waits(s.rows[id]) then 0 else 1
  }

  ghost predicate Inv(s: State) {
    && (forall id :: id in s.rows ==> JobOk(s, id))
    && (forall k :: 0 <= k < |s.tasks| ==> TaskOk(s.tasks[k]))
    && (forall k :: 0 <= k < |s.tasks| && s.tasks[k].Store? ==> s.tasks[k].id in s.rows)
  }

  lemma NextOk(s: State, t: Task, o: Outcome)
    requires Inv(s) && TaskOk(t)
    ensures forall i :: 0 <= i < |Next(s, t, o)| ==> TaskOk(Next(s, t, o)[i]) && Next(s, t, o)[i].id == t.id
    ensures forall i :: 0 <= i < |Next(s, t, o)| && Next(s, t, o)[i].Store? ==> t.id in s.rows
    ensures |Next(s, t, o)| <= 1
  {
    if Live(s.rows, t.id) {
      assert JobOk(s, t.id);
    }
  }

  lemma EffectKeeps(s: State, t: Task, o: Outcome)
    requires Inv(s) && TaskOk(t) && (t.Store? ==> t.id in s.rows)
    ensures Effect(s, t, o).rows.Keys == s.rows.Keys
    ensures forall id :: id in s.rows ==> JobOk(Effect(s, t, o), id)
  {
    forall id | id in s.rows ensures JobOk(Effect(s, t, o), id) {
      assert JobOk(s, id);
    }
  }

  lemma AdvanceKeeps(s: State, k: nat, o: Outcome)
    requires Inv(s)
    ensures Inv(Step(s, Advance(k, o)))
  {
    if k < |s.tasks| {
      var t := s.tasks[k];
      var s', next := Step(s, Advance(k, o)), Next(s, t, o);
      NextOk(s, t, o);
      EffectKeeps(s, t, o);
      forall id | id in s'.rows ensures JobOk(s', id) {
        assert JobOk(Effect(s, t, o), id);
      }
      forall i | 0 <= i < |s'.tasks| ensures TaskOk(s'.tasks[i]) && (s'.tasks[i].Store? ==> s'.tasks[i].id in s'.rows) {
        assert s'.tasks[i] ==
          if i < k then s.tasks[i] else if i < k + |next| then next[i - k] else s.tasks[i - |next| + 1];
      }
    }
  }

  lemma StepKeeps(s: State, a: Action)
    requires Inv(s)
    ensures Inv(Step(s, a))
  {
    var s' := Step(s, a);
    if a.Advance? {
      AdvanceKeeps(s, a.k, a.outcome);
    } else {
      forall id | id in s'.rows ensures JobOk(s', id) {
        if id in s.rows {
          assert JobOk(s, id);
        }
      }
    }
  }

  lemma {:induction false} RunKeeps(s: State, actions: seq<Action>)
    requires Inv(s)
    ensures Inv(Run(s, actions))
    decreases |actions|
  {
    if actions != [] {
      StepKeeps(s, actions[0]);
      RunKeeps(Step(s, actions[0]), actions[1..]);
    }
  }

  /**
   In every interleaving and with failures at any point, a job's retry_times stays in 0..9,
   and it was taken at most once more often than it was put back to RETRY.
   */
  lemma RetriesBounded(actions: seq<Action>, id: int)
    requires id in Run(EMPTY, actions).rows
    ensures var s := Run(EMPTY, actions);
      0 <= s.rows[id].retryTimes <= 9 && Times(s.taken, id) <= Times(s.retried, id) + 1
  {
    RunKeeps(EMPTY, actions);
    assert JobOk(Run(EMPTY, actions), id);
  }

  /**
   Between two times a job is taken there is always a move to RETRY: once taken, it is not
   taken again without one.
   */
  lemma {:induction false} TakenApart(s: State, actions: seq<Action>, id: int)
    requires Inv(s) && id in s.rows && !Waits(s.rows[id])
    ensures var t := Run(s, actions);
      Times(t.taken, id) > Times(s.taken, id) ==> Times(t.retried, id) > Times(s.retried, id)
    decreases |actions|
  {
    if actions != [] {
      var s' := Step(s, actions[0]);
      StepKeeps(s, actions[0]);
      StepCounts(s, actions[0], id);
      if Times(s'.retried, id) == Times(s.retried, id) {
        TakenApart(s', actions[1..], id);
      } else {
        RunCounts(s', actions[1..], id);
      }
    }
  }

  /** The counts only grow; a job that does not wait is not taken, and waits again only by a move to RETRY. */
  lemma StepCounts(s: State, a: Action, id: int)
    requires Inv(s) && id in s.rows
    ensures var s' := Step(s, a);
      && id in s'.rows && Times(s'.retried, id) >= Times(s.retried, id) && Times(s'.taken, id) >= Times(s.taken, id)
      && (!Waits(s.rows[id]) ==>
            && Times(s'.taken, id) == Times(s.taken, id)
            && (Waits(s'.rows[id]) ==> Times(s'.retried, id) > Times(s.retried, id)))
  {
  }

  lemma {:induction false} RunCounts(s: State, actions: seq<Action>, id: int)
    requires Inv(s) && id in s.rows
    ensures Times(Run(s, actions).retried, id) >= Times(s.retried, id)
    decreases |actions|
  {
    if actions != [] {
      StepKeeps(s, actions[0]);
      StepCounts(s, actions[0], id);
      RunCounts(Step(s, actions[0]), actions[1..], id);
    }
  }

  // ------------------------------------------------------------ calls on one job that do not interleave

  /** A waiting job was taken no more often than its retry_times say; any other, once more at most. */
  ghost predicate Bounded(s: State) {
    forall id :: id in s.rows ==> Times(s.taken, id) <= s.rows[id].retryTimes + if Waits(s.rows[id]) then 0 else 1
  }

  /** The action does not put a job back to RETRY without raising its retry_times. */
  ghost predicate RaisesRetries(s: State, a: Action) {
    a.Advance? && a.k < |s.tasks| && s.tasks[a.k].Store? && !a.outcome.Raises? && s.tasks[a.k].id in s.rows ==>
      s.tasks[a.k].row.retryTimes > s.rows[s.tasks[a.k].id].retryTimes
  }

  ghost predicate RaisingRun(s: State, actions: seq<Action>)
    decreases |actions|
  {
    actions == [] || (RaisesRetries(s, actions[0]) && RaisingRun(Step(s, actions[0]), actions[1..]))
  }

  lemma StepBounded(s: State, a: Action)
    requires Inv(s) && Bounded(s) && RaisesRetries(s, a)
    ensures Bounded(Step(s, a))
  {
  }

  lemma {:induction false} RunBounded(s: State, actions: seq<Action>)
    requires Inv(s) && Bounded(s) && RaisingRun(s, actions)
    ensures Bounded(Run(s, actions))
    decreases |actions|
  {
    if actions != [] {
      StepBounded(s, actions[0]);
      StepKeeps(s, actions[0]);
      RunBounded(Step(s, actions[0]), actions[1..]);
    }
  }

  /** Some call on the job is in progress. */
  ghost predicate Busy(s: State, id: int) {
    exists k :: 0 <= k < |s.tasks| && s.tasks[k].id == id
  }

  /** No call on a job begins while another call on it is in progress. */
  ghost predicate Alone(s: State, a: Action) {
    match a
    case Take(id, _) => !Busy(s, id)
    case Begin(id, _) => !Busy(s, id)
    case _ => true
  }

  ghost predicate SequentialRun(s: State, actions: seq<Action>)
    decreases |actions|
  {
    actions == [] || (Alone(s, actions[0]) && SequentialRun(Step(s, actions[0]), actions[1..]))
  }

  /** What a call has read about its job still holds. */
  predicate UpToDate(s: State, t: Task) {
    match t
    case Lookup(id, n, _) => id in s.rows && n == s.rows[id].retryTimes + 1
    case Store(id, row, _) => id in s.rows && row.retryTimes == s.rows[id].retryTimes + 1
    case _ => true
  }

  ghost predicate Orderly(s: State) {
    && (forall i, j :: 0 <= i < j < |s.tasks| ==> s.tasks[i].id != s.tasks[j].id)
    && forall k :: 0 <= k < |s.tasks| ==> UpToDate(s, s.tasks[k])
  }

  lemma OthersUpToDate(s: State, t: Task, o: Outcome, u: Task)
    requires UpToDate(s, u) && u.id != t.id && (t.Store? ==> t.id in s.rows)
    ensures UpToDate(Effect(s, t, o), u)
  {
  }

  /** Putting one task in the place of another of the same job, or none, keeps the jobs distinct. */
  lemma DistinctKept(tasks: seq<Task>, k: nat, next: seq<Task>)
    requires k < |tasks| && |next| <= 1 && forall i :: 0 <= i < |next| ==> next[i].id == tasks[k].id
    requires forall i, j :: 0 <= i < j < |tasks| ==> tasks[i].id != tasks[j].id
    ensures var r := tasks[..k] + next + tasks[k + 1..];
      forall i, j :: 0 <= i < j < |r| ==> r[i].id != r[j].id
  {
  }

  lemma AdvanceOrderly(s: State, k: nat, o: Outcome)
    requires Inv(s) && Orderly(s) && k < |s.tasks|
    ensures Orderly(Step(s, Advance(k, o)))
  {
    var t := s.tasks[k];
    var mid, next := Effect(s, t, o), Next(s, t, o);
    var r := s.tasks[..k] + next + s.tasks[k + 1..];
    NextOk(s, t, o);
    NextUpToDate(s, t, o);
    assert Step(s, Advance(k, o)) == mid.(tasks := r);
    hide Step, Next, Effect, Inv, TaskOk;
    DistinctKept(s.tasks, k, next);
    forall i | 0 <= i < |r| ensures UpToDate(mid, r[i]) {
      if i < k {
        OthersUpToDate(s, t, o, s.tasks[i]);
      } else if i >= k + |next| {
        OthersUpToDate(s, t, o, s.tasks[i - |next| + 1]);
      }
    }
  }

  /** The next step's view of the job is right, whatever this step did to the table. */
  lemma NextUpToDate(s: State, t: Task, o: Outcome)
    requires Inv(s) && TaskOk(t) && UpToDate(s, t)
    ensures forall i :: 0 <= i < |Next(s, t, o)| ==> UpToDate(Effect(s, t, o), Next(s, t, o)[i])
  {
  }

  lemma StepOrderly(s: State, a: Action)
    requires Inv(s) && Orderly(s) && Alone(s, a)
    ensures Orderly(Step(s, a)) && RaisesRetries(s, a)
  {
    if a.Advance? && a.k < |s.tasks| {
      assert UpToDate(s, s.tasks[a.k]);
      AdvanceOrderly(s, a.k, a.outcome);
    } else {
      var s' := Step(s, a);
      forall k | 0 <= k < |s'.tasks| ensures UpToDate(s', s'.tasks[k]) {
        if k < |s.tasks| {
          assert UpToDate(s, s.tasks[k]);
        }
      }
    }
  }

  lemma {:induction false} SequentialRaises(s: State, actions: seq<Action>)
    requires Inv(s) && Orderly(s) && SequentialRun(s, actions)
    ensures RaisingRun(s, actions)
    decreases |actions|
  {
    if actions != [] {
      StepOrderly(s, actions[0]);
      StepKeeps(s, actions[0]);
      SequentialRaises(Step(s, actions[0]), actions[1..]);
    }
  }

  /** When calls on one job do not interleave, it is taken at most retry_times + 1 times, so at most 10 times. */
  lemma TakenBounded(actions: seq<Action>, id: int)
    requires SequentialRun(EMPTY, actions) && id in Run(EMPTY, actions).rows
    ensures var s := Run(EMPTY, actions); Times(s.taken, id) <= s.rows[id].retryTimes + 1 <= 10
  {
    SequentialRaises(EMPTY, actions);
    RunBounded(EMPTY, actions);
    RetriesBounded(actions, id);
  }

  // ------------------------------------------------------------ and when they do

  /** A stale write of a job at the bound lets it be taken once too often. */
  lemma StaleStoreBreaks(s: State, k: nat)
    requires Inv(s) && k < |s.tasks| && s.tasks[k].Store?
    requires var id := s.tasks[k].id;
      s.tasks[k].row.retryTimes <= s.rows[id].retryTimes && Times(s.taken, id) == s.rows[id].retryTimes + 1
    ensures var id, s1 := s.tasks[k].id, Step(s, Advance(k, Works));
      IsPick(s1.rows, id) ==>
        var s2 := Step(s1, Take(id, true)); id in s2.rows && Times(s2.taken, id) > s2.rows[id].retryTimes + 1
  {
  }

  /** The table with one job in it and its two histories, and some calls in progress. */
  function One(status: Status, retries: int, tasks: seq<Task>, taken: nat, retried: nat): State {
    State(map[1 := Job(1, status, retries, 0, false)], tasks, map[1 := taken], map[1 := retried])
  }

  /** Reports that have looked the job up before its first retry and not written it back yet. */
  function Stale(n: nat): (tasks: seq<Task>)
    ensures |tasks| == n && forall k :: 0 <= k < n ==> tasks[k] == Lookup(1, 1, false)
  {
    seq(n, _ => Lookup(1, 1, false))
  }

  lemma TakenOnce()
    ensures Run(EMPTY, [Create(1, 0), Take(1, true), Advance(0, Works)]) == One(RUNNING, 0, Stale(0), 1, 0)
  {
    var s := Step(EMPTY, Create(1, 0));
    assert s == One(PENDING, 0, [], 0, 0);
    assert IsPick(s.rows, 1);
    assert Step(s, Take(1, true)) == One(RUNNING, 0, [Serve(1)], 1, 0);
    RunsThree(EMPTY, Create(1, 0), Take(1, true), Advance(0, Works));
  }

  /** One more report looks the job up. */
  lemma ReadsOne(n: nat)
    ensures Run(One(RUNNING, 0, Stale(n), 1, 0), [Begin(1, true), Advance(n, Works)])
      == One(RUNNING, 0, Stale(n + 1), 1, 0)
  {
    var s := Step(One(RUNNING, 0, Stale(n), 1, 0), Begin(1, true));
    assert s == One(RUNNING, 0, Stale(n) + [Report(1, true)], 1, 0);
    assert Stale(n) + [Lookup(1, 1, false)] == Stale(n + 1);
    assert Step(s, Advance(n, Works)) == One(RUNNING, 0, Stale(n + 1), 1, 0);
    RunsTwo(One(RUNNING, 0, Stale(n), 1, 0), Begin(1, true), Advance(n, Works));
  }

  /** The oldest of these reports writes the job back with one retry, whatever count it has by now. */
  lemma WritesOne(n: nat, retries: int, taken: nat, retried: nat)
    ensures Run(One(RUNNING, retries, Stale(n + 1), taken, retried), [Advance(0, Works), Advance(0, Works)])
         == One(RETRY, 1, Stale(n), taken, retried + 1)
  {
    var s := One(RUNNING, retries, Stale(n + 1), taken, retried);
    var store := Store(1, Job(1, RETRY, 1, 0, false), false);
    assert Stale(n + 1)[1..] == Stale(n) && Stale(n + 1)[..0] == [];
    assert Step(s, Advance(0, Works)).tasks == [store] + Stale(n);
    assert Step(s, Advance(0, Works)) == One(RUNNING, retries, [store] + Stale(n), taken, retried);
    assert ([store] + Stale(n))[1..] == Stale(n) && ([store] + Stale(n))[..0] == [];
    RunsTwo(s, Advance(0, Works), Advance(0, Works));
  }

  /** The job is taken again, and the call that took it hands it out. */
  lemma TakesOne(n: nat, taken: nat, retried: nat)
    ensures Run(One(RETRY, 1, Stale(n), taken, retried), [Take(1, true), Advance(n, Works)])
         == One(RUNNING, 1, Stale(n), taken + 1, retried)
  {
    var s := One(RETRY, 1, Stale(n), taken, retried);
    assert IsPick(s.rows, 1);
    var s1 := Step(s, Take(1, true));
    assert s1 == One(RUNNING, 1, Stale(n) + [Serve(1)], taken + 1, retried);
    assert (Stale(n) + [Serve(1)])[..n] == Stale(n) && (Stale(n) + [Serve(1)])[n + 1..] == [];
    RunsTwo(s, Take(1, true), Advance(n, Works));
  }

  lemma {:induction false} AllRead(n: nat) returns (actions: seq<Action>)
    ensures Run(One(RUNNING, 0, Stale(0), 1, 0), actions) == One(RUNNING, 0, Stale(n), 1, 0)
  {
    hide Step, One, Stale;
    actions := [];
    if n > 0 {
      var front := AllRead(n - 1);
      actions := front + [Begin(1, true), Advance(n - 1, Works)];
      ReadsOne(n - 1);
      RunAppend(One(RUNNING, 0, Stale(0), 1, 0), front, [Begin(1, true), Advance(n - 1, Works)]);
    }
  }

  lemma {:induction false} AllWrite(n: nat, retries: int, taken: nat, retried: nat) returns (actions: seq<Action>)
    ensures Run(One(RUNNING, retries, Stale(n), taken, retried), actions)
         == One(RUNNING, if n == 0 then retries else 1, Stale(0), taken + n, retried + n)
    decreases n
  {
    hide Step, One, Stale;
    actions := [];
    if n > 0 {
      var s, write, take := One(RUNNING, retries, Stale(n), taken, retried), [Advance(0, Works), Advance(0, Works)],
        [Take(1, true), Advance(n - 1, Works)];
      WritesOne(n - 1, retries, taken, retried);
      TakesOne(n - 1, taken, retried + 1);
      var rest := AllWrite(n - 1, 1, taken + 1, retried + 1);
      actions := write + take + rest;
      RunAppend(s, write + take, rest);
      RunAppend(s, write, take);
    }
  }

  /**
   Without an order between calls there is no bound: n empty reports that look the job up
   before any of them writes it back let it be taken n + 1 times, with one retry counted.
   */
  lemma InterleavedReports(n: nat) returns (actions: seq<Action>)
    requires n > 0
    ensures Run(EMPTY, actions) == One(RUNNING, 1, [], n + 1, n)
  {
    hide Step, One;
    var first := [Create(1, 0), Take(1, true), Advance(0, Works)];
    TakenOnce();
    var looked := AllRead(n);
    var written := AllWrite(n, 0, 1, 0);
    actions := first + looked + written;
    RunAppend(EMPTY, first + looked, written);
    RunAppend(EMPTY, first, looked);
    assert Stale(0) == [];
  }

  lemma RunsTwo(s: State, a: Action, b: Action)
    ensures Run(s, [a, b]) == Step(Step(s, a), b)
  {
    hide Step;
    assert [a, b][1..] == [b] && [b][1..] == [];
    assert Run(Step(s, a), [b]) == Step(Step(s, a), b);
  }

  lemma RunsThree(s: State, a: Action, b: Action, c: Action)
    ensures Run(s, [a, b, c]) == Step(Step(Step(s, a), b), c)
  {
    hide Step;
    assert [a, b, c][1..] == [b, c];
    RunsTwo(Step(s, a), b, c);
  }

  lemma {:induction false} RunAppend(s: State, a: seq<Action>, b: seq<Action>)
    ensures Run(s, a + b) == Run(Run(s, a), b)
    decreases |a|
  {
    hide Step;
    if a == [] {
      assert a + b == b;
    } else {
      assert (a + b)[1..] == a[1..] + b;
      RunAppend(Step(s, a[0]), a[1..], b);
    }
  }

  // ------------------------------------------------------------ one call from beginning to end

  function Ahead(t: Task): nat {
    match t
    case Report(_, _) => 6
    case Succeed(_) => 5
    case Submit(_) => 4
    case Serve(_) => 4
    case Rollback(_) => 3
    case Lookup(_, _, _) => 2
    case _ => 1
  }

  /** A call runs alone to its end; the database works, and the external calls do if `external`. */
  function Call(s: State, t: Task, external: bool): State
    decreases Ahead(t)
  {
    var o := if !external && (t.Submit? || t.Serve?) then Raises else Works;
    var s', next := Effect(s, t, o), Next(s, t, o);
    if next == [] then s' else Call(s', next[0], external)
  }

  /** The only call in progress takes its next step. */
  lemma OnlyAdvance(s: State, t: Task, o: Outcome)
    requires s.tasks == [] && (o.Works? || t.Submit? || t.Serve?)
    ensures Step(s.(tasks := [t]), Advance(0, o)) == Effect(s, t, o).(tasks := Next(s, t, o))
    ensures Effect(s, t, o).tasks == [] && |Next(s, t, o)| <= 1
    ensures Next(s, t, o) != [] ==> Ahead(Next(s, t, o)[0]) < Ahead(t)
  {
    var next := Next(s, t, o);
    assert [t][..0] + next + [t][1..] == next;
  }

  /** Such a call is a run of the machine in which nothing else happens. */
  lemma {:induction false} CallIsRun(s: State, t: Task, external: bool) returns (actions: seq<Action>)
    requires s.tasks == []
    ensures Run(s.(tasks := [t]), actions) == Call(s, t, external)
    ensures SequentialRun(s.(tasks := [t]), actions)
    decreases Ahead(t)
  {
    var o := if !external && (t.Submit? || t.Serve?) then Raises else Works;
    var now, s', next := s.(tasks := [t]), Effect(s, t, o), Next(s, t, o);
    var a := Advance(0, o);
    OnlyAdvance(s, t, o);
    hide Effect, Next, Step, Ahead;
    if next == [] {
      actions := [a];
      assert actions[1..] == [];
    } else {
      assert next == [next[0]];
      var rest := CallIsRun(s', next[0], external);
      actions := [a] + rest;
      assert actions[1..] == rest;
    }
  }

  lemma {:induction false} CallKeeps(s: State, t: Task, external: bool)
    requires Inv(s) && s.tasks == [] && TaskOk(t) && (t.Store? ==> t.id in s.rows)
    ensures Inv(Call(s, t, external))
    decreases Ahead(t)
  {
    var o := if !external && (t.Submit? || t.Serve?) then Raises else Works;
    EffectKeeps(s, t, o);
    NextOk(s, t, o);
    var next := Next(s, t, o);
    if next != [] {
      CallKeeps(Effect(s, t, o), next[0], external);
    }
  }
}
