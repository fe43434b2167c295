/**
 The manager's repository, service and servicer over one job table: what each call does to
 the table when it runs by itself, as a run of the table's state machine.
 */
module JobManager {
  import opened Texts
  import opened Dispatching

  /** `GetJob` took this job, and handed it out or put it back, as the external calls worked or not. */
  ghost predicate Handed(before: State, after: State, id: int, works: bool, job: Option<Job>) {
    && IsPick(before.rows, id) && after == Call(Step(before, Take(id, false)), Serve(id), works)
    && (job.Some? ==> job.value.id == id)
  }

  class Manager {
    var rows: map<int, Job>
    ghost var taken: map<int, nat>
    ghost var retried: map<int, nat>

    constructor ()
      ensures View() == EMPTY
    {
      rows, taken, retried := map[], map[], map[];
    }

    /** The table, with no call in progress. */
    ghost function View(): State
      reads this
    {
      State(rows, [], taken, retried)
    }

    // ------------------------------------------------------------ the repository

    method GetById(id: int) returns (job: Option<Job>)
      ensures job == if Live(rows, id) then Some(rows[id]) else None
    {
      if id in rows && !rows[id].deleted {
        return Some(rows[id]);
      }
      return None;
    }

    method UpdateStatus(id: int, status: Status)
      modifies this`rows
      ensures rows == SetStatus(old(rows), id, status)
    {
      if id in rows {
        rows := rows[id := rows[id].(status := status)];
      }
    }

    /** `session.merge`: the whole row as the caller holds it. */
    method Update(job: Job)
      modifies this`rows
      ensures rows == old(rows)[job.id := job]
    {
      rows := rows[job.id := job];
    }

    method CountPending() returns (n: nat)
      ensures n > 0 <==> exists id :: Live(rows, id) && Waits(rows[id])
    {
      var waiting := set id | id in rows && Live(rows, id) && Waits(rows[id]);
      HasMember(waiting);
      if id :| Live(rows, id) && Waits(rows[id]) {
        assert id in waiting;
      }
      n := |waiting|;
    }

    method GetOnePendingForUpdate() returns (job: Option<Job>)
      requires Inv(View())
      modifies this
      ensures job.None? <==> !exists id :: IsPick(old(rows), id)
      ensures job.None? ==> View() == old(View())
      ensures job.Some? ==> IsPick(old(rows), job.value.id) && View() == Step(old(View()), Take(job.value.id, false))
      ensures job.Some? ==> job.value == rows[job.value.id]
    {
      if exists id :: id in rows && IsPick(rows, id) {
        var id :| id in rows && IsPick(rows, id);
        assert JobOk(View(), id);
        rows := rows[id := rows[id].(status := RUNNING)];
        taken := taken[id := Times(taken, id) + 1];
        return Some(rows[id]);
      }
      return None;
    }

    // ------------------------------------------------------------ the service

    /** `create_job`; the database gives the row an id of its own. */
    method CreateJob(id: int, now: int)
      requires Inv(View()) && id !in rows
      modifies this
      ensures Inv(View()) && View() == Step(old(View()), Create(id, now))
    {
      rows := rows[id := Job(id, PENDING, 0, now, false)];
      taken, retried := taken[id := 0], retried[id := 0];
      StepKeeps(old(View()), Create(id, now));
    }

    method GetRunnableJob() returns (job: Option<Job>)
      requires Inv(View())
      modifies this
      ensures job.None? <==> !exists id :: Live(old(rows), id) && Waits(old(rows)[id])
      ensures job.None? ==> View() == old(View())
      ensures job.Some? ==> IsPick(old(rows), job.value.id) && View() == Step(old(View()), Take(job.value.id, false))
    {
      PickExists(rows);
      var count := CountPending();
      if count == 0 {
        return None;
      }
      job := GetOnePendingForUpdate();
    }

    /** `update_job` as the servicer calls it: back to RETRY with a new count. */
    method UpdateJob(id: int, retries: int)
      requires Inv(View())
      modifies this
      ensures View() == Call(old(View()), Lookup(id, retries, false), true)
      ensures View() == Call(old(View()), Lookup(id, retries, true), true)
    {
      var job := GetById(id);
      if job.None? {
        return;
      }
      assert JobOk(View(), id);
      Update(job.value.(status := RETRY, retryTimes := retries));
      retried := retried[id := Times(retried, id) + 1];
    }

    // ------------------------------------------------------------ the servicer

    method RollbackToRetry(id: int)
      requires Inv(View())
      modifies this
      ensures Inv(View()) && View() == Call(old(View()), Rollback(id), true) == Call(old(View()), Rollback(id), false)
    {
      ghost var s := View();
      CallKeeps(s, Rollback(id), true);
      var job := GetById(id);
      if job.Some? {
        CallsAgree(s, Retrying(rows, id, true)[0]);
        var retries := job.value.retryTimes + 1;
        if retries >= MAX_RETRY_TIMES {
          UpdateStatus(id, FAILED);
        } else {
          UpdateJob(id, retries);
        }
      }
    }

    /** `GetJob`; `fetched` and `updated` say whether its two external calls work. */
    method GetJob(fetched: bool, updated: bool) returns (job: Option<Job>)
      requires Inv(View())
      modifies this
      ensures Inv(View())
      ensures (forall id :: !IsPick(old(rows), id)) ==> job.None? && View() == old(View())
      ensures (exists id :: IsPick(old(rows), id)) ==> (job.Some? <==> fetched && updated)
      ensures var works := fetched && updated;
        (exists id :: IsPick(old(rows), id)) ==> exists id :: Handed(old(View()), View(), id, works, job)
    {
      PickExists(rows);
      ghost var s := View();
      job := GetRunnableJob();
      if job.None? {
        return;
      }
      ghost var id := job.value.id;
      StepKeeps(s, Take(id, false));
      if !fetched {
        RollbackToRetry(job.value.id);
        job := None;
      } else if !updated {
        RollbackToRetry(job.value.id);
        job := None;
      }
      assert Handed(s, View(), id, fetched && updated, job);
    }

    /** `CreateReport`; `submitted` says whether the external API takes the report. */
    method CreateReport(id: int, empty: bool, submitted: bool)
      requires Inv(View())
      modifies this
      ensures Inv(View()) && View() == Call(old(View()), Report(id, empty), submitted)
    {
      ghost var s := View();
      CallKeeps(s, Report(id, empty), submitted);
      var job := GetById(id);
      if job.None? {
        return;
      }
      if empty {
        CallsAgree(s, Retrying(rows, id, false)[0]);
        var retries := job.value.retryTimes + 1;
        if retries >= MAX_RETRY_TIMES {
          UpdateStatus(id, FAILED);
        } else {
          UpdateJob(id, retries);
        }
        return;
      }
      UpdateStatus(id, SUCCESS);
      EffectKeeps(s, Succeed(id), Works);
      ghost var s1 := View();
      assert s1 == Effect(s, Succeed(id), Works);
      SubmitLast(s, id, submitted);
      hide Call, Effect, Next;
      if !submitted {
        RollbackToRetry(id);
      }
    }
  }

  /** The part of a call that only touches the database does not depend on the external calls. */
  lemma CallsAgree(s: State, t: Task)
    requires t.Fail? || t.Lookup?
    ensures Call(s, t, true) == Call(s, t, false)
  {
  }

  /** A report that is not empty: SUCCESS first, then the external API, and a rollback if that fails. */
  lemma SubmitLast(s: State, id: int, submitted: bool)
    requires Live(s.rows, id)
    ensures var s1 := Effect(s, Succeed(id), Works);
      Call(s, Report(id, false), submitted) == if submitted then s1 else Call(s1, Rollback(id), false)
  {
    var s1 := Effect(s, Succeed(id), Works);
    assert Call(s, Report(id, false), submitted) == Call(s, Succeed(id), submitted);
    assert Call(s, Succeed(id), submitted) == Call(s1, Submit(id), submitted);
  }

  /** A failed try's fate: back to RETRY with one more, or FAILED after the last. */
  lemma RetryMeaning(s: State, id: int, rolling: bool, external: bool)
    requires Live(s.rows, id) && RetriesOk(s.rows[id].retryTimes)
    ensures var rows := Call(s, Retrying(s.rows, id, rolling)[0], external).rows;
      rows == s.rows[id := if s.rows[id].retryTimes == 9 then s.rows[id].(status := FAILED)
                           else s.rows[id].(status := RETRY, retryTimes := s.rows[id].retryTimes + 1)]
  {
  }

  /** A reported job's fate, outright: which row changes, and to what; the job's status before plays no part. */
  lemma ReportMeaning(s: State, id: int, empty: bool, submitted: bool)
    requires Inv(s)
    ensures var rows := Call(s, Report(id, empty), submitted).rows;
      if !Live(s.rows, id) then rows == s.rows
      else rows == s.rows[id :=
        if !empty && submitted then s.rows[id].(status := SUCCESS)
        else if s.rows[id].retryTimes == 9 then s.rows[id].(status := FAILED)
        else s.rows[id].(status := RETRY, retryTimes := s.rows[id].retryTimes + 1)]
  {
    if Live(s.rows, id) {
      assert JobOk(s, id);
      if empty {
        RetryMeaning(s, id, false, submitted);
      } else {
        SubmitLast(s, id, submitted);
        var s1 := Effect(s, Succeed(id), Works);
        RetryMeaning(s1, id, true, false);
      }
    }
  }
}
