/** The scheduler object: a growable array of jobs, updated in place and saved to its file. */
module CronScheduler {
  import opened Wrappers
  import opened CText
  import opened Json
  import opened CronTable
  import opened CronRuns

  // The jobs file; None while it does not exist or holds no JSON.
  class JobsFile {
    var content: Option<Json>

    constructor (content: Option<Json>)
      ensures this.content == content
    {
      this.content := content;
    }
  }

  class Scheduler {
    const host: Host
    const file: JobsFile?  // null when no path is configured
    var jobs: array<Job>
    var count: nat
    ghost var run: State  // the run this scheduler is part of

    ghost predicate Valid()
      reads this
    {
      count <= jobs.Length && 16 <= jobs.Length
    }

    ghost function Table(): seq<Job>
      reads this, jobs
      requires Valid()
    {
      jobs[..count]
    }

    // The file holds the present table.
    ghost predicate Saved()
      reads this, jobs, file
      requires Valid()
    {
      file != null ==> file.content == Some(TableJson(host, Table()))
    }

    ghost function Here(): Setup {
      Setup(host, file != null)
    }

    // Table and file are those of the run's present state.
    ghost predicate Follows()
      reads this, jobs, file
      requires Valid()
    {
      && run.table == Table() && Synced(Here(), run)
      && (file != null ==> run.disk == file.content)
    }

    // nc_cron_init; clock(i) is the clock when the i-th job of the file is added, and end when all
    // are. What was before a restart is past.
    constructor (host: Host, file: JobsFile?, clock: nat -> int, ghost past: Option<State>, ghost end: int)
      requires past.Some? ==>
                 Synced(Setup(host, file != null), past.value) && (file != null ==> past.value.disk == file.content)
      modifies file
      ensures this.host == host && this.file == file
      ensures Valid() && Follows()
      ensures past.Some? ==> run == Apply(Here(), past.value, Op.Restart(clock, end))
      ensures past.None? ==> run == Started(Here(), if file == null then None else old(file.content), clock, end)
      ensures fresh(jobs)
      ensures Table() == if file == null then [] else Loaded(host, Records(old(file.content)), clock)
      ensures file != null && Records(old(file.content)) == [] ==> file.content == old(file.content)
      ensures file != null && Records(old(file.content)) != [] ==> Saved()
    {
      this.host := host;
      this.file := file;
      jobs := new Job[16](_ => EMPTY_JOB);
      count := 0;
      new;
      Load(clock);
      run := if past.Some? then Apply(Here(), past.value, Op.Restart(clock, end))
             else Started(Here(), if file == null then None else old(file.content), clock, end);
    }

    // cron_save
    method Save()
      requires Valid()
      modifies file
      ensures Saved()
      ensures Table() == old(Table())
    {
      if file == null {
        return;
      }
      var records := [];
      for i := 0 to count
        invariant |records| == i
        invariant forall k :: 0 <= k < i ==> records[k] == JobJson(host, jobs[k])
      {
        records := records + [JobJson(host, jobs[i])];
      }
      assert records == TableJson(host, Table()).items;
      file.content := Some(Array(records));
    }

    // cron_load, on a scheduler that holds no job yet
    method Load(clock: nat -> int)
      requires Valid() && count == 0
      modifies this, jobs, file
      ensures Valid() && (jobs == old(jobs) || fresh(jobs))
      ensures Table() == if file == null then [] else Loaded(host, Records(old(file.content)), clock)
      ensures file != null && Records(old(file.content)) == [] ==> file.content == old(file.content)
      ensures file != null && Records(old(file.content)) != [] ==> Saved()
    {
      if file == null {
        return;
      }
      var records := Records(file.content);
      var i := 0;
      while i < |records|
        invariant 0 <= i <= |records| && i == count
        invariant Valid() && (jobs == old(jobs) || fresh(jobs))
        invariant Table() == Loaded(host, records, clock)[..i]
        invariant i == 0 ==> file.content == old(file.content)
        invariant i > 0 ==> Saved()
        modifies this, jobs, file
      {
        var rc := Add(Some(JobFrom(records[i])), clock(i));
        LoadedNext(host, records, clock, i);
        i := i + 1;
      }
    }

    // Doubles the array when it is full.
    method Reserve()
      requires Valid()
      modifies this`jobs
      ensures Valid() && count < jobs.Length && (jobs == old(jobs) || fresh(jobs))
      ensures Table() == old(Table())
    {
      if count >= jobs.Length {
        var newCap := if jobs.Length != 0 then jobs.Length * 2 else 16;
        var moved := new Job[newCap](_ => EMPTY_JOB);
        forall i | 0 <= i < count {
          moved[i] := jobs[i];
        }
        jobs := moved;
      }
    }

    // Puts a job behind the others, numbered and scheduled.
    method Append(job: Job, now: int)
      requires Valid()
      modifies this`jobs, this`count, jobs
      ensures Valid() && (jobs == old(jobs) || fresh(jobs))
      ensures Table() == Adding(host, old(Table()), job, now)
    {
      Reserve();
      var slot := count;
      count := count + 1;
      jobs[slot] := job;
      if jobs[slot].id == 0 {
        jobs[slot] := jobs[slot].(id := count);
      }
      if jobs[slot].nextRun == 0 && jobs[slot].enabled {
        jobs[slot] := jobs[slot].(nextRun := FirstRun(host, now, jobs[slot]));
      }
      assert jobs[..count] == old(Table()) + [jobs[slot]];
    }

    // nc_cron_add; now is the clock reading it takes.
    method Add(job: Option<Job>, now: int) returns (rc: int)
      requires Valid()
      modifies this, jobs, file
      ensures Valid() && (jobs == old(jobs) || fresh(jobs))
      ensures job.None? ==> rc == -1 && Table() == old(Table()) && (file != null ==> file.content == old(file.content))
      ensures job.Some? ==> rc == 0 && Table() == Adding(host, old(Table()), job.value, now) && Saved()
      ensures old(Follows()) ==>
                && Follows()
                && run == if job.None? then old(run) else Apply(Here(), old(run), Op.Add(job.value, now))
    {
      if job.None? {
        return -1;
      }
      Append(job.value, now);
      Save();
      if old(Follows()) {
        run := Apply(Here(), old(run), Op.Add(job.value, now));
      }
      return 0;
    }

    // Moves the jobs after a slot down over it.
    method CloseGap(slot: nat)
      requires Valid() && slot < count
      modifies this`count, jobs
      ensures Valid()
      ensures Table() == old(Table())[..slot] + old(Table())[slot + 1..]
    {
      forall k | slot <= k < count - 1 {
        jobs[k] := jobs[k + 1];
      }
      count := count - 1;
    }

    // The first slot of an identifier; count when there is none.
    method FindSlot(id: nat) returns (slot: nat)
      requires Valid()
      ensures slot == IndexOf(Table(), id)
    {
      for i := 0 to count
        invariant forall k :: 0 <= k < i ==> Table()[k].id != id
      {
        assert jobs[i] == Table()[i];
        if jobs[i].id == id {
          IndexIs(Table(), id, i);
          return i;
        }
      }
      IndexIs(Table(), id, count);
      return count;
    }

    // nc_cron_remove: the first job with the id goes, the ones after it move down.
    method Remove(id: nat) returns (rc: int)
      requires Valid()
      modifies this`count, this`run, jobs, file
      ensures Valid()
      ensures Table() == Removing(old(Table()), id)
      ensures rc == if IndexOf(old(Table()), id) < |old(Table())| then 0 else -1
      ensures if rc == 0 then Saved() else file != null ==> file.content == old(file.content)
      ensures old(Follows()) ==> Follows() && run == Apply(Here(), old(run), Op.Remove(id))
    {
      var slot := FindSlot(id);
      if slot == count {
        return -1;
      }
      CloseGap(slot);
      Save();
      if old(Follows()) {
        run := Apply(Here(), old(run), Op.Remove(id));
      }
      return 0;
    }

    // nc_cron_update
    method Update(id: nat, updated: Option<Job>) returns (rc: int)
      requires Valid()
      modifies this`run, jobs, file
      ensures Valid()
      ensures updated.None? ==> rc == -1 && Table() == old(Table())
      ensures updated.Some? ==>
                && Table() == Updating(old(Table()), id, updated.value)
                && rc == if IndexOf(old(Table()), id) < |old(Table())| then 0 else -1
      ensures if rc == 0 then Saved() else file != null ==> file.content == old(file.content)
      ensures old(Follows()) ==>
                && Follows()
                && run == if updated.None? then old(run) else Apply(Here(), old(run), Op.Update(id, updated.value))
    {
      if updated.None? {
        return -1;
      }
      var slot := FindSlot(id);
      if slot == count {
        return -1;
      }
      jobs[slot] := updated.value;
      jobs[slot] := jobs[slot].(id := id);
      assert Table() == old(Table())[slot := updated.value.(id := id)];
      Save();
      if old(Follows()) {
        run := Apply(Here(), old(run), Op.Update(id, updated.value));
      }
      return 0;
    }

    // run_job, on the job in a slot: the command line handed to the shell, and the job afterwards.
    method RunJob(slot: nat, finish: int) returns (issued: Option<string>)
      requires Valid() && slot < count
      modifies jobs
      ensures issued == if old(Table())[slot].enabled then Issued(old(Table())[slot]) else None
      ensures Table() == if old(Table())[slot].enabled
                         then old(Table())[slot := AfterRun(host, old(Table())[slot], finish)]
                         else old(Table())
      ensures var j, r := old(Table())[slot], Table()[slot];
              r.(lastRun := j.lastRun, nextRun := j.nextRun, enabled := j.enabled) == j
    {
      if !jobs[slot].enabled {
        return None;
      }
      ghost var job := jobs[slot];
      assert job == old(Table())[slot];
      issued := None;
      if jobs[slot].jobType == JOB_SHELL && jobs[slot].command != "" {
        issued := Some(Clip(jobs[slot].command + " 2>&1", 2048));
      }
      assert issued == Issued(job);
      jobs[slot] := jobs[slot].(lastRun := finish);
      if jobs[slot].kind == SCHED_AT {
        jobs[slot] := jobs[slot].(nextRun := 0);
        jobs[slot] := jobs[slot].(enabled := false);
      } else {
        var next := NextRunOf(host, jobs[slot], finish);
        if next.Some? {
          jobs[slot] := jobs[slot].(nextRun := next.value);
        } else {
          jobs[slot] := jobs[slot].(nextRun := finish + 60);
        }
      }
      assert Table() == old(Table())[slot := jobs[slot]];
    }

    // A table some of the way through a pass: the first n slots have been looked at.
    ghost predicate PassedUpTo(before: seq<Job>, now: int, finish: nat -> int, n: nat, table: seq<Job>) {
      && n <= |before| == |table|
      && (forall k :: 0 <= k < n ==>
            table[k] == if Due(before[k], now) then AfterRun(host, before[k], finish(k)) else before[k])
      && (forall k :: n <= k < |before| ==> table[k] == before[k])
    }

    // The runs of some slots handed the shell their jobs' commands.
    ghost predicate IssuedBy(before: seq<Job>, ran: seq<nat>, issued: seq<Option<string>>) {
      && |issued| == |ran|
      && forall a :: 0 <= a < |ran| ==> ran[a] < |before| && issued[a] == Issued(before[ran[a]])
    }

    // The loop of a pass at clock reading now. The jobs it runs are returned in the order it runs
    // them, with what each handed to the shell; finish(i) is the clock when the run of slot i ends.
    method RunDue(now: int, finish: nat -> int) returns (ran: seq<nat>, issued: seq<Option<string>>)
      requires Valid()
      modifies jobs
      ensures Valid()
      ensures Table() == Passed(host, old(Table()), now, finish)
      ensures ran == DueSlots(old(Table()), now, |old(Table())|)
      ensures IssuedBy(old(Table()), ran, issued)
    {
      ghost var before := Table();
      ran, issued := [], [];
      for i := 0 to count
        invariant Valid() && PassedUpTo(before, now, finish, i, Table())
        invariant ran == DueSlots(before, now, i) && IssuedBy(before, ran, issued)
      {
        assert jobs[i] == Table()[i] == before[i];
        if jobs[i].enabled && jobs[i].nextRun > 0 && jobs[i].nextRun <= now {
          var command := RunJob(i, finish(i));
          ran, issued := ran + [i], issued + [command];
        }
      }
      assert Table() == Passed(host, before, now, finish);
    }

    // One pass of scheduler_thread at clock reading now, which goes on to end; the run of slot i
    // goes from start(i) to finish(i).
    method Pass(now: int, ghost start: nat -> int, finish: nat -> int, ghost end: int)
      returns (ran: seq<nat>, issued: seq<Option<string>>)
      requires Valid()
      modifies this`run, jobs, file
      ensures Valid()
      ensures Table() == Passed(host, old(Table()), now, finish)
      ensures ran == DueSlots(old(Table()), now, |old(Table())|)
      ensures IssuedBy(old(Table()), ran, issued)
      ensures if ran != [] then Saved() else file != null ==> file.content == old(file.content)
      ensures old(Follows()) ==> Follows() && run == Apply(Here(), old(run), Op.Pass(now, start, finish, end))
    {
      ghost var before := Table();
      ran, issued := RunDue(now, finish);
      if ran != [] {
        Save();
      }
      if old(Follows()) {
        if ran == [] {
          NothingRan(host, before, now, finish);
        }
        run := Apply(Here(), old(run), Op.Pass(now, start, finish, end));
      }
    }
  }
}
