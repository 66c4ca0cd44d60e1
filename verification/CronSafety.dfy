/** What holds of every run of the scheduler, whatever the steps and however often it restarts. */
module CronSafety {
  import opened Wrappers
  import opened CText
  import opened CronExpr
  import opened Json
  import opened CronTable
  import opened CronRuns
  import opened Widths

  // ---- The rules for one job ----

  // Seconds between runs of a repeating job; 0 for an expression that names a fixed time.
  function Gap(j: Job): int
    requires j.kind != SCHED_AT
  {
    if j.kind == SCHED_EVERY then (if j.everyMs >= 1000 then j.everyMs / 1000 else 60)
    else if "every:" <= j.cronExpr then
      var scan := Strtol(j.cronExpr[6..]);
      if scan.value <= 0 then 60 else scan.value * UnitSeconds(scan.rest)
    else if "at:" <= j.cronExpr then 0
    else 60
  }

  lemma GapRearms(host: Host, j: Job, t: int)
    requires j.kind != SCHED_AT && Gap(j) > 0
    ensures AfterRun(host, j, t).nextRun == t + Gap(j)
    ensures t >= 0 ==> FirstRun(host, t, j) == t + Gap(j)
  {
    if j.kind == SCHED_EVERY {
      IntervalRearms(host, j, t);
    }
  }

  predicate OneShot(b: Birth) {
    b.job.kind == SCHED_AT
  }

  // When a one-shot is to run: at the next run it came with, or else at its time.
  function StartTime(b: Birth): int {
    if b.job.nextRun == 0 then b.job.atTimestamp else b.job.nextRun
  }

  predicate Repeating(b: Birth) {
    b.job.kind != SCHED_AT && Trackable(b.job) && 0 < Gap(b.job) <= CLOCK_MAX
  }

  ghost predicate FiresOnce(v: View) {
    && |v.runs| <= 1
    && (v.job.Some? ==> v.job.value.kind == SCHED_AT && (v.job.value.enabled ==> v.runs == []))
  }

  // Armed for its start; only an update can leave a one-shot unarmed, until the next restart.
  predicate ArmedAt(b: Birth, nextRun: int) {
    nextRun == StartTime(b) || (!b.added && b.job.nextRun == 0 && nextRun == 0)
  }

  ghost predicate FiresOnTime(b: Birth, v: View) {
    && (forall r :: r in v.runs ==> StartTime(b) <= r.start)
    && (v.job.Some? ==>
          var j := v.job.value;
          && SameSchedule(j, b.job) && Trackable(j)
          && (j.enabled ==> ArmedAt(b, j.nextRun)))
  }

  // Each run starts at least gap seconds after every earlier one ended.
  ghost predicate Spaced(runs: seq<Span>, gap: int) {
    forall i, j :: 0 <= i < j < |runs| ==> runs[i].finish + gap <= runs[j].start
  }

  ghost predicate FiresApart(b: Job, v: View, clock: int)
    requires b.kind != SCHED_AT
  {
    && Spaced(v.runs, Gap(b))
    && (forall i :: 0 <= i < |v.runs| ==> 0 <= v.runs[i].start <= v.runs[i].finish <= clock)
    && (v.job.Some? ==>
          && SameSchedule(v.job.value, b) && Trackable(v.job.value)
          && (v.runs != [] ==> v.job.value.nextRun == v.runs[|v.runs| - 1].finish + Gap(b)))
  }

  // The job found is what came in, and every run issued the command that came in.
  ghost predicate KeepsTask(b: Job, v: View) {
    && (v.job.Some? ==> SameTask(b, v.job.value))
    && (forall r :: r in v.runs ==> r.issued == Issued(b))
  }

  ghost predicate BirthKept(b: Birth, v: View, clock: int) {
    && (OneShot(b) ==> FiresOnce(v))
    && (OneShot(b) && Trackable(b.job) ==> FiresOnTime(b, v))
    && (Repeating(b) ==> FiresApart(b.job, v, clock))
    && (Keepable(b.job) ==> KeepsTask(b.job, v))
  }

  lemma TaskStep(host: Host, b: Job, v: View, w: View, clock: int, end: int)
    requires Keepable(b) && KeepsTask(b, v)
    requires ViewStep(host, v, w, clock, end)
    ensures KeepsTask(b, w)
  {
    if v.job.Some? && w.job.Some? && exists now, span :: RunStep(host, v, w, now, span) {
      var now, span :| RunStep(host, v, w, now, span);
      RunKeepsTheRest(host, v.job.value, span.finish);
    }
  }

  lemma OnceStep(host: Host, v: View, w: View, clock: int, end: int)
    requires FiresOnce(v) && ViewStep(host, v, w, clock, end)
    ensures FiresOnce(w)
  {
  }

  lemma OnTimeStep(host: Host, b: Birth, v: View, w: View, clock: int, end: int)
    requires OneShot(b) && Trackable(b.job) && FiresOnTime(b, v)
    requires ViewStep(host, v, w, clock, end)
    ensures FiresOnTime(b, w)
  {
  }

  lemma SpacedAppend(runs: seq<Span>, gap: int, span: Span)
    requires gap > 0 && Spaced(runs, gap)
    requires forall i :: 0 <= i < |runs| ==> runs[i].start <= runs[i].finish
    requires runs != [] ==> runs[|runs| - 1].finish + gap <= span.start
    ensures Spaced(runs + [span], gap)
  {
    forall i | 0 <= i < |runs| ensures runs[i].finish + gap <= span.start {
      var last := runs[|runs| - 1];
      assert i < |runs| - 1 ==> runs[i].finish + gap <= last.start;
    }
  }

  lemma ApartRun(host: Host, b: Job, v: View, w: View, clock: int, end: int, now: int, span: Span)
    requires b.kind != SCHED_AT && 0 < Gap(b) <= CLOCK_MAX && FiresApart(b, v, clock)
    requires RunStep(host, v, w, now, span) && 0 <= clock <= now <= span.start <= span.finish <= end <= CLOCK_MAX
    ensures FiresApart(b, w, end)
  {
    var j := v.job.value;
    assert Gap(j) == Gap(b);
    GapRearms(host, j, span.finish);
    SpacedAppend(v.runs, Gap(b), span);
  }

  lemma ApartStep(host: Host, b: Job, v: View, w: View, clock: int, end: int)
    requires b.kind != SCHED_AT && Trackable(b) && 0 < Gap(b) <= CLOCK_MAX && FiresApart(b, v, clock)
    requires 0 <= clock <= end <= CLOCK_MAX
    requires ViewStep(host, v, w, clock, end)
    ensures FiresApart(b, w, end)
  {
    if w == v || w == View(None, v.runs) {
    } else if now, span :| RunStep(host, v, w, now, span) && clock <= now <= span.start <= span.finish <= end {
      ApartRun(host, b, v, w, clock, end, now, span);
    } else {
      var j := v.job.value;
      var t :| clock <= t <= end && Rearmed(host, j, w.job.value, t);
      assert Gap(j) == Gap(b);
      GapRearms(host, j, t);
      if |v.runs| > 0 {
        assert j.nextRun == v.runs[|v.runs| - 1].finish + Gap(b) > 0;
      }
    }
  }

  // ---- The rules for every job, kept by every step ----

  ghost predicate Kept(setup: Setup, s: State) {
    && Booked(setup, s)
    && forall k: nat :: k < |s.births| ==> BirthKept(s.births[k], ViewOf(s, k), s.clock)
  }

  lemma NoRunsYet(log: seq<LoggedRun>, k: nat)
    requires forall i :: 0 <= i < |log| ==> log[i].serial < k
    ensures RunsOf(log, k) == []
  {
  }

  // A new job starts out as the rules want it.
  lemma NewbornKept(host: Host, b: Birth, now: int)
    requires 0 <= now <= CLOCK_MAX
    ensures forall count: nat :: count > 0 && b.added ==>
              BirthKept(b, View(Some(Arm(host, count, now, b.job)), []), now)
    ensures !b.added ==> BirthKept(b, View(Some(b.job), []), now)
  {
    if Repeating(b) {
      GapRearms(host, b.job, now);
      forall count: nat | count > 0 && b.added
        ensures BirthKept(b, View(Some(Arm(host, count, now, b.job)), []), now)
      {
        SameFirstRun(host, now, b.job.(id := count), b.job);
      }
    }
  }

  lemma AddedKept(setup: Setup, s: State, job: Job, now: int)
    requires Booked(setup, s) && s.clock <= now <= CLOCK_MAX
    ensures var t := AfterAdd(setup, s, job, now);
            BirthKept(t.births[|s.births|], ViewOf(t, |s.births|), t.clock)
  {
    var t, k := AfterAdd(setup, s, job, now), |s.births|;
    NoRunsYet(s.log, k);
    var q := SlotOf(t.serials, k);
    assert t.serials[|s.serials|] == k && q == |s.serials|;
    NewbornKept(setup.host, Birth(job, true), now);
    assert ViewOf(t, k) == View(Some(Arm(setup.host, |s.table| + 1, now, job)), []);
  }

  lemma UpdatedKept(setup: Setup, s: State, id: nat, job: Job)
    requires Booked(setup, s) && IndexOf(s.table, id) < |s.table|
    ensures var t := AfterUpdate(setup, s, id, job);
            BirthKept(t.births[|s.births|], ViewOf(t, |s.births|), t.clock)
  {
    var t, k := AfterUpdate(setup, s, id, job), |s.births|;
    NoRunsYet(s.log, k);
    var i, q := IndexOf(s.table, id), SlotOf(t.serials, k);
    assert t.serials[i] == k && q == i;
    NewbornKept(setup.host, t.births[k], s.clock);
  }

  lemma OldKept(setup: Setup, s: State, op: Op, k: nat)
    requires Lawful(setup.host) && Kept(setup, s) && InTime(s, op) && k < |s.births|
    ensures var t := Apply(setup, s, op);
            |s.table| == |s.serials| && |t.table| == |t.serials| && k < |t.births|
            && BirthKept(t.births[k], ViewOf(t, k), t.clock)
  {
    var t := Apply(setup, s, op);
    StepBooked(setup, s, op);
    StepView(setup, s, op, k);
    var b := s.births[k];
    assert t.births[k] == b && BirthKept(b, ViewOf(s, k), s.clock);
    if OneShot(b) {
      OnceStep(setup.host, ViewOf(s, k), ViewOf(t, k), s.clock, t.clock);
    }
    if OneShot(b) && Trackable(b.job) {
      OnTimeStep(setup.host, b, ViewOf(s, k), ViewOf(t, k), s.clock, t.clock);
    }
    if Keepable(b.job) {
      TaskStep(setup.host, b.job, ViewOf(s, k), ViewOf(t, k), s.clock, t.clock);
    }
    if Repeating(b) {
      ApartStep(setup.host, b.job, ViewOf(s, k), ViewOf(t, k), s.clock, t.clock);
    }
  }

  lemma StepKept(setup: Setup, s: State, op: Op)
    requires Lawful(setup.host) && Kept(setup, s) && InTime(s, op)
    ensures Kept(setup, Apply(setup, s, op))
  {
    var t := Apply(setup, s, op);
    StepBooked(setup, s, op);
    forall k: nat | k < |t.births| ensures BirthKept(t.births[k], ViewOf(t, k), t.clock) {
      if k < |s.births| {
        OldKept(setup, s, op, k);
      } else if op.Add? {
        AddedKept(setup, s, op.job, op.now);
      } else if op.Update? {
        UpdatedKept(setup, s, op.id, op.job);
      }
    }
  }

  // ---- Runs ----

  // t is reached from s by doing ops in order.
  ghost predicate Reaches(setup: Setup, s: State, ops: seq<Op>, t: State)
    decreases |ops|
  {
    if ops == [] then s == t
    else Synced(setup, s) && InTime(s, ops[0]) && Reaches(setup, Apply(setup, s, ops[0]), ops[1..], t)
  }

  lemma StartKept(setup: Setup, disk: Option<Json>, reading: nat -> int, clock: int)
    requires 0 <= clock <= CLOCK_MAX
    ensures Kept(setup, Started(setup, disk, reading, clock))
  {
    var s := Started(setup, disk, reading, clock);
    forall k: nat | k < |s.births| ensures BirthKept(s.births[k], ViewOf(s, k), s.clock) {
      var p := SlotOf(s.serials, k);
      assert s.serials[k] == k;
      assert s.serials[p] == k && p == k;
      NewbornKept(setup.host, s.births[k], clock);
    }
  }

  lemma {:induction false} RunKept(setup: Setup, s: State, ops: seq<Op>, t: State)
    requires Lawful(setup.host) && Kept(setup, s) && Reaches(setup, s, ops, t)
    ensures Kept(setup, t)
    decreases |ops|
  {
    if ops != [] {
      StepKept(setup, s, ops[0]);
      RunKept(setup, Apply(setup, s, ops[0]), ops[1..], t);
    }
  }

  // A one-shot, whatever it holds and however it came in, fires at most once in the whole run; once
  // it has fired it is disabled, and no restart enables it again.
  lemma OneShotFiresOnce(setup: Setup, disk: Option<Json>, reading: nat -> int, clock: int,
                         ops: seq<Op>, t: State, k: nat)
    requires Lawful(setup.host) && 0 <= clock <= CLOCK_MAX
    requires Reaches(setup, Started(setup, disk, reading, clock), ops, t)
    requires k < |t.births| && t.births[k].job.kind == 1
    ensures var runs := RunsOf(t.log, k);
            && |runs| <= 1
            && |t.serials| == |t.table|
            && forall i :: 0 <= i < |t.table| && t.serials[i] == k && t.table[i].enabled ==> runs == []
  {
    StartKept(setup, disk, reading, clock);
    RunKept(setup, Started(setup, disk, reading, clock), ops, t);
    assert BirthKept(t.births[k], ViewOf(t, k), t.clock);
    forall i | 0 <= i < |t.table| && t.serials[i] == k ensures SlotOf(t.serials, k) == i {
    }
  }

  // Nor does it fire before its time, or before the next run it came with. While enabled it is
  // armed for exactly then, unless an update put it in unarmed.
  lemma OneShotNeverEarly(setup: Setup, disk: Option<Json>, reading: nat -> int, clock: int,
                          ops: seq<Op>, t: State, k: nat)
    requires Lawful(setup.host) && 0 <= clock <= CLOCK_MAX
    requires Reaches(setup, Started(setup, disk, reading, clock), ops, t)
    requires k < |t.births| && t.births[k].job.kind == 1 && Trackable(t.births[k].job)
    ensures var b, job := t.births[k], t.births[k].job;
            var due := if job.nextRun == 0 then job.atTimestamp else job.nextRun;
            && (forall r :: r in RunsOf(t.log, k) ==> due <= r.start)
            && |t.serials| == |t.table|
            && forall i :: 0 <= i < |t.table| && t.serials[i] == k && t.table[i].enabled ==>
                 t.table[i].nextRun == due || (!b.added && job.nextRun == 0 && t.table[i].nextRun == 0)
  {
    StartKept(setup, disk, reading, clock);
    RunKept(setup, Started(setup, disk, reading, clock), ops, t);
    assert BirthKept(t.births[k], ViewOf(t, k), t.clock);
    forall i | 0 <= i < |t.table| && t.serials[i] == k ensures SlotOf(t.serials, k) == i {
    }
  }

  // And it does fire: the first pass from its time on runs an enabled one-shot that was added, for
  // the one time, and disables it.
  lemma OneShotFiresInTime(setup: Setup, disk: Option<Json>, reading: nat -> int, clock: int,
                           ops: seq<Op>, t: State, k: nat, i: nat, pass: Op)
    requires Lawful(setup.host) && 0 <= clock <= CLOCK_MAX
    requires Reaches(setup, Started(setup, disk, reading, clock), ops, t)
    requires k < |t.births| && t.births[k].job.kind == 1 && Trackable(t.births[k].job) && t.births[k].added
    requires i < |t.serials| == |t.table| && t.serials[i] == k && t.table[i].enabled
    requires pass.Pass? && InTime(t, pass)
    requires var job := t.births[k].job;
             0 < (if job.nextRun == 0 then job.atTimestamp else job.nextRun) <= pass.now
    ensures Synced(setup, t)
    ensures var u := Apply(setup, t, pass);
            && |RunsOf(u.log, k)| == 1
            && RunsOf(u.log, k)[0].start == pass.start(i) && RunsOf(u.log, k)[0].finish == pass.finish(i)
            && |u.table| == |t.table| && !u.table[i].enabled
  {
    OneShotFiresOnce(setup, disk, reading, clock, ops, t, k);
    OneShotNeverEarly(setup, disk, reading, clock, ops, t, k);
    StartKept(setup, disk, reading, clock);
    RunKept(setup, Started(setup, disk, reading, clock), ops, t);
    assert SlotOf(t.serials, k) == i;
    PassRunsOf(t, pass.now, pass.start, pass.finish, |t.table|, k);
    RunsOfConcat(t.log, PassLog(t, pass.now, pass.start, pass.finish, |t.table|), k);
    assert BirthKept(t.births[k], ViewOf(t, k), t.clock);
  }

  // A job stays what it was when it came in, through every pass and restart, and each of its runs
  // hands the shell the command it came in with.
  lemma TaskKept(setup: Setup, disk: Option<Json>, reading: nat -> int, clock: int,
                 ops: seq<Op>, t: State, k: nat)
    requires Lawful(setup.host) && 0 <= clock <= CLOCK_MAX
    requires Reaches(setup, Started(setup, disk, reading, clock), ops, t)
    requires k < |t.births| && Keepable(t.births[k].job)
    ensures |t.serials| == |t.table|
    ensures var b := t.births[k].job;
            && (forall i :: 0 <= i < |t.table| && t.serials[i] == k ==>
                  var j := t.table[i];
                  && j.name == b.name && j.jobType == b.jobType && j.command == b.command
                  && j.kind == b.kind && j.cronExpr == b.cronExpr && j.atTimestamp == b.atTimestamp
                  && j.everyMs == b.everyMs && j.timezone == b.timezone && j.deliveryMode == b.deliveryMode
                  && j.deliveryChannel == b.deliveryChannel && j.deliveryTo == b.deliveryTo)
            && (forall r :: r in RunsOf(t.log, k) ==>
                  r.issued == if b.jobType == 0 && b.command != "" then Some(b.command + " 2>&1") else None)
  {
    StartKept(setup, disk, reading, clock);
    RunKept(setup, Started(setup, disk, reading, clock), ops, t);
    assert BirthKept(t.births[k], ViewOf(t, k), t.clock);
    forall i | 0 <= i < |t.table| && t.serials[i] == k ensures SlotOf(t.serials, k) == i {
    }
  }

  // The runs that start in the interval from a to b.
  function StartingIn(runs: seq<Span>, a: int, b: int): seq<Span> {
    if runs == [] then []
    else
      var before := StartingIn(runs[..|runs| - 1], a, b);
      var last := runs[|runs| - 1];
      if a <= last.start <= b then before + [last] else before
  }

  // From the first of these runs to the last there is room for a gap between any two.
  predicate Stretch(within: seq<Span>, gap: int, a: int, b: int) {
    within != [] ==>
      var last := within[|within| - 1];
      && a <= within[0].start && last.start <= b && last.start <= last.finish
      && within[0].start + (|within| - 1) * gap <= last.start
  }

  lemma StretchAppend(within: seq<Span>, gap: int, a: int, b: int, next: Span)
    requires Stretch(within, gap, a, b) && a <= next.start <= b && next.start <= next.finish
    requires within != [] ==> within[|within| - 1].finish + gap <= next.start
    ensures Stretch(within + [next], gap, a, b)
  {
    assert (|within| - 1) * gap + gap == |within| * gap;
  }

  lemma {:induction false} SpacedStarts(runs: seq<Span>, gap: int, a: int, b: int)
    requires Spaced(runs, gap)
    requires forall i :: 0 <= i < |runs| ==> runs[i].start <= runs[i].finish
    ensures var within := StartingIn(runs, a, b);
            Stretch(within, gap, a, b) && forall r :: r in within ==> r in runs
  {
    if runs != [] {
      var init, last := runs[..|runs| - 1], runs[|runs| - 1];
      SpacedStarts(init, gap, a, b);
      var before := StartingIn(init, a, b);
      if before != [] {
        assert before[|before| - 1] in before;
      }
      if a <= last.start <= b {
        StretchAppend(before, gap, a, b, last);
      }
    }
  }

  lemma MulMonotone(x: int, y: int, g: int)
    requires x <= y && g > 0
    ensures x * g <= y * g
  {
  }

  lemma CountBound(n: int, gap: int, length: int)
    requires gap > 0 && (n - 1) * gap <= length
    ensures n <= length / gap + 1
  {
    var q := length / gap;
    assert length < q * gap + gap == (q + 1) * gap;
    if q + 1 <= n - 1 {
      MulMonotone(q + 1, n - 1, gap);
    }
  }

  lemma SpacedCount(runs: seq<Span>, gap: int, from: int, length: nat)
    requires Spaced(runs, gap) && gap > 0
    requires forall i :: 0 <= i < |runs| ==> runs[i].start <= runs[i].finish
    ensures |StartingIn(runs, from, from + length)| <= length / gap + 1
  {
    SpacedStarts(runs, gap, from, from + length);
    var within := StartingIn(runs, from, from + length);
    if within != [] {
      CountBound(|within|, gap, length);
    } else {
      assert length / gap >= 0;
    }
  }

  // A repeating job, however it came in and however often the scheduler restarts: each run starts
  // at least its gap after the one before ended, an interval of any length holds at most
  // length / gap + 1 starts, and a job that has run is armed for exactly its gap after its last
  // run ended.
  lemma RepeatingRunsApart(setup: Setup, disk: Option<Json>, reading: nat -> int, clock: int,
                           ops: seq<Op>, t: State, k: nat, from: int, length: nat)
    requires Lawful(setup.host) && 0 <= clock <= CLOCK_MAX
    requires Reaches(setup, Started(setup, disk, reading, clock), ops, t)
    requires k < |t.births| && Repeating(t.births[k])
    ensures var runs, gap := RunsOf(t.log, k), Gap(t.births[k].job);
            && Spaced(runs, gap)
            && |StartingIn(runs, from, from + length)| <= length / gap + 1
            && |t.serials| == |t.table|
            && forall i :: 0 <= i < |t.table| && t.serials[i] == k && runs != [] ==>
                 t.table[i].nextRun == runs[|runs| - 1].finish + gap
  {
    StartKept(setup, disk, reading, clock);
    RunKept(setup, Started(setup, disk, reading, clock), ops, t);
    assert BirthKept(t.births[k], ViewOf(t, k), t.clock);
    SpacedCount(RunsOf(t.log, k), Gap(t.births[k].job), from, length);
    forall i | 0 <= i < |t.table| && t.serials[i] == k ensures SlotOf(t.serials, k) == i {
    }
  }

  // For an interval job the gap is the whole seconds of its interval, or a minute when it has none:
  // so far apart are its runs, whatever text the interval was written as on the way.
  lemma IntervalRunsApart(setup: Setup, disk: Option<Json>, reading: nat -> int, clock: int,
                          ops: seq<Op>, t: State, k: nat, from: int, length: nat)
    requires Lawful(setup.host) && 0 <= clock <= CLOCK_MAX
    requires Reaches(setup, Started(setup, disk, reading, clock), ops, t)
    requires k < |t.births| && t.births[k].job.kind == 2 && Trackable(t.births[k].job)
    ensures var runs, everyMs := RunsOf(t.log, k), t.births[k].job.everyMs;
            var seconds := if everyMs < 1000 then 60 else everyMs / 1000;
            && (forall i, j :: 0 <= i < j < |runs| ==> runs[j].start >= runs[i].finish + seconds)
            && |StartingIn(runs, from, from + length)| <= length / seconds + 1
  {
    RepeatingRunsApart(setup, disk, reading, clock, ops, t, k, from, length);
  }

  // ---- Identifiers ----

  // Distinct identifiers that a file keeps.
  predicate Named(table: seq<Job>) {
    DistinctIds(table) && forall i :: 0 <= i < |table| ==> 0 < table[i].id <= TWO_TO_53
  }

  // What a caller can check before adding a job: the number it will get is free.
  predicate FreeId(table: seq<Job>, job: Job) {
    NewId(table, job) <= TWO_TO_53 && !Taken(table, NewId(table, job))
  }

  lemma ArmKeepsId(host: Host, count: nat, now: int, j: Job)
    ensures Arm(host, count, now, j).id == if j.id == 0 then count else j.id
  {
  }

  lemma ReloadedId(host: Host, j: Job, records: seq<Json>, reading: nat -> int, i: nat)
    requires Lawful(host) && i < |records| && records[i] == JobJson(host, j) && 0 < j.id <= TWO_TO_53
    ensures Loaded(host, records, reading)[i].id == j.id
  {
    IdReadBack(host, j, records[i]);
    LoadedSlot(host, records, reading, i, JobFrom(records[i]));
    ArmKeepsId(host, i + 1, reading(i), JobFrom(records[i]));
  }

  lemma SameIdsNamed(a: seq<Job>, b: seq<Job>)
    requires Named(a) && |a| == |b| && forall i :: 0 <= i < |a| ==> a[i].id == b[i].id
    ensures Named(b)
  {
  }

  lemma ReloadNamed(host: Host, table: seq<Job>, reading: nat -> int)
    requires Lawful(host) && Named(table)
    ensures Named(Loaded(host, Records(Some(TableJson(host, table))), reading))
  {
    var records := Records(Some(TableJson(host, table)));
    RecordsOfTable(host, table);
    forall i | 0 <= i < |table| ensures Loaded(host, records, reading)[i].id == table[i].id {
      ReloadedId(host, table[i], records, reading, i);
    }
    SameIdsNamed(table, Loaded(host, records, reading));
  }

  lemma AddNamedExactly(host: Host, table: seq<Job>, job: Job, now: int)
    requires Named(table)
    ensures Named(Adding(host, table, job, now)) <==> FreeId(table, job)
  {
    var after := Adding(host, table, job, now);
    AddDistinctExactly(host, table, job, now);
    assert after[|table|].id == NewId(table, job);
    assert forall i :: 0 <= i < |table| ==> after[i] == table[i];
  }

  lemma RemoveNamed(table: seq<Job>, id: nat)
    requires Named(table)
    ensures Named(Removing(table, id))
  {
    RemoveKeepsDistinct(table, id);
    var after := Removing(table, id);
    assert forall i :: 0 <= i < |after| ==> after[i] in table;
  }

  lemma UpdateNamed(table: seq<Job>, id: nat, job: Job)
    requires Named(table)
    ensures Named(Updating(table, id, job))
  {
    UpdateKeepsIds(table, id, job);
  }

  lemma RunKeepsId(host: Host, j: Job, finish: int)
    ensures AfterRun(host, j, finish).id == j.id
  {
  }

  lemma PassNamed(host: Host, table: seq<Job>, now: int, finish: nat -> int)
    requires Named(table)
    ensures Named(Passed(host, table, now, finish))
  {
    var after := Passed(host, table, now, finish);
    forall i | 0 <= i < |table| ensures after[i].id == table[i].id {
      RunKeepsId(host, table[i], finish(i));
    }
  }

  lemma RestartNamed(setup: Setup, s: State, reading: nat -> int, end: int)
    requires Lawful(setup.host) && Synced(setup, s) && Named(s.table)
    ensures Named(AfterRestart(setup, s, reading, end).table)
  {
    if setup.path && s.table != [] {
      ReloadNamed(setup.host, s.table, reading);
    }
  }

  // Of all steps only an add can break the identifiers, and exactly when its number is not free.
  lemma StepNamedExactly(setup: Setup, s: State, op: Op)
    requires Lawful(setup.host) && Synced(setup, s) && Named(s.table)
    ensures Named(Apply(setup, s, op).table) <==> (op.Add? ==> FreeId(s.table, op.job))
  {
    match op
    case Add(job, now) => AddNamedExactly(setup.host, s.table, job, now);
    case Remove(id) => RemoveNamed(s.table, id);
    case Update(id, job) => UpdateNamed(s.table, id, job);
    case Pass(now, start, finish, end) => PassNamed(setup.host, s.table, now, finish);
    case Restart(reading, end) => RestartNamed(setup, s, reading, end);
  }

  // The identifiers are distinct before every step and at the end.
  ghost predicate AlwaysNamed(setup: Setup, s: State, ops: seq<Op>)
    decreases |ops|
  {
    && Named(s.table)
    && (ops != [] ==> Synced(setup, s) && AlwaysNamed(setup, Apply(setup, s, ops[0]), ops[1..]))
  }

  // Whenever a job is added its number is free.
  ghost predicate AddsFree(setup: Setup, s: State, ops: seq<Op>)
    decreases |ops|
  {
    ops != [] ==>
      && Synced(setup, s)
      && (ops[0].Add? ==> FreeId(s.table, ops[0].job))
      && AddsFree(setup, Apply(setup, s, ops[0]), ops[1..])
  }

  lemma {:induction false} RunNamedExactly(setup: Setup, s: State, ops: seq<Op>, t: State)
    requires Lawful(setup.host) && Booked(setup, s) && Reaches(setup, s, ops, t) && Named(s.table)
    ensures AlwaysNamed(setup, s, ops) <==> AddsFree(setup, s, ops)
    ensures AddsFree(setup, s, ops) ==> Named(t.table)
    decreases |ops|
  {
    if ops != [] {
      StepBooked(setup, s, ops[0]);
      StepNamedExactly(setup, s, ops[0]);
      if Named(Apply(setup, s, ops[0]).table) {
        RunNamedExactly(setup, Apply(setup, s, ops[0]), ops[1..], t);
      }
    }
  }

  // Over a whole run, restarts included, the identifiers stay distinct exactly when they are so at
  // the start and every job added gets a number that is free then.
  lemma IdsDistinctExactly(setup: Setup, disk: Option<Json>, reading: nat -> int, clock: int,
                           ops: seq<Op>, t: State)
    requires Lawful(setup.host) && 0 <= clock <= CLOCK_MAX
    requires Reaches(setup, Started(setup, disk, reading, clock), ops, t)
    ensures var s := Started(setup, disk, reading, clock);
            && (AlwaysNamed(setup, s, ops) <==> Named(s.table) && AddsFree(setup, s, ops))
            && (Named(s.table) && AddsFree(setup, s, ops) ==> DistinctIds(t.table))
  {
    var s := Started(setup, disk, reading, clock);
    StartKept(setup, disk, reading, clock);
    if Named(s.table) {
      RunNamedExactly(setup, s, ops, t);
    }
  }

  // ---- Restarting ----

  ghost predicate NoUpdate(ops: seq<Op>) {
    forall i :: 0 <= i < |ops| ==> !ops[i].Update?
  }

  lemma StepSettled(setup: Setup, s: State, op: Op)
    requires Booked(setup, s) && InTime(s, op) && AllSettled(s.table) && !op.Update?
    ensures AllSettled(Apply(setup, s, op).table)
  {
    match op
    case Add(job, now) => AddSettled(setup.host, s.table, job, now);
    case Remove(id) => RemoveSettled(s.table, id);
    case Pass(now, start, finish, end) => PassSettled(setup.host, s.table, now, finish);
    case Restart(reading, end) =>
      if setup.path {
        RecordsOfTable(setup.host, s.table);
        LoadSettled(setup.host, Records(s.disk), reading);
      }
  }

  lemma {:induction false} RunSettled(setup: Setup, s: State, ops: seq<Op>, t: State)
    requires Booked(setup, s) && AllSettled(s.table) && NoUpdate(ops)
    requires Reaches(setup, s, ops, t)
    ensures Booked(setup, t) && AllSettled(t.table)
    decreases |ops|
  {
    if ops != [] {
      StepBooked(setup, s, ops[0]);
      StepSettled(setup, s, ops[0]);
      RunSettled(setup, Apply(setup, s, ops[0]), ops[1..], t);
    }
  }

  // After any run without updates, restarting from the file changes nothing but the clock: the
  // table is the same, in the same order, and so is the file.
  lemma RestartChangesNothing(setup: Setup, disk: Option<Json>, reading: nat -> int, clock: int,
                              ops: seq<Op>, t: State, again: Op)
    requires Lawful(setup.host) && setup.path && 0 <= clock <= CLOCK_MAX
    requires forall i: nat {:trigger reading(i)} :: 0 <= reading(i)
    requires Reaches(setup, Started(setup, disk, reading, clock), ops, t) && NoUpdate(ops)
    requires forall i :: 0 <= i < |t.table| ==> Storable(t.table[i])
    requires again.Restart? && InTime(t, again)
    ensures Synced(setup, t)
    ensures Apply(setup, t, again) == t.(clock := again.end)
  {
    var s := Started(setup, disk, reading, clock);
    StartKept(setup, disk, reading, clock);
    LoadSettled(setup.host, Records(disk), reading);
    RunSettled(setup, s, ops, t);
    ReloadExactly(setup.host, t.table, again.reading);
  }
}
