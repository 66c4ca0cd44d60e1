/**
 Whole runs of the scheduler: any sequence of adds, removals, updates, passes and restarts from
 the jobs file, under a clock that never goes back.

 A job's identifier says little about it (a new job is numbered by the table's length, and a
 removal makes numbers repeat), so each job handed in by a caller gets a serial number here, and
 the log of runs is kept by serial.
 */
module CronRuns {
  import opened Wrappers
  import opened Json
  import opened CronTable

  const CLOCK_MAX: int := 0x10_0000_0000_0000

  // A job as a caller handed it in, and whether that was by add.
  datatype Birth = Birth(job: Job, added: bool)

  // A run on the clock, and the command line it handed to the shell.
  datatype Span = Span(start: int, finish: int, issued: Option<string>)

  datatype LoggedRun = LoggedRun(serial: nat, span: Span)

  // serials[i] is the serial of the job in slot i, births[k] is how serial k came in.
  datatype State = State(
    table: seq<Job>,
    serials: seq<nat>,
    births: seq<Birth>,
    disk: Option<Json>,
    clock: int,
    log: seq<LoggedRun>)

  // A pass reads the clock at now and runs slot i, if it is due, from start(i) to finish(i). A
  // restart throws the table away and loads the file, adding job i at reading(i).
  datatype Op =
    | Add(job: Job, now: int)
    | Remove(id: nat)
    | Update(id: nat, job: Job)
    | Pass(now: int, start: nat -> int, finish: nat -> int, end: int)
    | Restart(reading: nat -> int, end: int)

  // path says whether a jobs file is configured at all.
  datatype Setup = Setup(host: Host, path: bool)

  // ---- Steps ----

  // The file on disk loads to as many jobs as the table holds.
  predicate Synced(setup: Setup, s: State) {
    && |s.serials| == |s.table|
    && (setup.path ==>
          || s.disk == Some(TableJson(setup.host, s.table))
          || (s.table == [] && Records(s.disk) == []))
  }

  function Stored(setup: Setup, table: seq<Job>, disk: Option<Json>): Option<Json> {
    if setup.path then Some(TableJson(setup.host, table)) else disk
  }

  function Dropped<T>(s: seq<T>, k: nat): seq<T>
    requires k < |s|
  {
    s[..k] + s[k + 1..]
  }

  // What a pass logs for the first n slots.
  function PassLog(s: State, now: int, start: nat -> int, finish: nat -> int, n: nat): seq<LoggedRun>
    requires n <= |s.table| == |s.serials|
  {
    if n == 0 then []
    else
      var before := PassLog(s, now, start, finish, n - 1);
      if Due(s.table[n - 1], now)
      then before + [LoggedRun(s.serials[n - 1], Span(start(n - 1), finish(n - 1), Issued(s.table[n - 1])))]
      else before
  }

  function AfterAdd(setup: Setup, s: State, job: Job, now: int): State
    requires Synced(setup, s)
  {
    var table := Adding(setup.host, s.table, job, now);
    State(table, s.serials + [|s.births|], s.births + [Birth(job, true)],
          Stored(setup, table, s.disk), now, s.log)
  }

  function AfterRemove(setup: Setup, s: State, id: nat): State
    requires Synced(setup, s)
  {
    var k := IndexOf(s.table, id);
    if k < |s.table| then
      var table := Removing(s.table, id);
      s.(table := table, serials := Dropped(s.serials, k), disk := Stored(setup, table, s.disk))
    else s
  }

  function AfterUpdate(setup: Setup, s: State, id: nat, job: Job): State
    requires Synced(setup, s)
  {
    var k := IndexOf(s.table, id);
    if k < |s.table| then
      var table := Updating(s.table, id, job);
      s.(table := table, serials := s.serials[k := |s.births|],
         births := s.births + [Birth(job.(id := id), false)], disk := Stored(setup, table, s.disk))
    else s
  }

  function AfterPass(setup: Setup, s: State, now: int, start: nat -> int, finish: nat -> int, end: int): State
    requires Synced(setup, s)
  {
    var table := Passed(setup.host, s.table, now, finish);
    var ran := DueSlots(s.table, now, |s.table|);
    s.(table := table, clock := end,
       disk := if ran == [] then s.disk else Stored(setup, table, s.disk),
       log := s.log + PassLog(s, now, start, finish, |s.table|))
  }

  function AfterRestart(setup: Setup, s: State, reading: nat -> int, end: int): State
    requires Synced(setup, s)
  {
    if !setup.path then s.(table := [], serials := [], clock := end)
    else
      var table := Loaded(setup.host, Records(s.disk), reading);
      s.(table := table, clock := end, disk := if table == [] then s.disk else Stored(setup, table, s.disk))
  }

  function Apply(setup: Setup, s: State, op: Op): State
    requires Synced(setup, s)
  {
    match op
    case Add(job, now) => AfterAdd(setup, s, job, now)
    case Remove(id) => AfterRemove(setup, s, id)
    case Update(id, job) => AfterUpdate(setup, s, id, job)
    case Pass(now, start, finish, end) => AfterPass(setup, s, now, start, finish, end)
    case Restart(reading, end) => AfterRestart(setup, s, reading, end)
  }

  // The first start: whatever the file holds is loaded and gets the first serials.
  function Started(setup: Setup, disk: Option<Json>, reading: nat -> int, clock: int): State {
    var table := if setup.path then Loaded(setup.host, Records(disk), reading) else [];
    State(table, seq(|table|, i => i),
          seq(|table|, i requires 0 <= i < |table| => Birth(table[i], false)),
          if table == [] then disk else Stored(setup, table, disk), clock, [])
  }

  // The clock readings of a step lie between the last reading and the clock afterwards.
  ghost predicate InTime(s: State, op: Op) {
    match op
    case Add(_, now) => s.clock <= now <= CLOCK_MAX
    case Remove(_) => true
    case Update(_, _) => true
    case Pass(now, start, finish, end) =>
      && s.clock <= now <= end <= CLOCK_MAX
      && (forall i: nat :: i < |s.table| ==> now <= start(i) <= finish(i) <= end)
    case Restart(reading, end) =>
      && s.clock <= end <= CLOCK_MAX
      && (forall i: nat :: i < |s.table| ==> s.clock <= reading(i) <= end)
  }

  // ---- What every step keeps: the bookkeeping ----

  ghost predicate Booked(setup: Setup, s: State) {
    && Synced(setup, s)
    && (forall i :: 0 <= i < |s.serials| ==> s.serials[i] < |s.births|)
    && (forall i, j :: 0 <= i < j < |s.serials| ==> s.serials[i] != s.serials[j])
    && 0 <= s.clock <= CLOCK_MAX
    && (forall i :: 0 <= i < |s.log| ==> s.log[i].serial < |s.births|)
  }

  lemma PassLogSerials(s: State, now: int, start: nat -> int, finish: nat -> int, n: nat)
    requires n <= |s.table| == |s.serials|
    ensures forall e :: e in PassLog(s, now, start, finish, n) ==> e.serial in s.serials
  {
  }

  lemma NothingRan(host: Host, table: seq<Job>, now: int, finish: nat -> int)
    requires DueSlots(table, now, |table|) == []
    ensures Passed(host, table, now, finish) == table
  {
    DueSlotsExact(table, now, |table|);
    forall i | 0 <= i < |table| ensures !Due(table[i], now) {
      assert i !in DueSlots(table, now, |table|);
    }
  }

  lemma PassBooked(setup: Setup, s: State, op: Op)
    requires Booked(setup, s) && InTime(s, op) && op.Pass?
    ensures Booked(setup, Apply(setup, s, op))
  {
    var Pass(now, start, finish, end) := op;
    var more := PassLog(s, now, start, finish, |s.table|);
    PassLogSerials(s, now, start, finish, |s.table|);
    if DueSlots(s.table, now, |s.table|) == [] {
      NothingRan(setup.host, s.table, now, finish);
    }
    forall i | 0 <= i < |s.log + more| ensures (s.log + more)[i].serial < |s.births| {
      if i >= |s.log| {
        assert (s.log + more)[i] == more[i - |s.log|];
        assert more[i - |s.log|] in more;
      }
    }
  }

  lemma RestartBooked(setup: Setup, s: State, op: Op)
    requires Booked(setup, s) && InTime(s, op) && op.Restart?
    ensures Booked(setup, Apply(setup, s, op))
  {
    if setup.path {
      RecordsOfTable(setup.host, s.table);
    }
  }

  lemma StepBooked(setup: Setup, s: State, op: Op)
    requires Booked(setup, s) && InTime(s, op)
    ensures Booked(setup, Apply(setup, s, op))
  {
    match op
    case Add(job, now) =>
    case Remove(id) =>
    case Update(id, job) =>
    case Pass(_, _, _, _) => PassBooked(setup, s, op);
    case Restart(_, _) => RestartBooked(setup, s, op);
  }

  // The log of a pass is the due slots, run for run in table order.
  lemma {:induction false} PassLogIsDueSlots(s: State, now: int, start: nat -> int, finish: nat -> int, n: nat)
    requires n <= |s.table| == |s.serials|
    ensures var log, slots := PassLog(s, now, start, finish, n), DueSlots(s.table, now, n);
            && |log| == |slots|
            && forall a :: 0 <= a < |slots| ==>
                 && slots[a] < n
                 && log[a] == LoggedRun(s.serials[slots[a]],
                                        Span(start(slots[a]), finish(slots[a]), Issued(s.table[slots[a]])))
  {
    if n > 0 {
      PassLogIsDueSlots(s, now, start, finish, n - 1);
    }
  }

  // ---- One job, followed by its serial ----

  // The job in the table under a serial, and the runs logged for it.
  datatype View = View(job: Option<Job>, runs: seq<Span>)

  function RunsOf(log: seq<LoggedRun>, k: nat): seq<Span> {
    if log == [] then []
    else
      var before := RunsOf(log[..|log| - 1], k);
      var last := log[|log| - 1];
      if last.serial == k then before + [last.span] else before
  }

  function SlotOf(serials: seq<nat>, k: nat): (i: nat)
    ensures i <= |serials|
    ensures i < |serials| ==> serials[i] == k
    ensures i == |serials| ==> k !in serials
  {
    if serials == [] then 0 else if serials[0] == k then 0 else 1 + SlotOf(serials[1..], k)
  }

  function ViewOf(s: State, k: nat): View
    requires |s.serials| == |s.table|
  {
    var i := SlotOf(s.serials, k);
    View(if i < |s.table| then Some(s.table[i]) else None, RunsOf(s.log, k))
  }

  lemma {:induction false} RunsOfConcat(a: seq<LoggedRun>, b: seq<LoggedRun>, k: nat)
    ensures RunsOf(a + b, k) == RunsOf(a, k) + RunsOf(b, k)
  {
    if b == [] {
      assert a + b == a;
    } else {
      RunsOfConcat(a, b[..|b| - 1], k);
      assert (a + b)[..|a + b| - 1] == a + b[..|b| - 1];
    }
  }

  // A pass logs one run for a due job and none for another.
  lemma {:induction false} PassRunsOf(s: State, now: int, start: nat -> int, finish: nat -> int, n: nat, k: nat)
    requires n <= |s.table| == |s.serials|
    requires forall i, j :: 0 <= i < j < |s.serials| ==> s.serials[i] != s.serials[j]
    ensures var p := SlotOf(s.serials, k);
            RunsOf(PassLog(s, now, start, finish, n), k) ==
            if p < n && Due(s.table[p], now) then [Span(start(p), finish(p), Issued(s.table[p]))] else []
  {
    if n > 0 {
      PassRunsOf(s, now, start, finish, n - 1, k);
      var before := PassLog(s, now, start, finish, n - 1);
      if Due(s.table[n - 1], now) {
        var last := LoggedRun(s.serials[n - 1], Span(start(n - 1), finish(n - 1), Issued(s.table[n - 1])));
        assert (before + [last])[..|before|] == before;
        assert s.serials[n - 1] == k <==> SlotOf(s.serials, k) == n - 1;
      }
    }
  }

  // The fields a schedule rests on, small enough for the file to keep them exactly.
  predicate Trackable(j: Job) {
    Exact(j.kind) && Exact(j.atTimestamp) && Exact(j.everyMs) && Exact(j.nextRun) && |j.cronExpr| < 64
  }

  predicate SameSchedule(a: Job, b: Job) {
    a.kind == b.kind && a.atTimestamp == b.atTimestamp && a.everyMs == b.everyMs && a.cronExpr == b.cronExpr
  }

  predicate SameKind(a: Job, b: Job) {
    a.kind == b.kind && a.enabled == b.enabled
  }

  // b is what adding a again at reading t would make of a's schedule.
  predicate Rearmed(host: Host, a: Job, b: Job, t: int) {
    && SameSchedule(a, b) && a.enabled == b.enabled
    && b.nextRun == if a.nextRun == 0 && a.enabled then FirstRun(host, t, a) else a.nextRun
  }

  // What one step can do to one job: leave it, drop it, run it once while it is due, or
  // save it and add it again.
  ghost predicate ViewStep(host: Host, v: View, w: View, clock: int, end: int) {
    || w == v
    || w == View(None, v.runs)
    || (&& v.job.Some? && w.job.Some?
        && exists now, span :: RunStep(host, v, w, now, span) && clock <= now <= span.start <= span.finish <= end)
    || (&& v.job.Some? && w.job.Some? && w.runs == v.runs
        && (Exact(v.job.value.kind) ==> SameKind(v.job.value, w.job.value))
        && (Keepable(v.job.value) ==> SameTask(v.job.value, w.job.value))
        && (Trackable(v.job.value) ==>
              exists t :: clock <= t <= end && Rearmed(host, v.job.value, w.job.value, t)))
  }

  predicate RunStep(host: Host, v: View, w: View, now: int, span: Span) {
    && v.job.Some?
    && Due(v.job.value, now)
    && span.issued == Issued(v.job.value)
    && w == View(Some(AfterRun(host, v.job.value, span.finish)), v.runs + [span])
  }

  lemma RemoveSlot(s: State, k: nat, i: nat)
    requires i < |s.serials| == |s.table|
    requires forall i, j :: 0 <= i < j < |s.serials| ==> s.serials[i] != s.serials[j]
    ensures var t := s.(table := Dropped(s.table, i), serials := Dropped(s.serials, i));
            ViewOf(t, k) == ViewOf(s, k) || ViewOf(t, k) == View(None, RunsOf(s.log, k))
  {
    var serials := Dropped(s.serials, i);
    var p, q := SlotOf(s.serials, k), SlotOf(serials, k);
    if q < |serials| {
      var q' := if q < i then q else q + 1;
      assert s.serials[q'] == k && q' == p;
    }
  }

  lemma ReloadedView(setup: Setup, s: State, reading: nat -> int, p: nat)
    requires Lawful(setup.host) && p < |s.table| && Trackable(s.table[p])
    requires s.disk == Some(TableJson(setup.host, s.table))
    ensures |Loaded(setup.host, Records(s.disk), reading)| == |s.table|
    ensures Rearmed(setup.host, s.table[p], Loaded(setup.host, Records(s.disk), reading)[p], reading(p))
  {
    var records := Records(s.disk);
    RecordsOfTable(setup.host, s.table);
    RecordSchedule(setup.host, s.table, records[p], p);
    RearmedRecord(setup.host, s.table[p], records, reading, p);
  }

  lemma ReloadedKind(setup: Setup, s: State, reading: nat -> int, p: nat)
    requires Lawful(setup.host) && p < |s.table| && Exact(s.table[p].kind)
    requires s.disk == Some(TableJson(setup.host, s.table))
    ensures |Loaded(setup.host, Records(s.disk), reading)| == |s.table|
    ensures SameKind(s.table[p], Loaded(setup.host, Records(s.disk), reading)[p])
  {
    var records := Records(s.disk);
    RecordsOfTable(setup.host, s.table);
    KindReadBack(setup.host, s.table[p], records[p]);
    KindOfRecord(setup.host, s.table[p], records, reading, p);
  }

  lemma ReloadedTask(setup: Setup, s: State, reading: nat -> int, p: nat)
    requires Lawful(setup.host) && p < |s.table| && Keepable(s.table[p])
    requires s.disk == Some(TableJson(setup.host, s.table))
    ensures |Loaded(setup.host, Records(s.disk), reading)| == |s.table|
    ensures SameTask(s.table[p], Loaded(setup.host, Records(s.disk), reading)[p])
  {
    var records := Records(s.disk);
    RecordsOfTable(setup.host, s.table);
    TaskReadBack(setup.host, s.table[p], records[p]);
    TaskOfRecord(setup.host, s.table[p], records, reading, p);
  }

  lemma TaskOfRecord(host: Host, j: Job, records: seq<Json>, reading: nat -> int, p: nat)
    requires p < |records| && SameTask(j, JobFrom(records[p]))
    ensures SameTask(j, Loaded(host, records, reading)[p])
  {
    LoadedSlot(host, records, reading, p, JobFrom(records[p]));
    ArmKeepsTask(host, p + 1, reading(p), JobFrom(records[p]));
  }

  lemma ArmKeepsTask(host: Host, count: nat, now: int, j: Job)
    ensures SameTask(j, Arm(host, count, now, j))
  {
    ArmKeepsTheRest(host, count, now, j);
  }

  lemma KindOfRecord(host: Host, j: Job, records: seq<Json>, reading: nat -> int, p: nat)
    requires p < |records| && SameKind(j, JobFrom(records[p]))
    ensures SameKind(j, Loaded(host, records, reading)[p])
  {
    LoadedSlot(host, records, reading, p, JobFrom(records[p]));
    ArmKeepsKind(host, p + 1, reading(p), JobFrom(records[p]));
  }

  lemma ArmKeepsKind(host: Host, count: nat, now: int, j: Job)
    ensures SameKind(j, Arm(host, count, now, j))
  {
  }

  lemma RearmedRecord(host: Host, j: Job, records: seq<Json>, reading: nat -> int, p: nat)
    requires p < |records|
    requires var r := JobFrom(records[p]);
             SameSchedule(j, r) && j.enabled == r.enabled && j.nextRun == r.nextRun
    ensures Rearmed(host, j, Loaded(host, records, reading)[p], reading(p))
  {
    var r := JobFrom(records[p]);
    LoadedSlot(host, records, reading, p, r);
    ArmRearms(host, p + 1, reading(p), r);
    SameFirstRun(host, reading(p), j, r);
  }

  lemma ArmRearms(host: Host, count: nat, t: int, j: Job)
    ensures Rearmed(host, j, Arm(host, count, t, j), t)
  {
  }

  lemma SameFirstRun(host: Host, t: int, a: Job, b: Job)
    requires SameSchedule(a, b)
    ensures FirstRun(host, t, a) == FirstRun(host, t, b)
  {
  }

  lemma AddView(setup: Setup, s: State, job: Job, now: int, k: nat)
    requires Booked(setup, s) && k < |s.births|
    ensures ViewOf(AfterAdd(setup, s, job, now), k) == ViewOf(s, k)
  {
    var t := AfterAdd(setup, s, job, now);
    var p, q := SlotOf(s.serials, k), SlotOf(t.serials, k);
    if q < |t.serials| {
      assert t.serials[q] == k && q < |s.serials| && s.serials[q] == k;
    }
    if p < |s.serials| {
      assert t.serials[p] == k;
    }
  }

  lemma UpdateView(setup: Setup, s: State, id: nat, job: Job, k: nat)
    requires Booked(setup, s) && k < |s.births|
    ensures var w := ViewOf(AfterUpdate(setup, s, id, job), k);
            w == ViewOf(s, k) || w == View(None, RunsOf(s.log, k))
  {
    var t := AfterUpdate(setup, s, id, job);
    var i := IndexOf(s.table, id);
    var q := SlotOf(t.serials, k);
    if i < |s.table| && q < |t.serials| {
      assert q != i && s.serials[q] == k && SlotOf(s.serials, k) == q;
    }
  }

  lemma PassView(setup: Setup, s: State, op: Op, k: nat)
    requires Booked(setup, s) && InTime(s, op) && op.Pass?
    ensures ViewStep(setup.host, ViewOf(s, k), ViewOf(Apply(setup, s, op), k), s.clock, op.end)
  {
    var Pass(now, start, finish, end) := op;
    var t := AfterPass(setup, s, now, start, finish, end);
    var p := SlotOf(s.serials, k);
    PassRunsOf(s, now, start, finish, |s.table|, k);
    RunsOfConcat(s.log, PassLog(s, now, start, finish, |s.table|), k);
    if p < |s.table| && Due(s.table[p], now) {
      assert RunStep(setup.host, ViewOf(s, k), ViewOf(t, k), now,
                     Span(start(p), finish(p), Issued(s.table[p])));
    }
  }

  lemma RestartView(setup: Setup, s: State, op: Op, k: nat)
    requires Lawful(setup.host) && Booked(setup, s) && InTime(s, op) && op.Restart?
    ensures ViewStep(setup.host, ViewOf(s, k), ViewOf(Apply(setup, s, op), k), s.clock, op.end)
  {
    var Restart(reading, end) := op;
    var p := SlotOf(s.serials, k);
    if setup.path {
      RecordsOfTable(setup.host, s.table);
      if p < |s.table| && Exact(s.table[p].kind) {
        ReloadedKind(setup, s, reading, p);
      }
      if p < |s.table| && Keepable(s.table[p]) {
        ReloadedTask(setup, s, reading, p);
      }
      if p < |s.table| && Trackable(s.table[p]) {
        ReloadedView(setup, s, reading, p);
      }
    }
  }

  lemma StepView(setup: Setup, s: State, op: Op, k: nat)
    requires Lawful(setup.host) && Booked(setup, s) && InTime(s, op) && k < |s.births|
    ensures ViewStep(setup.host, ViewOf(s, k), ViewOf(Apply(setup, s, op), k), s.clock, Apply(setup, s, op).clock)
  {
    match op
    case Add(job, now) => AddView(setup, s, job, now, k);
    case Remove(id) =>
      var i := IndexOf(s.table, id);
      if i < |s.table| {
        RemoveSlot(s, k, i);
      }
    case Update(id, job) => UpdateView(setup, s, id, job, k);
    case Pass(now, start, finish, end) => PassView(setup, s, op, k);
    case Restart(reading, end) => RestartView(setup, s, op, k);
  }
}
