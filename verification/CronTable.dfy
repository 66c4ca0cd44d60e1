/**
 The cron job table as a value: what add, remove, update, a scheduler pass, saving and loading
 make of it, and what each of them keeps.
 */
module CronTable {
  import opened Wrappers
  import opened CronExpr
  import opened CText
  import opened Json
  import opened Widths

  // Schedule kinds, by their numbers in the file.
  const SCHED_CRON := 0
  const SCHED_AT := 1
  const SCHED_EVERY := 2

  // The type of a job that is a shell command.
  const JOB_SHELL := 0

  datatype Job = Job(
    id: nat,
    name: string,
    jobType: int,
    command: string,
    kind: int,
    cronExpr: string,
    atTimestamp: int,
    everyMs: Uint64,
    timezone: string,
    enabled: bool,
    deliveryMode: int,
    deliveryChannel: string,
    deliveryTo: string,
    lastRun: int,
    nextRun: int)

  const EMPTY_JOB := Job(0, "", 0, "", 0, "", 0, 0, "", false, 0, "", "", 0, 0)

  // What the C library decides: the time an ISO date denotes (not positive when it denotes
  // none), and the double an integer is converted to.
  datatype Host = Host(parseAt: string -> int, toDouble: int -> real)

  // Integers of at most 53 bits are doubles.
  ghost predicate Lawful(host: Host) {
    forall x {:trigger host.toDouble(x)} :: -TWO_TO_53 <= x <= TWO_TO_53 ==> host.toDouble(x) == x as real
  }

  // sched_expr, for the kinds that have one
  function SchedExpr(j: Job): string
    requires j.kind != SCHED_AT
  {
    if j.kind == SCHED_EVERY then IntervalExpr(j.everyMs) else j.cronExpr
  }

  function NextRunOf(host: Host, j: Job, after: int): Option<int>
    requires j.kind != SCHED_AT
  {
    NextRun(host.parseAt, SchedExpr(j), after)
  }

  // ---- Adding, removing, updating ----

  function FirstRun(host: Host, now: int, j: Job): int {
    if j.kind == SCHED_AT then j.atTimestamp
    else
      match NextRunOf(host, j, now)
      case Some(t) => if t == 0 then now + 60 else t
      case None => now + 60
  }

  // A job as nc_cron_add stores it in a table that then holds count jobs.
  function Arm(host: Host, count: nat, now: int, job: Job): Job {
    var j := if job.id == 0 then job.(id := count) else job;
    if j.nextRun == 0 && j.enabled then j.(nextRun := FirstRun(host, now, j)) else j
  }

  function Adding(host: Host, table: seq<Job>, job: Job, now: int): seq<Job> {
    table + [Arm(host, |table| + 1, now, job)]
  }

  // The first place of an id; |table| when there is none.
  function IndexOf(table: seq<Job>, id: nat): (k: nat)
    ensures k <= |table|
    ensures k < |table| ==> table[k].id == id
    ensures forall i :: 0 <= i < k ==> table[i].id != id
  {
    if table == [] then 0
    else if table[0].id == id then 0
    else
      var k := IndexOf(table[1..], id);
      assert forall i :: 1 <= i < k + 1 ==> table[i] == table[1..][i - 1];
      k + 1
  }

  lemma IndexIs(table: seq<Job>, id: nat, k: nat)
    requires k <= |table|
    requires k < |table| ==> table[k].id == id
    requires forall i :: 0 <= i < k ==> table[i].id != id
    ensures IndexOf(table, id) == k
  {
  }

  function Removing(table: seq<Job>, id: nat): seq<Job> {
    var k := IndexOf(table, id);
    if k < |table| then table[..k] + table[k + 1..] else table
  }

  function Updating(table: seq<Job>, id: nat, job: Job): seq<Job> {
    var k := IndexOf(table, id);
    if k < |table| then table[k := job.(id := id)] else table
  }

  // Arming a job touches its number and its next run only, and these only where they are missing.
  lemma ArmKeepsTheRest(host: Host, count: nat, now: int, j: Job)
    ensures var r := Arm(host, count, now, j);
            && r.(id := j.id, nextRun := j.nextRun) == j
            && r.id == (if j.id == 0 then count else j.id)
            && (j.nextRun != 0 || !j.enabled ==> r.nextRun == j.nextRun)
  {
  }

  // An add puts the job behind the others, unchanged but for its number and its next run.
  lemma AddExactly(host: Host, table: seq<Job>, job: Job, now: int)
    ensures var after := Adding(host, table, job, now);
            && |after| == |table| + 1 && after[..|table|] == table
            && after[|table|].(id := job.id, nextRun := job.nextRun) == job
            && after[|table|].id == (if job.id == 0 then |table| + 1 else job.id)
  {
    ArmKeepsTheRest(host, |table| + 1, now, job);
  }

  // The first job of an identifier is in slot k.
  predicate FirstWith(table: seq<Job>, id: nat, k: nat) {
    k < |table| && table[k].id == id && forall i :: 0 <= i < k ==> table[i].id != id
  }

  // A removal takes out the first job of an identifier and closes the gap.
  lemma RemoveExactly(table: seq<Job>, id: nat, k: nat)
    requires FirstWith(table, id, k)
    ensures var after := Removing(table, id);
            && |after| == |table| - 1
            && forall i :: 0 <= i < |after| ==> after[i] == table[if i < k then i else i + 1]
  {
    IndexIs(table, id, k);
  }

  // An update puts a job in its place, under the same identifier.
  lemma UpdateExactly(table: seq<Job>, id: nat, job: Job, k: nat)
    requires FirstWith(table, id, k)
    ensures var after := Updating(table, id, job);
            && |after| == |table|
            && (forall i :: 0 <= i < |after| && i != k ==> after[i] == table[i])
            && after[k].(id := job.id) == job && after[k].id == id
  {
    IndexIs(table, id, k);
  }

  // Without such a job neither does anything.
  lemma UnknownIdExactly(table: seq<Job>, id: nat, job: Job)
    requires forall i :: 0 <= i < |table| ==> table[i].id != id
    ensures Removing(table, id) == table && Updating(table, id, job) == table
  {
    IndexIs(table, id, |table|);
  }

  predicate DistinctIds(table: seq<Job>) {
    forall i, j :: 0 <= i < j < |table| ==> table[i].id != table[j].id
  }

  // The number a job gets when it is added: its own, or one more than there are jobs.
  function NewId(table: seq<Job>, job: Job): nat {
    if job.id == 0 then |table| + 1 else job.id
  }

  predicate Taken(table: seq<Job>, id: nat) {
    exists i :: 0 <= i < |table| && table[i].id == id
  }

  // An add keeps the identifiers distinct exactly when the number it gives is not taken.
  lemma AddDistinctExactly(host: Host, table: seq<Job>, job: Job, now: int)
    ensures DistinctIds(Adding(host, table, job, now)) <==> DistinctIds(table) && !Taken(table, NewId(table, job))
  {
    var after := Adding(host, table, job, now);
    assert after[|table|].id == NewId(table, job);
    assert forall i :: 0 <= i < |table| ==> after[i] == table[i];
  }

  lemma RemoveKeepsDistinct(table: seq<Job>, id: nat)
    requires DistinctIds(table)
    ensures DistinctIds(Removing(table, id))
    ensures forall j :: j in Removing(table, id) ==> j in table
  {
  }

  // Neither an update nor a pass touches an identifier.
  lemma UpdateKeepsIds(table: seq<Job>, id: nat, job: Job)
    ensures |Updating(table, id, job)| == |table|
    ensures forall i :: 0 <= i < |table| ==> Updating(table, id, job)[i].id == table[i].id
  {
    var k := IndexOf(table, id);
    assert k < |table| ==> table[k].id == id;
  }

  // Identifiers are not unique: after two adds, a removal of the first job and a third add, two
  // jobs carry the identifier 2, and removing that identifier takes the older of them.
  lemma IdentifiersRepeat(host: Host, a: Job, b: Job, c: Job, now: int)
    requires a.id == 0 && b.id == 0 && c.id == 0
    ensures var two := Removing(Adding(host, Adding(host, [], a, now), b, now), 1);
            var three := Adding(host, two, c, now);
            && |three| == 2 && three[0].id == three[1].id == 2
            && Removing(three, 2) == [three[1]]
  {
  }

  // ---- A scheduler pass ----

  predicate Due(j: Job, now: int) {
    j.enabled && 0 < j.nextRun <= now
  }

  // The command line a run of a job hands to the shell, if any.
  function Issued(j: Job): Option<string> {
    if j.jobType == JOB_SHELL && j.command != "" then Some(Clip(j.command + " 2>&1", 2048)) else None
  }

  // A job after run_job has run it; finish is the clock when the command ended.
  function AfterRun(host: Host, j: Job, finish: int): Job {
    if j.kind == SCHED_AT then
      j.(lastRun := finish, nextRun := 0, enabled := false)
    else
      match NextRunOf(host, j, finish)
      case Some(t) => j.(lastRun := finish, nextRun := t)
      case None => j.(lastRun := finish, nextRun := finish + 60)
  }

  // The table after a pass at clock reading now; finish gives, slot by slot, when a run ends.
  function Passed(host: Host, table: seq<Job>, now: int, finish: nat -> int): (r: seq<Job>)
    ensures |r| == |table|
  {
    seq(|table|, i requires 0 <= i < |table| =>
      if Due(table[i], now) then AfterRun(host, table[i], finish(i)) else table[i])
  }

  // The slots among the first n that a pass at now runs, in the order it runs them.
  function DueSlots(table: seq<Job>, now: int, n: nat): (slots: seq<nat>)
    requires n <= |table|
  {
    if n == 0 then []
    else if Due(table[n - 1], now) then DueSlots(table, now, n - 1) + [n - 1]
    else DueSlots(table, now, n - 1)
  }

  // A pass runs exactly the due jobs, each once, in table order.
  lemma {:induction false} DueSlotsExact(table: seq<Job>, now: int, n: nat)
    requires n <= |table|
    ensures var slots := DueSlots(table, now, n);
            && (forall i :: i in slots <==>
                  0 <= i < n && table[i].enabled && table[i].nextRun > 0 && table[i].nextRun <= now)
            && (forall a, b :: 0 <= a < b < |slots| ==> slots[a] < slots[b])
  {
    if n > 0 {
      DueSlotsExact(table, now, n - 1);
      var before := DueSlots(table, now, n - 1);
      assert forall a :: 0 <= a < |before| ==> before[a] in before;
    }
  }

  // A run writes when it ended and when the next is due, and disables a one-shot; nothing else.
  lemma RunKeepsTheRest(host: Host, j: Job, finish: int)
    ensures var r := AfterRun(host, j, finish);
            && r.(lastRun := j.lastRun, nextRun := j.nextRun, enabled := j.enabled) == j
            && r.lastRun == finish
            && r.enabled == (j.enabled && j.kind != SCHED_AT)
  {
  }

  // A pass does so to every job it runs, and nothing to the others.
  lemma PassKeepsTheRest(host: Host, table: seq<Job>, now: int, finish: nat -> int)
    ensures var after := Passed(host, table, now, finish);
            forall i :: 0 <= i < |table| ==>
              var j, r := table[i], after[i];
              && r.(lastRun := j.lastRun, nextRun := j.nextRun, enabled := j.enabled) == j
              && (if j.enabled && 0 < j.nextRun <= now
                  then r.lastRun == finish(i) && r.enabled == (j.kind != SCHED_AT)
                  else r == j)
  {
    forall i | 0 <= i < |table| && Due(table[i], now)
      ensures var j, r := table[i], AfterRun(host, table[i], finish(i));
              && r.(lastRun := j.lastRun, nextRun := j.nextRun, enabled := j.enabled) == j
              && r.lastRun == finish(i) && r.enabled == (j.kind != SCHED_AT)
    {
      RunKeepsTheRest(host, table[i], finish(i));
    }
  }

  // An "at:" text stored as a cron expression arms a job for exactly the time it names, whether
  // added or run; a text that names none, or any other but "every:", for a minute later.
  lemma CronTextArms(host: Host, j: Job, t: int)
    requires j.kind != SCHED_AT && j.kind != SCHED_EVERY && !("every:" <= j.cronExpr)
    ensures var named := if "at:" <= j.cronExpr then host.parseAt(j.cronExpr[3..]) else 0;
            var next := if named > 0 then named else t + 60;
            && AfterRun(host, j, t).nextRun == next
            && (t + 60 != 0 ==> FirstRun(host, t, j) == next)
  {
  }

  // A job stored with a cron-style expression that is an "at:" text naming a time at or
  // before now.
  predicate NamesPastTime(host: Host, j: Job, now: int) {
    && j.kind != SCHED_AT
    && j.kind != SCHED_EVERY
    && "at:" <= j.cronExpr
    && 0 < host.parseAt(j.cronExpr[3..]) <= now
  }

  lemma IntervalRearms(host: Host, j: Job, after: int)
    requires j.kind == SCHED_EVERY
    ensures NextRunOf(host, j, after) == if j.everyMs >= 1000 then Some(after + j.everyMs / 1000) else None
  {
    IntervalRoundTrip(host.parseAt, j.everyMs, after);
  }

  // The one way a job that ran is due again at the same reading: its expression names a time
  // that is already past, and running it arms it for that time once more.
  lemma StillDueExactly(host: Host, j: Job, now: int, finish: int)
    requires Due(j, now) && now <= finish
    ensures Due(AfterRun(host, j, finish), now) <==> NamesPastTime(host, j, now)
  {
    if j.kind == SCHED_EVERY {
      IntervalRearms(host, j, finish);
    } else if j.kind != SCHED_AT {
      if "every:" <= j.cronExpr {
        assert j.cronExpr[0] == 'e';
        assert !("at:" <= j.cronExpr);
      }
    }
  }

  // After a pass nothing is due at its reading except those jobs; what was not due is untouched.
  lemma PassLeavesNothingDue(host: Host, table: seq<Job>, now: int, finish: nat -> int)
    requires forall i: nat :: i < |table| ==> now <= finish(i)
    ensures var after := Passed(host, table, now, finish);
            forall i :: 0 <= i < |table| ==>
              && (after[i].enabled && 0 < after[i].nextRun <= now
                  <==> table[i].enabled && 0 < table[i].nextRun <= now && NamesPastTime(host, table[i], now))
              && (!Due(table[i], now) ==> after[i] == table[i])
              && (Due(table[i], now) ==> after[i].lastRun == finish(i))
  {
    forall i | 0 <= i < |table| && Due(table[i], now)
      ensures Due(AfterRun(host, table[i], finish(i)), now) <==> NamesPastTime(host, table[i], now)
    {
      StillDueExactly(host, table[i], now, finish(i));
    }
  }

  // An "at:" text is documented as a one-shot, but one stored as a cron expression runs at every
  // pass from its time on: the job is due again at any later reading, whenever the run ends.
  lemma AtExpressionFiresForever(host: Host, j: Job, now: int, finish: int, later: int)
    requires j.enabled && NamesPastTime(host, j, now)
    requires now <= later
    ensures Due(AfterRun(host, j, finish), later)
    ensures NamesPastTime(host, AfterRun(host, j, finish), later)
  {
    assert !("every:" <= j.cronExpr) by { assert j.cronExpr[0] == 'a'; }
  }

  // ---- The jobs file ----

  function JobJson(host: Host, j: Job): Json {
    Object(map[
      "id" := Number(host.toDouble(j.id)),
      "name" := Text(j.name),
      "type" := Number(host.toDouble(j.jobType)),
      "command" := Text(j.command),
      "schedule_kind" := Number(host.toDouble(j.kind)),
      "cron_expr" := Text(j.cronExpr),
      "at_timestamp" := Number(host.toDouble(j.atTimestamp)),
      "every_ms" := Number(host.toDouble(j.everyMs)),
      "timezone" := Text(j.timezone),
      "enabled" := Bool(j.enabled),
      "delivery_mode" := Number(host.toDouble(j.deliveryMode)),
      "delivery_channel" := Text(j.deliveryChannel),
      "delivery_to" := Text(j.deliveryTo),
      "last_run" := Number(host.toDouble(j.lastRun)),
      "next_run" := Number(host.toDouble(j.nextRun))])
  }

  function TableJson(host: Host, table: seq<Job>): Json {
    Array(seq(|table|, i requires 0 <= i < |table| => JobJson(host, table[i])))
  }

  // The job cron_load reads from one element of the file.
  function JobFrom(o: Json): Job {
    Job(
      IntField(o, "id") % TWO_TO_64,
      TextField(o, "name", 128),
      IntField(o, "type"),
      TextField(o, "command", 1024),
      IntField(o, "schedule_kind"),
      TextField(o, "cron_expr", 64),
      IntField(o, "at_timestamp"),
      IntField(o, "every_ms") % TWO_TO_64,
      TextField(o, "timezone", 64),
      BoolField(o, "enabled"),
      IntField(o, "delivery_mode"),
      TextField(o, "delivery_channel", 64),
      TextField(o, "delivery_to", 128),
      IntField(o, "last_run"),
      IntField(o, "next_run"))
  }

  // The elements cron_load goes through: none when the file is missing, empty or no array.
  function Records(file: Option<Json>): seq<Json> {
    match file
    case Some(Array(items)) => items
    case _ => []
  }

  // The table a load builds by adding every element; clock(i) is the clock at the i-th add.
  function Loaded(host: Host, records: seq<Json>, clock: nat -> int): (r: seq<Job>)
    ensures |r| == |records|
  {
    seq(|records|, i requires 0 <= i < |records| => Arm(host, i + 1, clock(i), JobFrom(records[i])))
  }

  // Loading one more element is adding it to what was loaded before.
  lemma LoadedNext(host: Host, records: seq<Json>, clock: nat -> int, i: nat)
    requires i < |records|
    ensures var loaded := Loaded(host, records, clock);
            loaded[..i + 1] == Adding(host, loaded[..i], JobFrom(records[i]), clock(i))
  {
  }

  predicate Exact(x: int) {
    -TWO_TO_53 <= x <= TWO_TO_53
  }

  // The texts fit their buffers and the numbers survive a double.
  predicate Storable(j: Job) {
    && |j.name| < 128 && |j.command| < 1024 && |j.cronExpr| < 64
    && |j.timezone| < 64 && |j.deliveryChannel| < 64 && |j.deliveryTo| < 128
    && Exact(j.id) && Exact(j.jobType) && Exact(j.kind) && Exact(j.atTimestamp) && Exact(j.everyMs)
    && Exact(j.deliveryMode) && Exact(j.lastRun) && Exact(j.nextRun)
  }

  lemma NumberReadBack(host: Host, o: Json, key: string, x: int)
    requires Lawful(host) && Exact(x)
    requires Item(o, key) == Some(Number(host.toDouble(x)))
    ensures IntField(o, key) == x
  {
  }

  // Whatever a file holds, a loaded job's texts fit their buffers, and an element that is no object
  // loads as a disabled, empty job.
  lemma LoadedTextsFit(o: Json)
    ensures var j := JobFrom(o);
            && |j.name| < 128 && |j.command| < 1024 && |j.cronExpr| < 64
            && |j.timezone| < 64 && |j.deliveryChannel| < 64 && |j.deliveryTo| < 128
            && (!o.Object? ==> j == EMPTY_JOB)
  {
  }

  // What is found under each name in an object written for a job.
  ghost predicate NumbersOf(host: Host, j: Job, o: Json) {
    && Item(o, "id") == Some(Number(host.toDouble(j.id)))
    && Item(o, "type") == Some(Number(host.toDouble(j.jobType)))
    && Item(o, "schedule_kind") == Some(Number(host.toDouble(j.kind)))
    && Item(o, "at_timestamp") == Some(Number(host.toDouble(j.atTimestamp)))
    && Item(o, "every_ms") == Some(Number(host.toDouble(j.everyMs)))
    && Item(o, "delivery_mode") == Some(Number(host.toDouble(j.deliveryMode)))
    && Item(o, "last_run") == Some(Number(host.toDouble(j.lastRun)))
    && Item(o, "next_run") == Some(Number(host.toDouble(j.nextRun)))
  }

  ghost predicate TextsOf(j: Job, o: Json) {
    && Item(o, "name") == Some(Text(j.name))
    && Item(o, "command") == Some(Text(j.command))
    && Item(o, "cron_expr") == Some(Text(j.cronExpr))
    && Item(o, "timezone") == Some(Text(j.timezone))
    && Item(o, "enabled") == Some(Bool(j.enabled))
    && Item(o, "delivery_channel") == Some(Text(j.deliveryChannel))
    && Item(o, "delivery_to") == Some(Text(j.deliveryTo))
  }

  lemma NumbersWritten(host: Host, j: Job)
    ensures NumbersOf(host, j, JobJson(host, j))
  {
  }

  lemma TextsWritten(host: Host, j: Job)
    ensures TextsOf(j, JobJson(host, j))
  {
  }

  // The fields a job's schedule rests on are read back whatever the other fields hold.
  lemma ScheduleFrom(host: Host, j: Job, o: Json)
    requires Lawful(host) && NumbersOf(host, j, o) && TextsOf(j, o)
    requires Exact(j.kind) && Exact(j.atTimestamp) && Exact(j.everyMs) && Exact(j.nextRun) && |j.cronExpr| < 64
    ensures var r := JobFrom(o);
            && r.kind == j.kind && r.atTimestamp == j.atTimestamp && r.everyMs == j.everyMs
            && r.nextRun == j.nextRun && r.cronExpr == j.cronExpr && r.enabled == j.enabled
  {
    NumberReadBack(host, o, "schedule_kind", j.kind);
    NumberReadBack(host, o, "at_timestamp", j.atTimestamp);
    NumberReadBack(host, o, "every_ms", j.everyMs);
    NumberReadBack(host, o, "next_run", j.nextRun);
  }

  lemma IdFrom(host: Host, j: Job, o: Json)
    requires Lawful(host) && NumbersOf(host, j, o) && Exact(j.id)
    ensures JobFrom(o).id == j.id
  {
    NumberReadBack(host, o, "id", j.id);
  }

  lemma IdReadBack(host: Host, j: Job, o: Json)
    requires Lawful(host) && Exact(j.id) && o == JobJson(host, j)
    ensures JobFrom(o).id == j.id
  {
    NumbersWritten(host, j);
    IdFrom(host, j, o);
  }

  lemma KindFrom(host: Host, j: Job, o: Json)
    requires Lawful(host) && NumbersOf(host, j, o) && TextsOf(j, o) && Exact(j.kind)
    ensures JobFrom(o).kind == j.kind && JobFrom(o).enabled == j.enabled
  {
    NumberReadBack(host, o, "schedule_kind", j.kind);
  }

  // What kind of job it is and whether it is enabled are read back whatever the rest holds.
  lemma KindReadBack(host: Host, j: Job, o: Json)
    requires Lawful(host) && Exact(j.kind) && o == JobJson(host, j)
    ensures JobFrom(o).kind == j.kind && JobFrom(o).enabled == j.enabled
  {
    NumbersWritten(host, j);
    TextsWritten(host, j);
    KindFrom(host, j, o);
  }


  // What a job is to do, and when and where to: all but its number and the state of its schedule.
  predicate SameTask(a: Job, b: Job) {
    b.(id := a.id, enabled := a.enabled, lastRun := a.lastRun, nextRun := a.nextRun) == a
  }

  // What a file keeps of that exactly.
  predicate Keepable(j: Job) {
    && |j.name| < 128 && |j.command| < 1024 && |j.cronExpr| < 64
    && |j.timezone| < 64 && |j.deliveryChannel| < 64 && |j.deliveryTo| < 128
    && Exact(j.jobType) && Exact(j.kind) && Exact(j.atTimestamp) && Exact(j.everyMs) && Exact(j.deliveryMode)
  }

  lemma TaskFrom(host: Host, j: Job, o: Json)
    requires Lawful(host) && NumbersOf(host, j, o) && TextsOf(j, o) && Keepable(j)
    ensures SameTask(j, JobFrom(o))
  {
    NumberReadBack(host, o, "type", j.jobType);
    NumberReadBack(host, o, "schedule_kind", j.kind);
    NumberReadBack(host, o, "at_timestamp", j.atTimestamp);
    NumberReadBack(host, o, "every_ms", j.everyMs);
    NumberReadBack(host, o, "delivery_mode", j.deliveryMode);
  }

  lemma TaskReadBack(host: Host, j: Job, o: Json)
    requires Lawful(host) && Keepable(j) && o == JobJson(host, j)
    ensures SameTask(j, JobFrom(o))
  {
    NumbersWritten(host, j);
    TextsWritten(host, j);
    TaskFrom(host, j, o);
  }

  lemma WholeFrom(host: Host, j: Job, o: Json)
    requires Lawful(host) && NumbersOf(host, j, o) && TextsOf(j, o) && Storable(j)
    ensures JobFrom(o) == j
  {
    ScheduleFrom(host, j, o);
    NumberReadBack(host, o, "id", j.id);
    NumberReadBack(host, o, "type", j.jobType);
    NumberReadBack(host, o, "delivery_mode", j.deliveryMode);
    NumberReadBack(host, o, "last_run", j.lastRun);
  }

  lemma ScheduleReadBack(host: Host, j: Job)
    requires Lawful(host)
    requires Exact(j.kind) && Exact(j.atTimestamp) && Exact(j.everyMs) && Exact(j.nextRun) && |j.cronExpr| < 64
    ensures var r := JobFrom(JobJson(host, j));
            && r.kind == j.kind && r.atTimestamp == j.atTimestamp && r.everyMs == j.everyMs
            && r.nextRun == j.nextRun && r.cronExpr == j.cronExpr && r.enabled == j.enabled
  {
    NumbersWritten(host, j);
    TextsWritten(host, j);
    ScheduleFrom(host, j, JobJson(host, j));
  }

  // Every field is written under one name and read back from under the same.
  lemma JobReadBack(host: Host, j: Job)
    requires Lawful(host) && Storable(j)
    ensures JobFrom(JobJson(host, j)) == j
  {
    NumbersWritten(host, j);
    TextsWritten(host, j);
    WholeFrom(host, j, JobJson(host, j));
  }

  // ---- Reloading a saved table ----

  // What adding the job again would leave as it is.
  predicate Settled(j: Job) {
    && j.id != 0
    && (j.enabled && j.nextRun == 0 ==> j.kind == SCHED_AT && j.atTimestamp == 0)
  }

  predicate AllSettled(table: seq<Job>) {
    forall i :: 0 <= i < |table| ==> Settled(table[i])
  }

  lemma ArmKeepsExactlySettled(host: Host, count: nat, now: int, j: Job)
    requires count > 0 && now >= 0
    ensures Arm(host, count, now, j) == j <==> Settled(j)
    ensures Settled(Arm(host, count, now, j))
  {
  }

  lemma RecordsOfTable(host: Host, table: seq<Job>)
    ensures var records := Records(Some(TableJson(host, table)));
            && |records| == |table|
            && forall i :: 0 <= i < |table| ==> records[i] == JobJson(host, table[i])
  {
  }

  lemma RecordSchedule(host: Host, table: seq<Job>, o: Json, i: nat)
    requires Lawful(host) && i < |table| && o == JobJson(host, table[i])
    requires var j := table[i];
             Exact(j.kind) && Exact(j.atTimestamp) && Exact(j.everyMs) && Exact(j.nextRun) && |j.cronExpr| < 64
    ensures var j, r := table[i], JobFrom(o);
            && r.kind == j.kind && r.atTimestamp == j.atTimestamp && r.everyMs == j.everyMs
            && r.nextRun == j.nextRun && r.cronExpr == j.cronExpr && r.enabled == j.enabled
  {
    ScheduleReadBack(host, table[i]);
  }

  lemma LoadedSlot(host: Host, records: seq<Json>, clock: nat -> int, i: nat, j: Job)
    requires i < |records| && JobFrom(records[i]) == j
    ensures Loaded(host, records, clock)[i] == Arm(host, i + 1, clock(i), j)
  {
  }

  lemma ReloadedSlot(host: Host, table: seq<Job>, clock: nat -> int, i: nat)
    requires Lawful(host) && i < |table| && Storable(table[i])
    ensures |Records(Some(TableJson(host, table)))| == |table|
    ensures Loaded(host, Records(Some(TableJson(host, table))), clock)[i] == Arm(host, i + 1, clock(i), table[i])
  {
    var records := Records(Some(TableJson(host, table)));
    RecordsOfTable(host, table);
    assert JobFrom(records[i]) == table[i] by { JobReadBack(host, table[i]); }
    LoadedSlot(host, records, clock, i, table[i]);
  }

  // Saving a table and loading it gives back the same jobs in the same order exactly when every
  // job has an id and every enabled job is scheduled.
  lemma ReloadExactly(host: Host, table: seq<Job>, clock: nat -> int)
    requires Lawful(host)
    requires forall i :: 0 <= i < |table| ==> Storable(table[i])
    requires forall i: nat :: i < |table| ==> clock(i) >= 0
    ensures Loaded(host, Records(Some(TableJson(host, table))), clock) == table <==> AllSettled(table)
  {
    var records := Records(Some(TableJson(host, table)));
    var loaded := Loaded(host, records, clock);
    forall i | 0 <= i < |table|
      ensures loaded[i] == table[i] <==> Settled(table[i])
    {
      ReloadedSlot(host, table, clock, i);
      ArmKeepsExactlySettled(host, i + 1, clock(i), table[i]);
    }
    if loaded == table {
      assert forall i :: 0 <= i < |table| ==> loaded[i] == table[i];
    }
  }

  // Every table reached by loading, adding, removing and passes is settled.
  lemma AddSettled(host: Host, table: seq<Job>, job: Job, now: int)
    requires AllSettled(table) && now >= 0
    ensures AllSettled(Adding(host, table, job, now))
  {
  }

  lemma LoadSettled(host: Host, records: seq<Json>, clock: nat -> int)
    requires forall i: nat :: i < |records| ==> clock(i) >= 0
    ensures AllSettled(Loaded(host, records, clock))
  {
    forall i | 0 <= i < |records| ensures Settled(Loaded(host, records, clock)[i]) {
      var j := JobFrom(records[i]);
      LoadedSlot(host, records, clock, i, j);
      ArmKeepsExactlySettled(host, i + 1, clock(i), j);
    }
  }

  lemma RemoveSettled(table: seq<Job>, id: nat)
    requires AllSettled(table)
    ensures AllSettled(Removing(table, id))
  {
  }

  lemma PassSettled(host: Host, table: seq<Job>, now: int, finish: nat -> int)
    requires AllSettled(table)
    requires forall i: nat :: i < |table| ==> 0 <= finish(i)
    ensures AllSettled(Passed(host, table, now, finish))
  {
  }

  // Updating is the one operation that can leave an enabled job unscheduled: it stores the new
  // job as given. It keeps a table settled exactly when what it stores is.
  lemma UpdateSettledExactly(table: seq<Job>, id: nat, job: Job)
    requires AllSettled(table)
    ensures AllSettled(Updating(table, id, job)) <==>
            (IndexOf(table, id) < |table| ==>
               (job.enabled && job.nextRun == 0 ==> job.kind == SCHED_AT && job.atTimestamp == 0))
  {
    var k := IndexOf(table, id);
    if k < |table| {
      assert Settled(table[k]);
      var after := Updating(table, id, job);
      assert after[k] == job.(id := id);
      assert forall i :: 0 <= i < |table| && i != k ==> after[i] == table[i];
    }
  }
}
