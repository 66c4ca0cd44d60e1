/**
 The sliding-window rate limit as a value: what a tracker remembers of each key, how it decides,
 and what its decisions amount to over whole runs of calls.
 */
module RateWindow {
  import opened CText
  import opened Widths

  const MAX_TIMESTAMPS := 1024
  const KEY_SIZE := 256

  // (int64_t)window
  function Signed(window: Uint64): int {
    if window < TWO_TO_63 then window else window - TWO_TO_64
  }

  function Cutoff(window: Uint64, now: int): int {
    now - Signed(window)
  }

  // The time stamps after a point in time, in their order.
  function Newer(ts: seq<int>, cutoff: int): (r: seq<int>)
    ensures |r| <= |ts|
  {
    if ts == [] then []
    else
      var before := Newer(ts[..|ts| - 1], cutoff);
      if ts[|ts| - 1] > cutoff then before + [ts[|ts| - 1]] else before
  }

  // The stamps a tracker keeps, by entry key.
  type Tracker = map<string, seq<int>>

  function Stamps(t: Tracker, k: string): seq<int> {
    if k in t then t[k] else []
  }

  // A key is known by what fits the entry's buffer.
  function EntryKey(key: string): (k: string)
    ensures |k| < KEY_SIZE
  {
    Clip(key, KEY_SIZE)
  }

  function Kept(window: Uint64, stamps: seq<int>, now: int): seq<int> {
    Newer(stamps, Cutoff(window, now))
  }

  predicate Allows(limit: nat, window: Uint64, t: Tracker, key: string, now: int) {
    limit == 0 || |Kept(window, Stamps(t, EntryKey(key)), now)| < limit
  }

  // What the tracker remembers after a call; past MAX_TIMESTAMPS an allowed call is not recorded.
  function Remembers(limit: nat, window: Uint64, t: Tracker, key: string, now: int): Tracker {
    if limit == 0 then t
    else
      var kept := Kept(window, Stamps(t, EntryKey(key)), now);
      t[EntryKey(key) := if |kept| < limit && |kept| < MAX_TIMESTAMPS then kept + [now] else kept]
  }

  // ---- Runs of calls ----

  datatype Call = Call(key: string, now: int)

  ghost predicate InOrder(calls: seq<Call>) {
    forall i, j :: 0 <= i < j < |calls| ==> calls[i].now <= calls[j].now
  }

  function After(limit: nat, window: Uint64, calls: seq<Call>): Tracker {
    if calls == [] then map[]
    else
      var last := calls[|calls| - 1];
      Remembers(limit, window, After(limit, window, calls[..|calls| - 1]), last.key, last.now)
  }

  // The full record a tracker does not keep: every call it allowed.
  function Log(limit: nat, window: Uint64, calls: seq<Call>): seq<Call> {
    if calls == [] then []
    else
      var before, last := calls[..|calls| - 1], calls[|calls| - 1];
      var log := Log(limit, window, before);
      if Allows(limit, window, After(limit, window, before), last.key, last.now) then log + [last] else log
  }

  // The times of the calls in a record that fall to one entry.
  function Times(log: seq<Call>, k: string): seq<int> {
    if log == [] then []
    else
      var before, last := Times(log[..|log| - 1], k), log[|log| - 1];
      if EntryKey(last.key) == k then before + [last.now] else before
  }

  // Keys a tracker does not tell apart: it knows no more of them than their first 255 characters.
  predicate SameKey(a: string, b: string) {
    a == b || (|a| >= 255 && |b| >= 255 && a[..255] == b[..255])
  }

  lemma EntryKeyExactly(a: string, b: string)
    ensures EntryKey(a) == EntryKey(b) <==> SameKey(a, b)
    ensures EntryKey(a) == if |a| < 256 then a else a[..255]
  {
    assert |a| == 255 ==> a[..255] == a;
    assert |b| == 255 ==> b[..255] == b;
  }

  // How many calls of a record fall to a key, after one point in time and up to another.
  function Among(log: seq<Call>, key: string, from: int, to: int): nat {
    if log == [] then 0
    else
      var last := log[|log| - 1];
      Among(log[..|log| - 1], key, from, to) + if SameKey(last.key, key) && from < last.now <= to then 1 else 0
  }

  lemma {:induction false} AmongIsNewer(log: seq<Call>, key: string, from: int, to: int)
    requires forall i :: 0 <= i < |log| ==> log[i].now <= to
    ensures Among(log, key, from, to) == |Newer(Times(log, EntryKey(key)), from)|
  {
    if log != [] {
      var before, last := log[..|log| - 1], log[|log| - 1];
      AmongIsNewer(before, key, from, to);
      EntryKeyExactly(last.key, key);
      NewerAppend(Times(before, EntryKey(key)), last.now, from);
    }
  }

  lemma {:induction false} LogUpTo(limit: nat, window: Uint64, calls: seq<Call>, now: int)
    requires forall i :: 0 <= i < |calls| ==> calls[i].now <= now
    ensures forall i :: 0 <= i < |Log(limit, window, calls)| ==> Log(limit, window, calls)[i].now <= now
  {
    if calls != [] {
      LogUpTo(limit, window, calls[..|calls| - 1], now);
    }
  }

  lemma {:induction false} NewerTwice(ts: seq<int>, c: int, d: int)
    requires c <= d
    ensures Newer(Newer(ts, c), d) == Newer(ts, d)
  {
    if ts != [] {
      var init, last := ts[..|ts| - 1], ts[|ts| - 1];
      NewerTwice(init, c, d);
      var before := Newer(init, c);
      if last > c {
        assert (before + [last])[..|before|] == before;
      }
    }
  }

  lemma NewerAppend(ts: seq<int>, x: int, c: int)
    ensures Newer(ts + [x], c) == if x > c then Newer(ts, c) + [x] else Newer(ts, c)
  {
  }

  lemma TimesAppend(log: seq<Call>, call: Call, k: string)
    ensures Times(log + [call], k) == if EntryKey(call.key) == k then Times(log, k) + [call.now] else Times(log, k)
  {
  }

  lemma LogAppend(limit: nat, window: Uint64, before: seq<Call>, last: Call)
    ensures Log(limit, window, before + [last]) ==
            if Allows(limit, window, After(limit, window, before), last.key, last.now)
            then Log(limit, window, before) + [last]
            else Log(limit, window, before)
    ensures After(limit, window, before + [last]) ==
            Remembers(limit, window, After(limit, window, before), last.key, last.now)
  {
  }

  // The settings under which the limit is kept.
  predicate Enforceable(limit: nat, window: Uint64) {
    1 <= limit <= 1024 && window < TWO_TO_63
  }

  // now is no earlier than the calls made so far.
  ghost predicate InTime(calls: seq<Call>, now: int) {
    InOrder(calls) && (calls != [] ==> calls[|calls| - 1].now <= now)
  }

  // What is remembered of a key stands for the full record: from any point the next decision can
  // ask about, both hold the same stamps.
  ghost predicate StandsFor(stamps: seq<int>, times: seq<int>, since: int) {
    forall c {:trigger Newer(stamps, c)} {:trigger Newer(times, c)} ::
      c >= since ==> Newer(stamps, c) == Newer(times, c)
  }

  lemma StandsForStep(limit: nat, window: Uint64, stamps: seq<int>, times: seq<int>, since: int, now: int)
    requires Enforceable(limit, window)
    requires StandsFor(stamps, times, since) && since <= now - window
    ensures var kept := Kept(window, stamps, now);
            if |kept| < limit
            then |kept| < MAX_TIMESTAMPS && StandsFor(kept + [now], times + [now], now - window)
            else StandsFor(kept, times, now - window)
  {
    var kept := Kept(window, stamps, now);
    forall c | c >= now - window
      ensures Newer(kept, c) == Newer(times, c)
      ensures Newer(kept + [now], c) == Newer(times + [now], c)
    {
      StandsAt(stamps, times, since, now - window, now, c);
    }
  }

  lemma StandsAt(stamps: seq<int>, times: seq<int>, since: int, cutoff: int, now: int, c: int)
    requires StandsFor(stamps, times, since) && since <= cutoff <= c
    ensures var kept := Newer(stamps, cutoff);
            Newer(kept, c) == Newer(times, c) && Newer(kept + [now], c) == Newer(times + [now], c)
  {
    NewerTwice(stamps, cutoff, c);
    NewerAppend(Newer(stamps, cutoff), now, c);
    NewerAppend(times, now, c);
  }

  // The full record of a key, from the point on that the next decision can reach, is what is held.
  ghost predicate Pruned(limit: nat, window: Uint64, calls: seq<Call>, k: string, since: int) {
    StandsFor(Stamps(After(limit, window, calls), k), Times(Log(limit, window, calls), k), since)
  }

  lemma PrunedNext(limit: nat, window: Uint64, before: seq<Call>, last: Call, k: string, since: int)
    requires Enforceable(limit, window) && since <= last.now - window
    requires Pruned(limit, window, before, k, since)
    ensures Pruned(limit, window, before + [last], k, last.now - window)
  {
    var stamps, times := Stamps(After(limit, window, before), k), Times(Log(limit, window, before), k);
    LogAppend(limit, window, before, last);
    TimesAppend(Log(limit, window, before), last, k);
    StandsForStep(limit, window, stamps, times, since, last.now);
  }

  lemma {:induction false} PrunedStandsForFull(limit: nat, window: Uint64, calls: seq<Call>, k: string, now: int)
    requires Enforceable(limit, window) && InTime(calls, now)
    ensures Pruned(limit, window, calls, k, now - window)
  {
    if calls != [] {
      var before, last := calls[..|calls| - 1], calls[|calls| - 1];
      PrunedStandsForFull(limit, window, before, k, last.now);
      PrunedNext(limit, window, before, last, k, last.now - window);
      assert before + [last] == calls;
    }
  }

  lemma KeptLikeFull(limit: nat, window: Uint64, calls: seq<Call>, k: string, now: int)
    requires Enforceable(limit, window) && InTime(calls, now)
    ensures Kept(window, Stamps(After(limit, window, calls), k), now) ==
            Newer(Times(Log(limit, window, calls), k), now - window)
  {
    PrunedStandsForFull(limit, window, calls, k, now);
    var stamps, times := Stamps(After(limit, window, calls), k), Times(Log(limit, window, calls), k);
    assert Newer(stamps, now - window) == Newer(times, now - window);
  }

  lemma {:induction false} DecidesLikeTimes(limit: nat, window: Uint64, calls: seq<Call>, key: string, now: int)
    requires Enforceable(limit, window) && InTime(calls, now)
    ensures Allows(limit, window, After(limit, window, calls), key, now) <==>
            |Newer(Times(Log(limit, window, calls), EntryKey(key)), now - window)| < limit
  {
    KeptLikeFull(limit, window, calls, EntryKey(key), now);
  }

  // Each decision is the one the full record would give: allowed exactly when fewer than limit
  // calls of this key were allowed since now - window.
  lemma {:induction false} DecidesLikeFullLog(limit: nat, window: Uint64, calls: seq<Call>, key: string, now: int)
    requires Enforceable(limit, window) && InTime(calls, now)
    ensures Allows(limit, window, After(limit, window, calls), key, now) <==>
            Among(Log(limit, window, calls), key, now - window, now) < limit
  {
    DecidesLikeTimes(limit, window, calls, key, now);
    AmongLog(limit, window, calls, key, now - window, now);
  }

  lemma {:induction false} AmongLog(limit: nat, window: Uint64, calls: seq<Call>, key: string, from: int, now: int)
    requires InTime(calls, now)
    ensures Among(Log(limit, window, calls), key, from, now) ==
            |Newer(Times(Log(limit, window, calls), EntryKey(key)), from)|
  {
    LogUpTo(limit, window, calls, now);
    AmongIsNewer(Log(limit, window, calls), key, from, now);
  }

  // ---- The window bound ----

  // The stamps in (t - window, t].
  function Within(ts: seq<int>, t: int, window: nat): (r: seq<int>)
    ensures |r| <= |ts|
  {
    if ts == [] then []
    else
      var before, last := Within(ts[..|ts| - 1], t, window), ts[|ts| - 1];
      if t - window < last <= t then before + [last] else before
  }

  ghost predicate Sorted(ts: seq<int>) {
    forall i, j :: 0 <= i < j < |ts| ==> ts[i] <= ts[j]
  }

  // limit calls apart means a window apart.
  ghost predicate Spread(ts: seq<int>, limit: nat, window: nat) {
    forall i, j :: 0 <= i && j == i + limit && j < |ts| ==> ts[i] + window <= ts[j]
  }

  // Of a sorted sequence, the stamps after a point are all those from some place on.
  lemma {:induction false} NewerIsTail(ts: seq<int>, c: int, m: nat)
    requires Sorted(ts) && m < |ts|
    ensures ts[m] > c ==> |Newer(ts, c)| >= |ts| - m
    ensures ts[m] <= c ==> |Newer(ts, c)| < |ts| - m
  {
    var init := ts[..|ts| - 1];
    if m < |ts| - 1 {
      NewerIsTail(init, c, m);
      assert ts[m] <= ts[|ts| - 1];
    } else if ts[m] <= c {
      NoneNewer(init, c);
    }
  }

  lemma {:induction false} NoneNewer(ts: seq<int>, c: int)
    requires forall i :: 0 <= i < |ts| ==> ts[i] <= c
    ensures Newer(ts, c) == []
  {
    if ts != [] {
      NoneNewer(ts[..|ts| - 1], c);
    }
  }

  lemma SpreadStep(ts: seq<int>, limit: nat, window: nat, now: int)
    requires limit > 0 && Sorted(ts) && Spread(ts, limit, window)
    requires UpTo(ts, now)
    requires |Newer(ts, now - window)| < limit
    ensures Sorted(ts + [now]) && Spread(ts + [now], limit, window)
  {
    if |ts| >= limit {
      NewerIsTail(ts, now - window, |ts| - limit);
    }
  }

  // The times of a key in the full record grow by the last call exactly when it is this key's and
  // fewer than limit of them are newer than the window reaches.
  lemma TimesOfLog(limit: nat, window: Uint64, before: seq<Call>, last: Call, k: string)
    requires Enforceable(limit, window) && InTime(before, last.now)
    ensures var ts := Times(Log(limit, window, before), k);
            Times(Log(limit, window, before + [last]), k) ==
            if EntryKey(last.key) == k && |Newer(ts, last.now - window)| < limit then ts + [last.now] else ts
  {
    LogAppend(limit, window, before, last);
    DecidesLikeTimes(limit, window, before, last.key, last.now);
    TimesAppend(Log(limit, window, before), last, k);
  }

  ghost predicate UpTo(ts: seq<int>, now: int) {
    forall i :: 0 <= i < |ts| ==> ts[i] <= now
  }

  ghost predicate WellSpread(limit: nat, window: nat, ts: seq<int>, now: int) {
    Sorted(ts) && Spread(ts, limit, window) && UpTo(ts, now)
  }

  lemma SpreadNext(limit: nat, window: nat, ts: seq<int>, next: seq<int>, now: int)
    requires limit > 0 && WellSpread(limit, window, ts, now)
    requires next == ts || (next == ts + [now] && |Newer(ts, now - window)| < limit)
    ensures WellSpread(limit, window, next, now)
  {
    if next != ts {
      SpreadStep(ts, limit, window, now);
    }
  }

  lemma {:induction false} SpreadGrows(limit: nat, window: Uint64, before: seq<Call>, last: Call, k: string)
    requires Enforceable(limit, window) && InTime(before, last.now)
    requires WellSpread(limit, window, Times(Log(limit, window, before), k), last.now)
    ensures WellSpread(limit, window, Times(Log(limit, window, before + [last]), k), last.now)
  {
    TimesOfLog(limit, window, before, last, k);
    SpreadNext(limit, window, Times(Log(limit, window, before), k),
               Times(Log(limit, window, before + [last]), k), last.now);
  }

  lemma {:induction false} TimesSpread(limit: nat, window: Uint64, calls: seq<Call>, k: string, now: int)
    requires Enforceable(limit, window) && InTime(calls, now)
    ensures WellSpread(limit, window, Times(Log(limit, window, calls), k), now)
  {
    if calls != [] {
      var before, last := calls[..|calls| - 1], calls[|calls| - 1];
      TimesSpread(limit, window, before, k, last.now);
      SpreadGrows(limit, window, before, last, k);
      assert before + [last] == calls;
    }
  }

  lemma {:induction false} WithinNewer(ts: seq<int>, t: int, window: nat)
    ensures |Within(ts, t, window)| <= |Newer(ts, t - window)|
  {
    if ts != [] {
      WithinNewer(ts[..|ts| - 1], t, window);
    }
  }

  lemma {:induction false} SpreadBounds(ts: seq<int>, limit: nat, t: int, window: nat)
    requires Sorted(ts) && Spread(ts, limit, window)
    ensures |Within(ts, t, window)| <= limit
  {
    if |ts| > limit {
      var init, last := ts[..|ts| - 1], ts[|ts| - 1];
      SpreadBounds(init, limit, t, window);
      if t - window < last <= t {
        var m := |ts| - 1 - limit;
        assert ts[m] + window <= last;
        NewerIsTail(ts, t - window, m);
        WithinNewer(ts, t, window);
      }
    }
  }

  lemma TimesBound(limit: nat, window: Uint64, calls: seq<Call>, k: string, t: int)
    requires Enforceable(limit, window) && InOrder(calls)
    ensures |Within(Times(Log(limit, window, calls), k), t, window)| <= limit
  {
    TimesSpread(limit, window, calls, k, if calls == [] then 0 else calls[|calls| - 1].now);
    SpreadBounds(Times(Log(limit, window, calls), k), limit, t, window);
  }

  lemma {:induction false} AmongIsWithin(log: seq<Call>, key: string, t: int, window: nat)
    ensures Among(log, key, t - window, t) == |Within(Times(log, EntryKey(key)), t, window)|
  {
    if log != [] {
      AmongIsWithin(log[..|log| - 1], key, t, window);
      EntryKeyExactly(log[|log| - 1].key, key);
    }
  }

  // No window (t - window, t], wherever it lies, holds more than limit allowed calls of a key.
  lemma WindowBound(limit: nat, window: Uint64, calls: seq<Call>, key: string, t: int)
    requires Enforceable(limit, window) && InOrder(calls)
    ensures Among(Log(limit, window, calls), key, t - window, t) <= limit
  {
    TimesBound(limit, window, calls, EntryKey(key), t);
    AmongIsWithin(Log(limit, window, calls), key, t, window);
  }

  // ---- Exactly when the bound holds ----

  function Burst(n: nat): (calls: seq<Call>)
    ensures |calls| == n
    ensures forall i :: 0 <= i < n ==> calls[i] == Call("", 0)
  {
    if n == 0 then [] else Burst(n - 1) + [Call("", 0)]
  }

  // Stamps a tracker can hold at a clock reading.
  ghost predicate Holdable(ts: seq<int>, now: int) {
    |ts| <= MAX_TIMESTAMPS && UpTo(ts, now)
  }

  lemma {:induction false} NewerHoldable(ts: seq<int>, c: int, now: int)
    requires UpTo(ts, now)
    ensures UpTo(Newer(ts, c), now)
  {
    if ts != [] {
      NewerHoldable(ts[..|ts| - 1], c, now);
    }
  }

  // Whatever the settings, what is held of a key fits and is not from the future.
  lemma {:induction false} StampsHoldable(limit: nat, window: Uint64, calls: seq<Call>, k: string, now: int)
    requires InTime(calls, now)
    ensures Holdable(Stamps(After(limit, window, calls), k), now)
  {
    if calls != [] {
      var before, last := calls[..|calls| - 1], calls[|calls| - 1];
      StampsHoldable(limit, window, before, k, last.now);
      var stamps := Stamps(After(limit, window, before), k);
      NewerHoldable(stamps, Cutoff(window, last.now), last.now);
      assert Holdable(Stamps(After(limit, window, calls), k), last.now);
    }
  }

  lemma UnenforcedAllows(limit: nat, window: Uint64, t: Tracker, key: string, now: int)
    requires !Enforceable(limit, window) && Holdable(Stamps(t, EntryKey(key)), now)
    ensures Allows(limit, window, t, key, now)
  {
    if window >= TWO_TO_63 {
      assert Cutoff(window, now) > now;
      NoneNewer(Stamps(t, EntryKey(key)), Cutoff(window, now));
    }
  }

  // A tracker that cannot enforce its limit refuses nothing, in any run.
  lemma {:induction false} UnenforcedAllowsAll(limit: nat, window: Uint64, calls: seq<Call>)
    requires !Enforceable(limit, window) && InOrder(calls)
    ensures Log(limit, window, calls) == calls
  {
    if calls != [] {
      var before, last := calls[..|calls| - 1], calls[|calls| - 1];
      UnenforcedAllowsAll(limit, window, before);
      StampsHoldable(limit, window, before, EntryKey(last.key), last.now);
      UnenforcedAllows(limit, window, After(limit, window, before), last.key, last.now);
      assert before + [last] == calls;
    }
  }

  lemma {:induction false} BurstCount(n: nat, window: nat)
    requires window > 0
    ensures Among(Burst(n), "", 0 - window, 0) == n
  {
    if n > 0 {
      BurstCount(n - 1, window);
      assert Burst(n)[..n - 1] == Burst(n - 1);
    }
  }

  predicate Bounded(limit: nat, window: Uint64, calls: seq<Call>, key: string, t: int) {
    Among(Log(limit, window, calls), key, t - window, t) <= limit
  }

  // The bound, over every run in order, every key and every window.
  ghost predicate AlwaysBounded(limit: nat, window: Uint64) {
    forall calls, key, t :: InOrder(calls) ==> Bounded(limit, window, calls, key, t)
  }

  lemma {:induction false} BurstInOrder(n: nat)
    ensures InOrder(Burst(n))
  {
  }

  // A run that breaks the bound where the settings cannot be enforced.
  lemma {:induction false} BurstWitness(limit: nat, window: Uint64) returns (calls: seq<Call>)
    requires window > 0 && !Enforceable(limit, window)
    ensures InOrder(calls) && !Bounded(limit, window, calls, "", 0)
  {
    calls := Burst(limit + 1);
    BurstInOrder(limit + 1);
    UnenforcedAllowsAll(limit, window, calls);
    BurstCount(limit + 1, window);
    TooMany(limit, window, calls, limit + 1);
  }

  lemma {:induction false} TooMany(limit: nat, window: Uint64, calls: seq<Call>, n: nat)
    requires Log(limit, window, calls) == calls && n > limit
    requires Among(calls, "", 0 - window, 0) == n
    ensures !Bounded(limit, window, calls, "", 0)
  {
  }

  // The bound holds exactly for the settings that can be enforced, and for a window of no length,
  // which holds no call at all.
  lemma WindowBoundExactly(limit: nat, window: Uint64)
    ensures AlwaysBounded(limit, window) <==>
            window == 0 || (1 <= limit <= 1024 && window < 0x8000_0000_0000_0000)
  {
    if window == 0 {
      forall calls, key, t | InOrder(calls) ensures Bounded(limit, window, calls, key, t)
      {
        NoneAmong(Log(limit, window, calls), key, t);
      }
    } else if Enforceable(limit, window) {
      forall calls, key, t | InOrder(calls) ensures Bounded(limit, window, calls, key, t)
      {
        WindowBound(limit, window, calls, key, t);
      }
    } else {
      var calls := BurstWitness(limit, window);
    }
  }

  lemma {:induction false} NoneAmong(log: seq<Call>, key: string, t: int)
    ensures Among(log, key, t, t) == 0
  {
    if log != [] {
      NoneAmong(log[..|log| - 1], key, t);
    }
  }

  // ---- Keys do not meet ----

  // The calls that fall to a key.
  function Only(calls: seq<Call>, key: string): seq<Call> {
    if calls == [] then []
    else
      var before, last := Only(calls[..|calls| - 1], key), calls[|calls| - 1];
      if SameKey(last.key, key) then before + [last] else before
  }

  // What is held of a key is as if no other key had called.
  lemma {:induction false} StampsIndependent(limit: nat, window: Uint64, calls: seq<Call>, key: string)
    ensures Stamps(After(limit, window, calls), EntryKey(key)) ==
            Stamps(After(limit, window, Only(calls, key)), EntryKey(key))
  {
    if calls != [] {
      var before, last := calls[..|calls| - 1], calls[|calls| - 1];
      StampsIndependent(limit, window, before, key);
      EntryKeyExactly(last.key, key);
      var alone := Only(before, key);
      if SameKey(last.key, key) {
        assert (alone + [last])[..|alone|] == alone;
      }
    }
  }

  lemma DecisionIndependent(limit: nat, window: Uint64, calls: seq<Call>, asked: string, key: string, now: int)
    requires SameKey(asked, key)
    ensures Allows(limit, window, After(limit, window, calls), asked, now) <==>
            Allows(limit, window, After(limit, window, Only(calls, key)), asked, now)
  {
    EntryKeyExactly(asked, key);
    StampsIndependent(limit, window, calls, key);
  }

  lemma OnlyAppend(log: seq<Call>, call: Call, key: string)
    ensures Only(log + [call], key) ==
            if SameKey(call.key, key) then Only(log, key) + [call] else Only(log, key)
  {
  }

  lemma OnlyLogStep(limit: nat, window: Uint64, before: seq<Call>, last: Call, key: string)
    requires Only(Log(limit, window, before), key) == Log(limit, window, Only(before, key))
    ensures Only(Log(limit, window, before + [last]), key) == Log(limit, window, Only(before + [last], key))
  {
    LogAppend(limit, window, before, last);
    OnlyAppend(Log(limit, window, before), last, key);
    OnlyAppend(before, last, key);
    if SameKey(last.key, key) {
      DecisionIndependent(limit, window, before, last.key, key, last.now);
      LogAppend(limit, window, Only(before, key), last);
    }
  }

  lemma {:induction false} OnlyLog(limit: nat, window: Uint64, calls: seq<Call>, key: string)
    ensures Only(Log(limit, window, calls), key) == Log(limit, window, Only(calls, key))
  {
    if calls != [] {
      var before, last := calls[..|calls| - 1], calls[|calls| - 1];
      OnlyLog(limit, window, before, key);
      OnlyLogStep(limit, window, before, last, key);
      assert before + [last] == calls;
    }
  }

  // So is every decision on it, and so are the calls of it that were allowed. Only keys that agree
  // in their first 255 characters share a window.
  lemma KeysIndependent(limit: nat, window: Uint64, calls: seq<Call>, key: string, now: int)
    ensures var alone := Only(calls, key);
            && (Allows(limit, window, After(limit, window, calls), key, now) <==>
                Allows(limit, window, After(limit, window, alone), key, now))
            && Only(Log(limit, window, calls), key) == Log(limit, window, alone)
  {
    DecisionIndependent(limit, window, calls, key, key, now);
    OnlyLog(limit, window, calls, key);
  }
}
