/** The rate tracker: a linked list of entries, each with an array of time stamps pruned in place. */
module RateTracker {
  import opened CText
  import opened Widths
  import opened RateWindow

  class RateEntry {
    const key: string
    const timestamps: array<int>
    var count: nat
    var next: RateEntry?

    constructor (key: string, next: RateEntry?)
      ensures this.key == key && this.next == next && count == 0
      ensures timestamps.Length == MAX_TIMESTAMPS && fresh(timestamps)
    {
      this.key := key;
      this.next := next;
      timestamps := new int[MAX_TIMESTAMPS](_ => 0);
      count := 0;
    }

    ghost predicate Valid()
      reads this
    {
      timestamps.Length == MAX_TIMESTAMPS && count <= MAX_TIMESTAMPS && |key| < KEY_SIZE
    }

    ghost function Held(): seq<int>
      reads this, timestamps
      requires Valid()
    {
      timestamps[..count]
    }

    // Compacts the array in place, keeping what is newer than the cutoff.
    method Prune(cutoff: int)
      requires Valid()
      modifies `count, timestamps
      ensures Valid()
      ensures Held() == Newer(old(Held()), cutoff)
    {
      ghost var before := Held();
      var valid := 0;
      for i := 0 to count
        invariant valid <= i && count == old(count)
        invariant timestamps[..valid] == Newer(before[..i], cutoff)
        invariant timestamps[i..count] == before[i..]
      {
        assert before[..i + 1][..i] == before[..i];
        assert timestamps[i] == timestamps[i..count][0] == before[i];
        if timestamps[i] > cutoff {
          timestamps[valid] := timestamps[i];
          valid := valid + 1;
        }
        assert timestamps[i + 1..count] == before[i..][1..];
      }
      assert before[..count] == before;
      count := valid;
    }

    // Prunes, decides, and records an allowed call while there is room.
    method Admit(limit: nat, cutoff: int, now: int) returns (allowed: bool)
      requires Valid()
      modifies `count, timestamps
      ensures Valid()
      ensures var kept := Newer(old(Held()), cutoff);
              && allowed == (|kept| < limit)
              && Held() == if |kept| < limit && |kept| < MAX_TIMESTAMPS then kept + [now] else kept
    {
      Prune(cutoff);
      allowed := count < limit;
      if allowed && count < MAX_TIMESTAMPS {
        timestamps[count] := now;
        count := count + 1;
      }
    }
  }

  // An entry as a value.
  datatype Slot = Slot(key: string, stamps: seq<int>)

  ghost predicate DistinctKeys(slots: seq<Slot>) {
    forall i, j :: 0 <= i < j < |slots| ==> slots[i].key != slots[j].key
  }

  ghost function TrackerOf(slots: seq<Slot>): Tracker {
    if slots == [] then map[] else TrackerOf(slots[1..])[slots[0].key := slots[0].stamps]
  }

  lemma {:induction false} LookUp(slots: seq<Slot>, i: nat)
    requires DistinctKeys(slots) && i < |slots|
    ensures slots[i].key in TrackerOf(slots) && TrackerOf(slots)[slots[i].key] == slots[i].stamps
  {
    if i > 0 {
      assert slots[i] == slots[1..][i - 1];
      LookUp(slots[1..], i - 1);
    }
  }

  lemma {:induction false} NotThere(slots: seq<Slot>, k: string)
    requires forall i :: 0 <= i < |slots| ==> slots[i].key != k
    ensures k !in TrackerOf(slots)
  {
    if slots != [] {
      NotThere(slots[1..], k);
    }
  }

  lemma {:induction false} Replace(slots: seq<Slot>, i: nat, stamps: seq<int>)
    requires DistinctKeys(slots) && i < |slots|
    ensures TrackerOf(slots[i := Slot(slots[i].key, stamps)]) == TrackerOf(slots)[slots[i].key := stamps]
  {
    var changed := slots[i := Slot(slots[i].key, stamps)];
    if i == 0 {
      assert changed[1..] == slots[1..];
    } else {
      assert changed[1..] == slots[1..][i - 1 := Slot(slots[1..][i - 1].key, stamps)];
      Replace(slots[1..], i - 1, stamps);
    }
  }

  // What a decision leaves in an entry that held these stamps.
  ghost function Left(limit: nat, window: Uint64, stamps: seq<int>, now: int): seq<int> {
    var kept := Kept(window, stamps, now);
    if |kept| < limit && |kept| < MAX_TIMESTAMPS then kept + [now] else kept
  }

  // Deciding at the key's slot is deciding in the tracker.
  lemma {:induction false} SlotStep(limit: nat, window: Uint64, slots: seq<Slot>, at: nat, key: string, now: int)
    requires limit > 0 && DistinctKeys(slots) && at < |slots| && slots[at].key == EntryKey(key)
    ensures Allows(limit, window, TrackerOf(slots), key, now) <==> |Kept(window, slots[at].stamps, now)| < limit
    ensures TrackerOf(slots[at := Slot(slots[at].key, Left(limit, window, slots[at].stamps, now))]) ==
            Remembers(limit, window, TrackerOf(slots), key, now)
  {
    LookUp(slots, at);
    Replace(slots, at, Left(limit, window, slots[at].stamps, now));
  }

  // A slot for a new key, with no stamps yet, changes no answer.
  lemma {:induction false} NewSlot(limit: nat, window: Uint64, slots: seq<Slot>, key: string, now: int)
    requires forall i :: 0 <= i < |slots| ==> slots[i].key != EntryKey(key)
    ensures var longer := TrackerOf([Slot(EntryKey(key), [])] + slots);
            && (limit > 0 ==>
                  Remembers(limit, window, longer, key, now) == Remembers(limit, window, TrackerOf(slots), key, now))
            && (Allows(limit, window, longer, key, now) <==> Allows(limit, window, TrackerOf(slots), key, now))
  {
    NotThere(slots, EntryKey(key));
    assert ([Slot(EntryKey(key), [])] + slots)[1..] == slots;
  }

  ghost function At(spine: seq<RateEntry>, i: nat): RateEntry? {
    if i < |spine| then spine[i] else null
  }

  // The list from head is the spine.
  ghost predicate Linked(head: RateEntry?, spine: seq<RateEntry>)
    reads spine
  {
    && head == At(spine, 0)
    && (forall i {:trigger spine[i].next} :: 0 <= i < |spine| ==> spine[i].next == At(spine, i + 1))
  }

  ghost predicate Apart(spine: seq<RateEntry>, arrays: seq<array<int>>, slots: seq<Slot>) {
    && |arrays| == |slots| == |spine|
    && DistinctKeys(slots)
    && (forall i :: 0 <= i < |spine| ==> spine[i].key == slots[i].key && spine[i].timestamps == arrays[i])
    && (forall i, j :: 0 <= i < j < |arrays| ==> arrays[i] != arrays[j])
  }

  ghost predicate Holding(e: RateEntry, a: array<int>, slot: Slot)
    reads e, a
  {
    e.timestamps == a && e.Valid() && e.Held() == slot.stamps
  }

  ghost predicate Holds(spine: seq<RateEntry>, arrays: seq<array<int>>, slots: seq<Slot>)
    reads spine, arrays
  {
    && |arrays| == |slots| == |spine|
    && forall i :: 0 <= i < |spine| ==> Holding(spine[i], arrays[i], slots[i])
  }

  lemma LinkedPrepend(e: RateEntry, spine: seq<RateEntry>)
    requires Linked(e.next, spine)
    ensures Linked(e, [e] + spine)
  {
  }

  lemma ApartPrepend(e: RateEntry, slot: Slot, spine: seq<RateEntry>, arrays: seq<array<int>>, slots: seq<Slot>)
    requires Apart(spine, arrays, slots) && e.key == slot.key
    requires forall i :: 0 <= i < |slots| ==> slots[i].key != slot.key
    requires forall i :: 0 <= i < |arrays| ==> arrays[i] != e.timestamps
    ensures Apart([e] + spine, [e.timestamps] + arrays, [slot] + slots)
  {
  }

  lemma HoldsPrepend(e: RateEntry, slot: Slot, spine: seq<RateEntry>, arrays: seq<array<int>>, slots: seq<Slot>)
    requires Holding(e, e.timestamps, slot) && Holds(spine, arrays, slots)
    ensures Holds([e] + spine, [e.timestamps] + arrays, [slot] + slots)
  {
  }

  class RateTracker {
    const limit: nat
    const window: Uint64
    var entries: RateEntry?
    ghost var spine: seq<RateEntry>        // the entries in list order
    ghost var arrays: seq<array<int>>      // their arrays
    ghost var slots: seq<Slot>             // what they hold

    // The list is the spine, no two of its entries share a key or an array, and each holds what
    // its slot says.
    ghost predicate Valid()
      reads this, spine, arrays
    {
      Linked(entries, spine) && Apart(spine, arrays, slots) && Holds(spine, arrays, slots)
    }

    // The stamps held, by key.
    ghost function State(): Tracker
      reads this
    {
      TrackerOf(slots)
    }

    constructor (limit: nat, window: Uint64)
      ensures Valid() && spine == [] && State() == map[]
      ensures this.limit == limit && this.window == window
    {
      this.limit := limit;
      this.window := window;
      entries := null;
      spine := [];
      arrays := [];
      slots := [];
    }

    // The walk down the list, comparing the first KEY_SIZE - 1 characters.
    method Find(key: string) returns (e: RateEntry?, ghost at: nat)
      requires Valid()
      ensures e == null ==> at == |spine| && forall i :: 0 <= i < |slots| ==> slots[i].key != EntryKey(key)
      ensures e != null ==> at < |spine| && e == spine[at] && e.key == EntryKey(key)
      ensures e != null ==> e.key == if |key| < 256 then key else key[..255]
    {
      e := entries;
      at := 0;
      while e != null && Clip(e.key, KEY_SIZE) != Clip(key, KEY_SIZE)
        invariant at <= |spine|
        invariant e == At(spine, at)
        invariant forall i :: 0 <= i < at ==> slots[i].key != EntryKey(key)
        decreases |spine| - at
      {
        assert Holding(e, arrays[at], slots[at]);
        e := e.next;
        at := at + 1;
      }
      if e != null {
        assert Holding(e, arrays[at], slots[at]);
      }
    }

    // A new entry goes to the head of the list.
    method Prepend(key: string) returns (e: RateEntry)
      requires Valid() && forall i :: 0 <= i < |slots| ==> slots[i].key != EntryKey(key)
      modifies this
      ensures Valid()
      ensures fresh(e) && fresh(e.timestamps)
      ensures e.key == EntryKey(key) == if |key| < 256 then key else key[..255]
      ensures spine == [e] + old(spine) && arrays == [e.timestamps] + old(arrays)
      ensures slots == [Slot(EntryKey(key), [])] + old(slots)
    {
      e := new RateEntry(Clip(key, KEY_SIZE), entries);
      assert e.Held() == [];
      ghost var slot := Slot(e.key, []);
      LinkedPrepend(e, spine);
      ApartPrepend(e, slot, spine, arrays, slots);
      HoldsPrepend(e, slot, spine, arrays, slots);
      entries := e;
      spine := [e] + spine;
      arrays := [e.timestamps] + arrays;
      slots := [slot] + slots;
    }

    // Prunes the entry at a place in the list and decides.
    method Decide(e: RateEntry, ghost at: nat, now: int) returns (allowed: bool)
      requires Valid() && at < |spine| && e == spine[at] && limit > 0
      modifies e`count, e.timestamps, `slots
      ensures Valid()
      ensures allowed == (|Kept(window, old(slots)[at].stamps, now)| < limit)
      ensures slots == old(slots)[at := Slot(old(slots)[at].key, Left(limit, window, old(slots)[at].stamps, now))]
    {
      assert Holding(e, arrays[at], slots[at]);
      allowed := e.Admit(limit, Cutoff(window, now), now);
      slots := slots[at := Slot(e.key, e.Held())];
      forall i | 0 <= i < |spine| ensures Holding(spine[i], arrays[i], slots[i]) {
        if i != at {
          assert old(Holding(spine[i], arrays[i], slots[i]));
          assert arrays[i] != arrays[at] && spine[i] != e;
        }
      }
    }

    // The key's entry, made if need be; that changes no answer.
    method FindOrAdd(key: string, ghost now: int) returns (e: RateEntry, ghost at: nat)
      requires Valid() && limit > 0
      modifies this
      ensures Valid() && at < |spine| && e == spine[at] && slots[at].key == EntryKey(key)
      ensures forall x :: x in spine ==> x in old(spine) || fresh(x)
      ensures forall a :: a in arrays ==> a in old(arrays) || fresh(a)
      ensures Allows(limit, window, State(), key, now) <==> Allows(limit, window, old(State()), key, now)
      ensures Remembers(limit, window, State(), key, now) == Remembers(limit, window, old(State()), key, now)
    {
      var found;
      found, at := Find(key);
      if found == null {
        NewSlot(limit, window, slots, key, now);
        e := Prepend(key);
        at := 0;
      } else {
        e := found;
      }
    }

    // nc_rate_tracker_allow at clock reading now: the answer, and the stamps held afterwards under
    // every key, are those of the tracker as a value, whatever the clock does.
    method Allow(key: string, now: int) returns (allowed: bool)
      requires Valid()
      modifies this, spine, arrays
      ensures Valid()
      ensures forall e :: e in spine ==> e in old(spine) || fresh(e)
      ensures forall a :: a in arrays ==> a in old(arrays) || fresh(a)
      ensures allowed == Allows(limit, window, old(State()), key, now)
      ensures State() == Remembers(limit, window, old(State()), key, now)
    {
      if limit == 0 {
        return true;
      }
      var e, at := FindOrAdd(key, now);
      SlotStep(limit, window, slots, at, key, now);
      assert e in spine && arrays[at] in arrays && arrays[at] == e.timestamps;
      allowed := Decide(e, at, now);
    }
  }
}
