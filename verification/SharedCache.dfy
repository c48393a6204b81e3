/** The shared-memory cache: an array of slots, updated in place under one lock, so that
    each operation here is one atomic step. `log` is the history of all pushes; the class
    invariant says that the array is what that history makes of it. */
module SharedCache {
  import opened Basics
  import opened Positions
  import opened TelegramLog
  import opened CacheQueries
  import opened ProbeTable

  /** Pushes to address 0 that found a vacant slot; each is counted as a new entry. */
  function ZeroPushes(log: Log): nat {
    if log == [] then 0 else
    var short := log[..|log| - 1];
    ZeroPushes(short) + if log[|log| - 1].addr == 0 && |SharedView(short)| < CAPACITY then 1 else 0
  }

  /** While fewer than 2^32 pushes have happened, `num_entries` stays within the capacity exactly
      when stored addresses and pushes to address 0 do so together, and it counts the
      occupied slots exactly when no push to address 0 has found a vacant slot. */
  lemma CountExactlyWhen(cache: SharedGroupCache)
    requires cache.Valid() && |cache.log| < 0x1_0000_0000
    ensures cache.numEntries <= CAPACITY <==> |SharedView(cache.log)| + ZeroPushes(cache.log) <= CAPACITY
    ensures cache.numEntries == |Occupied(cache.entries[..])| <==> ZeroPushes(cache.log) == 0
  {
    hide TableAfter, SharedView, ZeroPushes, Occupied;
    OccupiedAreStored(cache.log);
    CountIsBounded(cache.log);
  }

  lemma OccupiedAreStored(log: Log)
    ensures |Occupied(TableAfter(log))| == |SharedView(log)|
  {
    TableRepresents(log);
    hide TableAfter, SharedView;
  }

  lemma {:induction false} CountIsBounded(log: Log)
    ensures |SharedView(log)| + ZeroPushes(log) <= |log|
  {
    if log != [] {
      CountIsBounded(log[..|log| - 1]);
      Grow(SharedView(log[..|log| - 1]), log[|log| - 1].addr, SharedEntry(log, |log|));
    }
  }

  lemma Grow(view: View, a: Address, e: Entry)
    ensures |view[a := e]| == |view| + if a in view then 0 else 1
  {
    assert view[a := e].Keys == view.Keys + {a};
  }

  /** Pushes to address 0 alone exceed the capacity that the header promises. */
  lemma {:induction false} ZeroPushesCount(n: nat)
    ensures var log := seq(n, _ => Push(0, [], 0)); SharedView(log) == map[] && ZeroPushes(log) == n
  {
    var log := seq(n, _ => Push(0, [], 0));
    if n > 0 {
      ZeroPushesCount(n - 1);
      assert log[..n - 1] == seq(n - 1, _ => Push(0, [], 0));
    }
  }

  lemma CountExceedsCapacity(cache: SharedGroupCache)
    requires cache.Valid() && cache.log == seq(2049, _ => Push(0, [], 0))
    ensures cache.numEntries == 2049 && CAPACITY == 2048 && Occupied(cache.entries[..]) == {}
  {
    ZeroPushesCount(2049);
    OccupiedAreStored(cache.log);
    hide TableAfter, SharedView, ZeroPushes;
    assert |Occupied(cache.entries[..])| == 0;
  }

  class SharedGroupCache {
    const entries: array<Entry>
    var position: Word32
    var generation: Word32
    var numEntries: Word32
    ghost var log: Log

    ghost predicate Valid()
      reads this, entries
    {
      && entries.Length == CAPACITY
      && entries[..] == TableAfter(log)
      && position == Wrap(|log|)
      && generation == Wrap(|log|)
      && numEntries == Wrap(|SharedView(log)| + ZeroPushes(log))
    }

    constructor ()
      ensures Valid() && fresh(entries) && log == []
    {
      entries := new Entry[CAPACITY](_ => EMPTY);
      position, generation, numEntries := 0, 0, 0;
      log := [];
      new;
      assert entries[..] == TableAfter([]);
    }

    method FindSlot(addr: Address) returns (slot: nat)
      requires entries.Length == CAPACITY
      ensures slot == Slot(entries[..], addr)
    {
      hide Probes;
      var index := addr % CAPACITY;
      var i := 0;
      while i < CAPACITY
        invariant 0 <= i <= CAPACITY
        invariant Probes(entries[..], addr, 0) == Probes(entries[..], addr, i)
      {
        ProbesStep(entries[..], addr, i);
        slot := (index + i) % CAPACITY;
        if entries[slot].addr == addr || entries[slot].addr == 0 {
          return;
        }
        i := i + 1;
      }
      ProbesStep(entries[..], addr, CAPACITY);
      slot := CAPACITY;
    }

    method InsertLocked(addr: Address, entry: Entry)
      requires entries.Length == CAPACITY && entry.addr == addr
      modifies entries, this`numEntries
      ensures entries[..] == Written(old(entries[..]), entry)
      ensures var slot := Slot(old(entries[..]), addr);
              numEntries ==
              if slot < CAPACITY && old(entries[..])[slot].addr == 0 then Wrap(old(numEntries) + 1)
              else old(numEntries)
    {
      var slot := FindSlot(addr);
      if slot >= CAPACITY {
        return;
      }
      var isNew := entries[slot].addr == 0;
      entries[slot] := entry;
      if isNew {
        numEntries := Wrap(numEntries + 1);
      }
    }

    /** `insert_locked` for the next push of a history. */
    method Record(entry: Entry, ghost before: Log, ghost after: Log)
      requires entries.Length == CAPACITY
      requires after != [] && after[..|after| - 1] == before && entry == SharedEntry(after, |after|)
      requires entries[..] == TableAfter(before)
      requires numEntries == Wrap(|SharedView(before)| + ZeroPushes(before))
      modifies entries, this`numEntries
      ensures entries[..] == TableAfter(after)
      ensures numEntries == Wrap(|SharedView(after)| + ZeroPushes(after))
    {
      hide SharedView, ZeroPushes, Slot;
      CountStep(before, after);
      WrapSucc(|SharedView(before)| + ZeroPushes(before));
      InsertLocked(entry.addr, entry);
    }

    /** The count grows exactly with the pushes whose slot was vacant. */
    static lemma CountStep(before: Log, after: Log)
      requires after != [] && after[..|after| - 1] == before
      ensures var slot := Slot(TableAfter(before), after[|after| - 1].addr);
              |SharedView(after)| + ZeroPushes(after) ==
              |SharedView(before)| + ZeroPushes(before)
              + if slot < CAPACITY && TableAfter(before)[slot].addr == 0 then 1 else 0
    {
      var a, view := after[|after| - 1].addr, SharedView(before);
      Grow(view, a, SharedEntry(after, |after|));
      TableRepresents(before);
      hide Represents, TableAfter, Slot;
      if a in view {
        FindsStored(TableAfter(before), view, a);
        KeyIsAddress(TableAfter(before), view, a);
      } else {
        MissesAbsent(TableAfter(before), view, a);
      }
    }

    static lemma KeyIsAddress(t: Table, view: View, a: Address)
      requires Represents(t, view) && a in view
      ensures a != 0 && view[a].addr == a
    {
      var i :| 0 <= i < CAPACITY && t[i].addr == a;
    }

    /** Appends one push to the history; the table follows. */
    method Push(addr: Address, value: seq<Byte>, now: int)
      requires Valid()
      modifies this, entries
      ensures Valid()
      ensures log == old(log) + [TelegramLog.Push(addr, value, now)]
    {
      hide TableAfter, Wrap, SharedView, ZeroPushes;
      var rawPos: int := position;
      position := Wrap(position + 1);
      var wrappedPos := Wrap(rawPos + 1) % MODULUS;
      var valueLen := if |value| < MAX_VALUE then |value| else MAX_VALUE;
      var entry := Entry(addr, value[..valueLen], Wrap(now), wrappedPos);

      WrapSucc(|log|);
      log := log + [TelegramLog.Push(addr, value, now)];
      assert log[..|log| - 1] == old(log);
      assert entry == SharedEntry(log, |log|);
      Record(entry, old(log), log);

      generation := Wrap(generation + 1);
    }

    static lemma LookupIsFromShared(log: Log, a: Address, maxAge: int, now: int)
      ensures var r := Lookup(ServedView(log), a, maxAge, now);
              && (a in SharedView(log) && Dated(log, a, now) ==>
                    r == if Young(Latest(log, a), maxAge, now) then Some(Cut(Latest(log, a).value)) else None)
              && (a != 0 && a !in SharedView(log) ==> r == None)
    {
      assert 0 !in SharedView(log);
      hide SharedView, ServedView, Dated, Young, Fresh, Latest, LastPush;
      ServedIsShared(log);
      if Dated(log, a, now) {
        LookupIsLastValue(log, a, maxAge, now);
      }
    }

    /** The value served for an address, if there is one and it is fresh. */
    method Get(addr: Address, maxAge: int, now: int) returns (r: Option<seq<Byte>>)
      requires Valid()
      ensures r == Lookup(ServedView(log), addr, maxAge, now)
      ensures addr in SharedView(log) && Dated(log, addr, now) ==>
                r == if Young(Latest(log, addr), maxAge, now) then Some(Cut(Latest(log, addr).value)) else None
      ensures addr != 0 && addr !in SharedView(log) ==> r == None
    {
      hide ServedView, TableAfter, Slot, Wrap, SharedView, Dated, Young, Latest;
      LookupIsFromShared(log, addr, maxAge, now);
      SearchServes(log, addr);
      r := None;
      var slot := FindSlot(addr);
      if slot < CAPACITY && entries[slot].addr == addr {
        var e := entries[slot];
        if maxAge >= 0 {
          if Wrap(Wrap(now) - e.timestamp) < maxAge {
            r := Some(e.value);
          }
        } else {
          r := Some(e.value);
        }
      }
    }

    /** The part of the `get_delta` loop that looks at one address. */
    method DeltaEntry(addr: Address, since: Word32, current: Word32, epochDistance: Word32,
                      epochMismatch: bool, maxAge: int, now: int) returns (r: Option<seq<Byte>>)
      requires Valid()
      requires epochDistance == Distance(current, since)
      requires epochMismatch <==> since != 0 && epochDistance >= HALF
      ensures r == if Selected(ServedView(log), current, since, addr, maxAge, now)
                   then Some(ServedView(log)[addr].value) else None
    {
      hide ServedView, TableAfter, Slot, Distance, Wrap, SharedView;
      SearchServes(log, addr);
      r := None;
      var slot := FindSlot(addr);
      if slot >= CAPACITY {
        return;
      }
      var e := entries[slot];
      if e.addr != addr {
        return;
      }
      if maxAge >= 0 && Wrap(Wrap(now) as int - e.timestamp) >= maxAge {
        return;
      }
      if epochMismatch {
        r := Some(e.value);
      } else {
        var entryDist := Distance(e.pushedAt, since);
        if entryDist > epochDistance {
          return;
        }
        if since != 0 && entryDist == 0 {
          return;
        }
        r := Some(e.value);
      }
    }

    /** The entries newer than `since` for the subscribed addresses, and the position. */
    method GetDelta(since: Word32, subscribed: set<Address>, maxAge: int, now: int)
      returns (values: map<Address, seq<Byte>>, current: Word32)
      requires Valid()
      ensures current == Position(position)
      ensures values == DeltaValues(ServedView(log), current, since, subscribed, maxAge, now)
      ensures forall a | a in SharedView(log) && Dated(log, a, now) ::
                a in values <==> && a in subscribed && Young(Latest(log, a), maxAge, now)
                                 && Delivered(since, current, Position(Wrap(LastPush(log, a))))
      ensures forall a | a in values && a != 0 :: a in SharedView(log) && values[a] == SharedView(log)[a].value
    {
      hide TableAfter, ServedView, SharedView, ZeroPushes, DeltaValues, Selected, Distance, Wrap;
      current := position % MODULUS;
      var epochDistance := Distance(current, since);
      var epochMismatch := since != 0 && epochDistance >= HALF;
      ghost var view := ServedView(log);
      values := map[];
      var rest := subscribed;
      DeltaOfNothing(view, current, since, maxAge, now);
      assert subscribed - rest == {};
      while rest != {}
        invariant rest <= subscribed
        invariant values == DeltaValues(view, current, since, subscribed - rest, maxAge, now)
        decreases rest
      {
        var addr :| addr in rest;
        DeltaStep(view, current, since, subscribed - rest, addr, maxAge, now);
        assert subscribed - (rest - {addr}) == subscribed - rest + {addr};
        rest := rest - {addr};
        var value := DeltaEntry(addr, since, current, epochDistance, epochMismatch, maxAge, now);
        if value.Some? {
          values := values[addr := value.value];
        }
      }
      assert subscribed - rest == subscribed;
      DeltaIsFromShared(log, current, since, subscribed, maxAge, now);
    }

    static lemma DeltaIsFromShared(log: Log, current: Word32, since: Word32, subscribed: set<Address>, maxAge: int,
                                   now: int)
      ensures var values := DeltaValues(ServedView(log), current, since, subscribed, maxAge, now);
              && (forall a | a in SharedView(log) && Dated(log, a, now) ::
                    a in values <==> && a in subscribed && Young(Latest(log, a), maxAge, now)
                                     && Delivered(since, current, Position(Wrap(LastPush(log, a)))))
              && (forall a | a in values && a != 0 :: a in SharedView(log) && values[a] == SharedView(log)[a].value)
    {
      assert 0 !in SharedView(log);
      hide SharedView, ServedView, Dated, Young, Delivered, Fresh, LastPush, Position, Wrap, Latest;
      ServedIsShared(log);
      var values := DeltaValues(ServedView(log), current, since, subscribed, maxAge, now);
      forall a | a in SharedView(log) && Dated(log, a, now)
        ensures a in values <==> && a in subscribed && Young(Latest(log, a), maxAge, now)
                                 && Delivered(since, current, Position(Wrap(LastPush(log, a))))
      {
        DeltaIsYoungAndNew(log, current, since, subscribed, a, maxAge, now);
      }
    }
  }
}
