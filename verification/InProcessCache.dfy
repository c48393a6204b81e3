/** The in-process cache: the same contract as the shared table over an ordinary map. */
module InProcessCache {
  import opened Basics
  import opened Positions
  import opened TelegramLog
  import opened CacheQueries
  import opened ProbeTable
  import SharedCache

  class GroupCache {
    var entries: View
    var position: Word32
    ghost var log: Log

    ghost predicate Valid()
      reads this
    {
      && entries == GroupView(log)
      && position == Wrap(|log|)
    }

    constructor ()
      ensures Valid() && log == []
    {
      entries, position, log := map[], 0, [];
    }

    method Push(addr: Address, value: seq<Byte>, now: int)
      requires Valid()
      modifies this
      ensures Valid()
      ensures log == old(log) + [TelegramLog.Push(addr, value, now)]
    {
      var rawPos: int := position;
      position := Wrap(position + 1);
      var wrappedPos := Wrap(rawPos + 1) % MODULUS;
      entries := entries[addr := Entry(addr, value, Wrap(now), wrappedPos)];

      WrapSucc(|log|);
      log := log + [TelegramLog.Push(addr, value, now)];
      assert log[..|log| - 1] == old(log);
    }

    method Get(addr: Address, maxAge: int, now: int) returns (r: Option<seq<Byte>>)
      requires Valid()
      ensures r == Lookup(GroupView(log), addr, maxAge, now)
      ensures Dated(log, addr, now) ==>
                r == if Young(Latest(log, addr), maxAge, now) then Some(Latest(log, addr).value) else None
      ensures LastPush(log, addr) == 0 ==> r == None
    {
      hide GroupView, Dated, Young, Latest, LastPush, Wrap;
      if Dated(log, addr, now) {
        LookupIsLastValue(log, addr, maxAge, now);
      }
      GroupViewIsLastValue(log);
      if addr !in entries {
        return None;
      }
      if maxAge >= 0 {
        if Wrap(Wrap(now) as int - entries[addr].timestamp) >= maxAge {
          return None;
        }
      }
      return Some(entries[addr].value);
    }

    method GetDelta(since: Word32, subscribed: set<Address>, maxAge: int, now: int)
      returns (values: map<Address, seq<Byte>>, current: Word32)
      requires Valid()
      ensures current == Position(position)
      ensures values == DeltaValues(GroupView(log), current, since, subscribed, maxAge, now)
      ensures forall a: Address | Dated(log, a, now) ::
                a in values <==> && a in subscribed && Young(Latest(log, a), maxAge, now)
                                 && Delivered(since, current, Position(Wrap(LastPush(log, a))))
    {
      hide Distance, GroupView, Dated, Young, Latest, LastPush;
      forall a: Address | Dated(log, a, now)
        ensures a in DeltaValues(GroupView(log), Position(position), since, subscribed, maxAge, now) <==>
                && a in subscribed && Young(Latest(log, a), maxAge, now)
                && Delivered(since, Position(position), Position(Wrap(LastPush(log, a))))
      {
        DeltaIsYoungAndNew(log, Position(position), since, subscribed, a, maxAge, now);
      }
      current := position % MODULUS;
      var epochDistance := Distance(current, since);
      var epochMismatch := since != 0 && epochDistance >= HALF;
      values := map[];
      var rest := subscribed;
      while rest != {}
        invariant rest <= subscribed
        invariant values == DeltaValues(entries, current, since, subscribed - rest, maxAge, now)
        decreases rest
      {
        var addr :| addr in rest;
        DeltaStep(entries, current, since, subscribed - rest, addr, maxAge, now);
        assert subscribed - (rest - {addr}) == subscribed - rest + {addr};
        rest := rest - {addr};
        if addr !in entries {
          continue;
        }
        var e := entries[addr];
        if maxAge >= 0 && Wrap(Wrap(now) as int - e.timestamp) >= maxAge {
          continue;
        }
        if epochMismatch {
          values := values[addr := e.value];
        } else {
          var entryDist := Distance(e.pushedAt, since);
          if entryDist > epochDistance {
            continue;
          }
          if since != 0 && entryDist == 0 {
            continue;
          }
          values := values[addr := e.value];
        }
      }
      assert subscribed - rest == subscribed;
    }

    method Clear()
      modifies this
      ensures Valid() && log == []
    {
      entries, position, log := map[], 0, [];
    }
  }

  /** Runs the same queries on both caches after the same history that fits. They answer
      alike, except that a vacant slot answers for address 0 as if it held an empty value
      pushed at time 0 and position 0: the answers agree exactly when the query does not ask
      for address 0, the table is full, or the filters reject that entry. */
  method SameAnswers(shared: SharedCache.SharedGroupCache, plain: GroupCache, addr: Address,
                     since: Word32, subscribed: set<Address>, maxAge: int, now: int)
    returns (got: (Option<seq<Byte>>, Option<seq<Byte>>),
             deltas: (map<Address, seq<Byte>>, map<Address, seq<Byte>>),
             positions: (Word32, Word32))
    requires shared.Valid() && plain.Valid() && shared.log == plain.log && Fits(shared.log)
    ensures positions.0 == positions.1
    ensures got.0 == got.1 <==>
            addr != 0 || |SharedView(shared.log)| == CAPACITY || !Fresh(EMPTY, maxAge, now)
    ensures deltas.0 == deltas.1 <==>
            || 0 !in subscribed
            || |SharedView(shared.log)| == CAPACITY
            || !Fresh(EMPTY, maxAge, now)
            || !Delivered(since, positions.0, EMPTY.pushedAt)
    ensures deltas.0 - {0} == deltas.1
  {
    hide SharedView, GroupView, DeltaValues, Lookup, Fits, Wrap, ServedView, Delivered;
    ghost var log := shared.log;
    var a := shared.Get(addr, maxAge, now);
    var b := plain.Get(addr, maxAge, now);
    SameGet(log, addr, maxAge, now);
    var d, p := shared.GetDelta(since, subscribed, maxAge, now);
    var e, q := plain.GetDelta(since, subscribed, maxAge, now);
    SameDelta(log, p, since, subscribed, maxAge, now);
    got, deltas, positions := (a, b), (d, e), (p, q);
  }

  /** The served map is the plain map and, while a slot is vacant, an empty entry for 0. */
  lemma ServedIsPlain(log: Log)
    requires Fits(log)
    ensures 0 !in GroupView(log)
    ensures ServedView(log) == if |SharedView(log)| == CAPACITY then GroupView(log) else GroupView(log)[0 := EMPTY]
  {
    assert 0 !in SharedView(log) && |SharedView(log)| <= CAPACITY;
    hide SharedView, GroupView, ServedView;
    CachesAgreeExactlyWhenItFits(log);
    ServedIsShared(log);
    ZeroServesEmpty(log);
  }

  lemma SameGet(log: Log, addr: Address, maxAge: int, now: int)
    requires Fits(log)
    ensures Lookup(ServedView(log), addr, maxAge, now) == Lookup(GroupView(log), addr, maxAge, now) <==>
            addr != 0 || |SharedView(log)| == CAPACITY || !Fresh(EMPTY, maxAge, now)
  {
    hide SharedView, GroupView, ServedView, Fits, Wrap;
    ServedIsPlain(log);
  }

  lemma SameDelta(log: Log, position: Word32, since: Word32, subscribed: set<Address>, maxAge: int, now: int)
    requires Fits(log)
    ensures var served := DeltaValues(ServedView(log), position, since, subscribed, maxAge, now);
            var plain := DeltaValues(GroupView(log), position, since, subscribed, maxAge, now);
            && served - {0} == plain
            && (served == plain <==>
                || 0 !in subscribed
                || |SharedView(log)| == CAPACITY
                || !Fresh(EMPTY, maxAge, now)
                || !Delivered(since, position, EMPTY.pushedAt))
  {
    hide SharedView, GroupView, ServedView, Fits, Wrap, Delivered;
    ServedIsPlain(log);
    var served := DeltaValues(ServedView(log), position, since, subscribed, maxAge, now);
    var plain := DeltaValues(GroupView(log), position, since, subscribed, maxAge, now);
    assert 0 !in plain;
    assert served - {0} == plain;
  }
}
