/** Sessions: bounded in number, expiring, the oldest evicted first. Times are readings of a
    clock that never runs backwards, in nanoseconds. */
module SessionStore {
  import opened Basics

  const SECOND := 1_000_000_000
  const ANONYMOUS := "0"

  predicate Expired(created: int, now: int, ttlSec: int) {
    (now - created) / SECOND >= ttlSec
  }

  /** A session expires exactly when its age reaches the limit. */
  lemma ExpiredExactlyWhen(created: int, now: int, ttlSec: int)
    ensures Expired(created, now, ttlSec) <==> now - created >= ttlSec * SECOND
  {}

  /** A session that is older, or as old, as every other one. */
  ghost predicate Oldest(sessions: map<string, int>, id: string) {
    id in sessions && forall k | k in sessions :: sessions[id] <= sessions[k]
  }

  function Unexpired(sessions: map<string, int>, now: int, ttlSec: int): (rest: map<string, int>)
    ensures forall k | k in rest :: k in sessions && rest[k] == sessions[k]
  {
    map k | k in sessions && !Expired(sessions[k], now, ttlSec) :: sessions[k]
  }

  /** Nothing is evicted below the limit; at the limit exactly one oldest session goes. */
  ghost predicate Roomy(before: map<string, int>, after: map<string, int>, maxSessions: nat) {
    if before == map[] || |before| < maxSessions then after == before
    else exists o :: Oldest(before, o) && after == before - {o}
  }

  class SessionStore {
    var sessions: map<string, int>   // id to creation time
    const ttlSec: int
    const maxSessions: nat
    ghost var clock: int             // the latest reading so far
    ghost var evicted: set<int>      // creation times of the sessions evicted for space

    /** The store stays within its limit, and whatever was evicted for space was created no
        later than everything that is still there. */
    ghost predicate Valid()
      reads this
    {
      && |sessions| <= (if maxSessions > 1 then maxSessions else 1)
      && (forall k | k in sessions :: sessions[k] <= clock)
      && (forall e | e in evicted :: e <= clock)
      && (forall e, k | e in evicted && k in sessions :: e <= sessions[k])
      && ANONYMOUS !in sessions
    }

    constructor (ttlSec: int, maxSessions: nat, ghost now: int)
      ensures Valid() && sessions == map[] && evicted == {} && clock == now
      ensures this.ttlSec == ttlSec && this.maxSessions == maxSessions
    {
      this.ttlSec, this.maxSessions := ttlSec, maxSessions;
      sessions, clock, evicted := map[], now, {};
    }

    method CleanupExpired(now: int)
      modifies this`sessions
      ensures sessions == Unexpired(old(sessions), now, ttlSec)
      ensures forall k | k in old(sessions) :: k in sessions <==> now - old(sessions)[k] < ttlSec * SECOND
    {
      ghost var before := sessions;
      var rest := sessions.Keys;
      while rest != {}
        invariant rest <= before.Keys
        invariant sessions == map k | k in before && (k in rest || !Expired(before[k], now, ttlSec)) :: before[k]
        decreases rest
      {
        var k :| k in rest;
        rest := rest - {k};
        if Expired(sessions[k], now, ttlSec) {
          sessions := sessions - {k};
        }
      }
    }

    method FindOldest() returns (oldest: string)
      requires sessions != map[]
      ensures Oldest(sessions, oldest)
    {
      assert |sessions.Keys| > 0;
      oldest :| oldest in sessions.Keys;
      var rest := sessions.Keys;
      while rest != {}
        invariant rest <= sessions.Keys && oldest in sessions
        invariant forall k | k in sessions && k !in rest :: sessions[oldest] <= sessions[k]
        decreases rest
      {
        var k :| k in rest;
        rest := rest - {k};
        if sessions[k] < sessions[oldest] {
          oldest := k;
        }
      }
    }

    /** `id` is what the generator produces; it is never the anonymous id. `cleanupNow` and
        `now` are the two readings of the clock. */
    method CreateSession(anonymous: bool, id: string, cleanupNow: int, now: int) returns (result: string)
      requires Valid() && clock <= cleanupNow <= now && id != ANONYMOUS
      modifies this
      ensures Valid()
      ensures anonymous ==> result == ANONYMOUS && sessions == old(sessions) && evicted == old(evicted) && clock == old(clock)
      ensures !anonymous ==> result == id && id in sessions && sessions[id] == now && clock == now
      ensures !anonymous ==>
                exists room :: Roomy(Unexpired(old(sessions), cleanupNow, ttlSec), room, maxSessions)
                               && sessions == room[id := now]
      ensures forall k | k in Unexpired(old(sessions), cleanupNow, ttlSec) && k !in sessions ::
                old(sessions)[k] in evicted
      ensures old(evicted) <= evicted
    {
      hide Unexpired, Roomy;
      if anonymous {
        return ANONYMOUS;
      }
      CleanUp(cleanupNow);
      Grow(sessions, id, now);
      sessions := sessions[id := now];
      clock := now;
      result := id;
    }

    /** Forgets the expired sessions and makes room for one more. */
    method CleanUp(now: int)
      requires Valid()
      modifies this`sessions, this`evicted
      ensures Valid() && |sessions| < if maxSessions > 1 then maxSessions else 1
      ensures Roomy(Unexpired(old(sessions), now, ttlSec), sessions, maxSessions)
      ensures forall k | k in Unexpired(old(sessions), now, ttlSec) && k !in sessions :: old(sessions)[k] in evicted
      ensures old(evicted) <= evicted
    {
      hide Expired, Roomy;
      CleanupExpired(now);
      Fewer(old(sessions), sessions);
      MakeRoom();
    }

    /** Evicts the oldest session when the limit is reached. */
    method MakeRoom()
      requires Valid()
      modifies this`sessions, this`evicted
      ensures Valid() && |sessions| < if maxSessions > 1 then maxSessions else 1
      ensures Roomy(old(sessions), sessions, maxSessions)
      ensures forall k | k in sessions :: k in old(sessions) && sessions[k] == old(sessions)[k]
      ensures forall k | k in old(sessions) && k !in sessions :: old(sessions)[k] in evicted
      ensures old(evicted) <= evicted
    {
      if sessions != map[] && |sessions| >= maxSessions {
        var oldest := FindOldest();
        evicted := evicted + {sessions[oldest]};
        assert (sessions - {oldest}).Keys == sessions.Keys - {oldest};
        sessions := sessions - {oldest};
      }
    }

    static lemma Grow(sessions: map<string, int>, id: string, now: int)
      ensures |sessions[id := now]| <= |sessions| + 1
    {
      assert sessions[id := now].Keys == sessions.Keys + {id};
    }

    static lemma Fewer(all: map<string, int>, some: map<string, int>)
      requires forall k | k in some :: k in all
      ensures |some| <= |all|
    {
      assert some.Keys <= all.Keys;
      SubsetSize(some.Keys, all.Keys);
    }

    /** A session is valid when it is anonymous, or known and not expired; an expired one is
        forgotten. */
    method IsValid(id: string, now: int) returns (valid: bool)
      requires Valid() && clock <= now
      modifies this
      ensures Valid() && clock == now && evicted == old(evicted)
      ensures valid <==> id == ANONYMOUS || (id in old(sessions) && now - old(sessions)[id] < ttlSec * SECOND)
      ensures sessions == if valid then old(sessions) else old(sessions) - {id}
    {
      clock := now;
      if id == ANONYMOUS {
        return true;
      }
      if id !in sessions {
        assert sessions - {id} == sessions;
        return false;
      }
      if Expired(sessions[id], now, ttlSec) {
        Fewer(sessions, sessions - {id});
        sessions := sessions - {id};
        return false;
      }
      return true;
    }

    method Remove(id: string)
      requires Valid()
      modifies this`sessions
      ensures Valid()
      ensures sessions == old(sessions) - {id}
    {
      if id == ANONYMOUS {
        assert sessions - {id} == sessions;
        return;
      }
      Fewer(sessions, sessions - {id});
      sessions := sessions - {id};
    }
  }
}
