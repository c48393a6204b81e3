/** What `get` and `get_delta` answer, as functions of the stored entries, and when the two
    caches give the same answers. */
module CacheQueries {
  import opened Basics
  import opened Positions
  import opened TelegramLog

  /** The age filter; a negative limit switches it off. Ages are unsigned 32-bit. */
  predicate Fresh(e: Entry, maxAge: int, now: int) {
    maxAge < 0 || Wrap(Wrap(now) - e.timestamp) < maxAge
  }

  function Lookup(view: View, a: Address, maxAge: int, now: int): Option<seq<Byte>> {
    if a in view && Fresh(view[a], maxAge, now) then Some(view[a].value) else None
  }

  /** The age of a push in true seconds is below the limit, if there is one. */
  predicate Young(p: Push, maxAge: int, now: int) {
    maxAge < 0 || now - p.time < maxAge
  }

  /** The clock has not gone back, nor on by 2^32 seconds, since a push. */
  predicate Clocked(p: Push, now: int) {
    p.time <= now < p.time + 0x1_0000_0000
  }

  /** The address has been pushed, and the clock has been right since. */
  predicate Dated(log: Log, a: Address, now: int): (dated: bool)
    ensures dated ==> LastPush(log, a) > 0
  {
    LastPush(log, a) > 0 && Clocked(log[LastPush(log, a) - 1], now)
  }

  function Latest(log: Log, a: Address): Push
    requires LastPush(log, a) > 0
  {
    log[LastPush(log, a) - 1]
  }

  /** Ages modulo 2^32 decide as true ages do. */
  lemma FreshIsYoung(e: Entry, p: Push, maxAge: int, now: int)
    requires e.timestamp == Wrap(p.time) && Clocked(p, now)
    ensures Fresh(e, maxAge, now) <==> Young(p, maxAge, now)
  {
    var d := now - p.time;
    var q, x := p.time / 0x1_0000_0000, Wrap(p.time);
    assert now == q * 0x1_0000_0000 + x + d;
    if x + d >= 0x1_0000_0000 {
      assert now == (q + 1) * 0x1_0000_0000 + (x + d - 0x1_0000_0000);
    }
  }

  /** What a stored address is answered with: its last value, if it is young enough. */
  lemma LookupIsLastValue(log: Log, a: Address, maxAge: int, now: int)
    requires Dated(log, a, now)
    ensures var p := Latest(log, a);
            && (a in SharedView(log) ==>
                  Lookup(SharedView(log), a, maxAge, now) == if Young(p, maxAge, now) then Some(Cut(p.value)) else None)
            && Lookup(GroupView(log), a, maxAge, now) == if Young(p, maxAge, now) then Some(p.value) else None
  {
    hide SharedView, GroupView, Fresh, Young, Position, LastPush;
    var p := log[LastPush(log, a) - 1];
    GroupViewIsLastValue(log);
    FreshIsYoung(GroupView(log)[a], p, maxAge, now);
    if a in SharedView(log) {
      SharedViewValue(log, a);
      FreshIsYoung(SharedView(log)[a], p, maxAge, now);
    }
  }

  /** Which stored address is in a delta: one whose last push is young enough and new. */
  lemma DeltaIsYoungAndNew(log: Log, position: Word32, since: Word32, subscribed: set<Address>, a: Address,
                           maxAge: int, now: int)
    requires Dated(log, a, now)
    ensures var wanted := && a in subscribed && Young(Latest(log, a), maxAge, now)
                          && Delivered(since, position, Position(Wrap(LastPush(log, a))));
            && (a in SharedView(log) ==>
                  (a in DeltaValues(SharedView(log), position, since, subscribed, maxAge, now) <==> wanted))
            && (a in DeltaValues(GroupView(log), position, since, subscribed, maxAge, now) <==> wanted)
  {
    hide SharedView, GroupView, Fresh, Young, Position, LastPush, Delivered;
    var p := log[LastPush(log, a) - 1];
    GroupViewIsLastValue(log);
    FreshIsYoung(GroupView(log)[a], p, maxAge, now);
    if a in SharedView(log) {
      SharedViewValue(log, a);
      FreshIsYoung(SharedView(log)[a], p, maxAge, now);
    }
  }

  /** Whether the loop of `get_delta` adds an address to its result: stored, fresh, and newer
      than the index. */
  predicate Selected(view: View, position: Word32, since: Word32, a: Address, maxAge: int, now: int) {
    a in view && Fresh(view[a], maxAge, now) && Delivered(since, position, view[a].pushedAt)
  }

  /** The entries of a delta. */
  function DeltaValues(view: View, position: Word32, since: Word32, subscribed: set<Address>,
                       maxAge: int, now: int): map<Address, seq<Byte>>
  {
    map a | a in subscribed && Selected(view, position, since, a, maxAge, now) :: view[a].value
  }

  lemma DeltaStep(view: View, position: Word32, since: Word32, done: set<Address>, a: Address,
                  maxAge: int, now: int)
    ensures DeltaValues(view, position, since, done + {a}, maxAge, now) ==
            var values := DeltaValues(view, position, since, done, maxAge, now);
            if Selected(view, position, since, a, maxAge, now) then values[a := view[a].value] else values
    ensures Selected(view, position, since, a, maxAge, now) ==> a in view
  {}

  lemma DeltaOfNothing(view: View, position: Word32, since: Word32, maxAge: int, now: int)
    ensures DeltaValues(view, position, since, {}, maxAge, now) == map[]
  {}

  /** Whether the shared cache can represent a history without loss. */
  ghost predicate Fits(log: Log) {
    && (forall i | 0 <= i < |log| :: log[i].addr != 0)
    && |Arrivals(log)| <= CAPACITY
    && forall a: Address | LastPush(log, a) > 0 :: |log[LastPush(log, a) - 1].value| <= MAX_VALUE
  }

  /** The two caches hold the same entries exactly for histories that fit: no address 0, at
      most CAPACITY distinct addresses, and last values of at most MAX_VALUE bytes. */
  lemma CachesAgreeExactlyWhenItFits(log: Log)
    ensures SharedView(log) == GroupView(log) <==> Fits(log)
  {
    if Fits(log) {
      FitsImpliesAgree(log);
    }
    if SharedView(log) == GroupView(log) {
      AgreeImpliesFits(log);
    }
  }

  lemma FitsImpliesAgree(log: Log)
    requires Fits(log)
    ensures SharedView(log) == GroupView(log)
  {
    hide Fits, SharedView, GroupView;
    forall a: Address
      ensures a in SharedView(log) <==> a in GroupView(log)
      ensures a in SharedView(log) ==> SharedView(log)[a] == GroupView(log)[a]
    {
      FitsImpliesAgreeAt(log, a);
    }
  }

  lemma FitsImpliesAgreeAt(log: Log, a: Address)
    requires Fits(log)
    ensures a in SharedView(log) <==> a in GroupView(log)
    ensures a in SharedView(log) ==> SharedView(log)[a] == GroupView(log)[a]
  {
    hide SharedView, GroupView, LastPush, Arrivals, Position, Wrap;
    SharedViewIsLastValueOfAdmitted(log);
    GroupViewIsLastValue(log);
    var r := LastPush(log, a);
    if r > 0 {
      assert log[r - 1].addr == a;
      assert SharedEntry(log, r) == GroupEntry(log, r);
    }
  }

  lemma OverflowSeparates(log: Log)
    requires |Arrivals(log)| > CAPACITY
    ensures SharedView(log) != GroupView(log)
  {
    hide SharedView, GroupView;
    SharedViewIsLastValueOfAdmitted(log);
    GroupViewIsLastValue(log);
    var a := Arrivals(log)[CAPACITY];
    assert a in Arrivals(log) && a in GroupView(log);
    assert a !in Admitted(log);
  }

  lemma AgreeAt(log: Log, a: Address)
    requires SharedView(log) == GroupView(log) && LastPush(log, a) > 0
    ensures a != 0 && |log[LastPush(log, a) - 1].value| <= MAX_VALUE
  {
    assert 0 !in SharedView(log);
    hide SharedView, GroupView, Arrivals;
    GroupViewIsLastValue(log);
    assert a in SharedView(log);
    SharedViewValue(log, a);
    assert SharedEntry(log, LastPush(log, a)).value == log[LastPush(log, a) - 1].value;
  }

  lemma AgreeImpliesFits(log: Log)
    requires SharedView(log) == GroupView(log)
    ensures Fits(log)
  {
    hide SharedView, GroupView, Arrivals;
    forall i | 0 <= i < |log| ensures log[i].addr != 0 {
      AgreeAt(log, log[i].addr);
    }
    if |Arrivals(log)| > CAPACITY {
      OverflowSeparates(log);
    }
    forall a: Address | LastPush(log, a) > 0
      ensures |log[LastPush(log, a) - 1].value| <= MAX_VALUE
    {
      AgreeAt(log, a);
    }
  }

  /** Stored addresses are never forgotten, and only a push to an address changes its entry. */
  lemma {:induction false} EntriesPersist(log: Log, m: nat, a: Address)
    requires m <= |log|
    requires a in SharedView(log[..m])
    ensures a in SharedView(log)
    ensures LastPush(log, a) <= m ==> SharedView(log)[a] == SharedView(log[..m])[a]
  {
    if m < |log| {
      var short := log[..|log| - 1];
      assert short[..m] == log[..m];
      EntriesPersist(short, m, a);
    } else {
      assert log[..m] == log;
    }
  }
}
