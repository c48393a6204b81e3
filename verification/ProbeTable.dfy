/** The open-addressing table: linear probing from `addr % CAPACITY`, address 0 marking a
    vacant slot, no deletion. The table represents a bounded map. */
module ProbeTable {
  import opened Basics
  import opened TelegramLog

  type Table = t: seq<Entry> | |t| == CAPACITY witness seq(CAPACITY, _ => EMPTY)

  /** What every slot holds in the beginning. */
  const EMPTY := Entry(0, [], 0, 0)

  /** The slot of the k-th probe for an address. */
  function Probe(a: Address, k: nat): (slot: nat)
    ensures slot < CAPACITY
  {
    (a % CAPACITY + k) % CAPACITY
  }

  /** The number of probes before the search for `a` stops; CAPACITY when it finds neither
      `a` nor a vacant slot. */
  function Probes(t: Table, a: Address, k: nat): (r: nat)
    requires k <= CAPACITY
    ensures k <= r <= CAPACITY
    ensures forall j | k <= j < r :: t[Probe(a, j)].addr != a && t[Probe(a, j)].addr != 0
    ensures r < CAPACITY ==> t[Probe(a, r)].addr == a || t[Probe(a, r)].addr == 0
    decreases CAPACITY - k
  {
    if k == CAPACITY || t[Probe(a, k)].addr == a || t[Probe(a, k)].addr == 0 then k
    else Probes(t, a, k + 1)
  }

  lemma ProbesStep(t: Table, a: Address, k: nat)
    requires k <= CAPACITY
    ensures Probes(t, a, k) ==
            if k == CAPACITY || t[Probe(a, k)].addr == a || t[Probe(a, k)].addr == 0 then k else Probes(t, a, k + 1)
  {}

  function Slot(t: Table, a: Address): (slot: nat)
    ensures slot <= CAPACITY
  {
    var k := Probes(t, a, 0);
    if k < CAPACITY then Probe(a, k) else CAPACITY
  }

  function SlotsBelow(n: nat): (s: set<nat>)
    ensures |s| == n
    ensures forall i: nat :: i in s <==> i < n
  {
    if n == 0 then {} else SlotsBelow(n - 1) + {n - 1}
  }

  function Occupied(t: Table): set<nat> {
    set i: nat | i < CAPACITY && t[i].addr != 0
  }

  /** Two slots never hold the same address. */
  ghost predicate Unique(t: Table) {
    forall i, j | 0 <= i < j < CAPACITY && t[i].addr != 0 :: t[i].addr != t[j].addr
  }

  /** No vacant slot lies between the home slot of an address and the slot that holds it. */
  ghost predicate Chained(t: Table) {
    forall a: Address, j, k | a != 0 && 0 <= j < k < CAPACITY && t[Probe(a, k)].addr == a ::
      t[Probe(a, j)].addr != 0
  }

  /** The occupied slots hold exactly the entries of `view`. */
  ghost predicate Holds(t: Table, view: View) {
    && (forall i | 0 <= i < CAPACITY && t[i].addr != 0 :: t[i].addr in view && view[t[i].addr] == t[i])
    && (forall a | a in view :: a != 0 && exists i :: 0 <= i < CAPACITY && t[i].addr == a)
  }

  ghost predicate Represents(t: Table, view: View) {
    && Unique(t)
    && Chained(t)
    && Holds(t, view)
    && |Occupied(t)| == |view|
  }

  lemma ProbesReachEverySlot(a: Address, slot: nat) returns (k: nat)
    requires slot < CAPACITY
    ensures k < CAPACITY && Probe(a, k) == slot
  {
    var home := a % CAPACITY;
    k := if slot >= home then slot - home else slot - home + CAPACITY;
  }

  lemma ProbesAreDistinct(a: Address, j: nat, k: nat)
    requires j < k < CAPACITY
    ensures Probe(a, j) != Probe(a, k)
  {}

  lemma VacancyCount(t: Table)
    ensures |Occupied(t)| <= CAPACITY
    ensures |Occupied(t)| == CAPACITY <==> forall i | 0 <= i < CAPACITY :: t[i].addr != 0
  {
    var all := SlotsBelow(CAPACITY);
    SubsetSize(Occupied(t), all);
    if |Occupied(t)| == CAPACITY {
      forall i: nat | i < CAPACITY ensures t[i].addr != 0 {
        assert i in all;
      }
    }
    if forall i | 0 <= i < CAPACITY :: t[i].addr != 0 {
      assert Occupied(t) == all;
    }
  }

  /** The search finds a stored address. */
  lemma FindsStored(t: Table, view: View, a: Address)
    requires Represents(t, view) && a in view
    ensures Slot(t, a) < CAPACITY && t[Slot(t, a)] == view[a]
  {
    var i :| 0 <= i < CAPACITY && t[i].addr == a;
    var k := ProbesReachEverySlot(a, i);
    assert t[Probe(a, k)].addr == a;
    var r := Probes(t, a, 0);
    assert r <= k;
    assert r < k ==> t[Probe(a, r)].addr != 0;
  }

  /** The search for an absent address ends in a vacant slot, or fails when the table is full. */
  lemma MissesAbsent(t: Table, view: View, a: Address)
    requires Represents(t, view) && a !in view
    ensures Slot(t, a) < CAPACITY <==> |view| < CAPACITY
    ensures Slot(t, a) < CAPACITY ==> t[Slot(t, a)].addr == 0
  {
    hide Chained, Unique, Occupied;
    VacancyCount(t);
    var r := Probes(t, a, 0);
    if r < CAPACITY {
      assert t[Probe(a, r)].addr == 0;
    } else {
      forall i | 0 <= i < CAPACITY ensures t[i].addr != 0 {
        var k := ProbesReachEverySlot(a, i);
      }
    }
  }

  /** A write that leaves the address of its slot alone leaves the structure alone. */
  lemma SameAddressesKeep(t: Table, t': Table)
    requires Unique(t) && Chained(t) && forall i | 0 <= i < CAPACITY :: t'[i].addr == t[i].addr
    ensures Unique(t') && Chained(t') && Occupied(t') == Occupied(t)
  {}

  lemma OverwriteHolds(t: Table, view: View, e: Entry, s: nat)
    requires Holds(t, view) && Unique(t) && s < CAPACITY && t[s].addr == e.addr && e.addr in view
    ensures Holds(t[s := e], view[e.addr := e])
  {
    var t': Table, view' := t[s := e], view[e.addr := e];
    forall i | 0 <= i < CAPACITY && t'[i].addr != 0 ensures t'[i].addr in view' && view'[t'[i].addr] == t'[i] {
      if i != s {
        assert t[i].addr != t[s].addr;
      }
    }
    forall a | a in view' ensures a != 0 && exists i :: 0 <= i < CAPACITY && t'[i].addr == a {
      var i :| 0 <= i < CAPACITY && t[i].addr == a;
      assert t'[i].addr == a;
    }
  }

  /** Writing over the slot of a stored address keeps the table. */
  lemma OverwriteKeeps(t: Table, view: View, e: Entry)
    requires Represents(t, view) && e.addr in view
    ensures Slot(t, e.addr) < CAPACITY
    ensures Represents(t[Slot(t, e.addr) := e], view[e.addr := e])
  {
    FindsStored(t, view, e.addr);
    StoredAddress(t, view, e.addr);
    hide Unique, Chained, Holds, Slot, Occupied;
    var s := Slot(t, e.addr);
    SameAddressesKeep(t, t[s := e]);
    OverwriteHolds(t, view, e, s);
    assert view[e.addr := e].Keys == view.Keys;
  }

  lemma StoredAddress(t: Table, view: View, a: Address)
    requires Holds(t, view) && a in view
    ensures view[a].addr == a
  {
    var i :| 0 <= i < CAPACITY && t[i].addr == a;
  }

  /** Writing an absent address into the slot the search ends in keeps the table. */
  lemma InsertKeeps(t: Table, view: View, e: Entry)
    requires Represents(t, view) && e.addr != 0 && e.addr !in view && |view| < CAPACITY
    ensures Slot(t, e.addr) < CAPACITY
    ensures Represents(t[Slot(t, e.addr) := e], view[e.addr := e])
  {
    MissesAbsent(t, view, e.addr);
    var s := Slot(t, e.addr);
    var t': Table, view' := t[s := e], view[e.addr := e];
    assert Occupied(t') == Occupied(t) + {s};
    InsertKeepsChains(t, e);
    InsertHolds(t, view, e);
  }

  lemma InsertKeepsChains(t: Table, e: Entry)
    requires Unique(t) && Chained(t) && e.addr != 0
    requires forall i | 0 <= i < CAPACITY :: t[i].addr != e.addr
    requires Slot(t, e.addr) < CAPACITY
    ensures Unique(t[Slot(t, e.addr) := e]) && Chained(t[Slot(t, e.addr) := e])
  {
    var s := Slot(t, e.addr);
    var t': Table := t[s := e];
    forall a: Address, j, k | a != 0 && 0 <= j < k < CAPACITY && t'[Probe(a, k)].addr == a
      ensures t'[Probe(a, j)].addr != 0
    {
      if a == e.addr {
        var r := Probes(t, a, 0);
        assert Probe(a, k) == s;
        if r < k {
          ProbesAreDistinct(a, r, k);
        }
      }
    }
  }

  lemma InsertHolds(t: Table, view: View, e: Entry)
    requires Holds(t, view) && e.addr != 0 && e.addr !in view
    requires Slot(t, e.addr) < CAPACITY && t[Slot(t, e.addr)].addr == 0
    ensures Holds(t[Slot(t, e.addr) := e], view[e.addr := e])
  {
    var s := Slot(t, e.addr);
    var t': Table, view' := t[s := e], view[e.addr := e];
    forall a | a in view' ensures a != 0 && exists i :: 0 <= i < CAPACITY && t'[i].addr == a {
      if a == e.addr {
        assert t'[s].addr == a;
      } else {
        var i :| 0 <= i < CAPACITY && t[i].addr == a;
        assert t'[i].addr == a;
      }
    }
  }

  lemma ZeroHolds(t: Table, view: View, e: Entry, s: nat)
    requires Holds(t, view) && s < CAPACITY && t[s].addr == 0 && e.addr == 0
    ensures Holds(t[s := e], view)
  {
    var t': Table := t[s := e];
    forall a | a in view ensures a != 0 && exists i :: 0 <= i < CAPACITY && t'[i].addr == a {
      var i :| 0 <= i < CAPACITY && t[i].addr == a;
      assert t'[i].addr == a;
    }
  }

  /** A push to address 0 writes into a vacant slot and leaves it vacant. */
  lemma ZeroKeeps(t: Table, view: View, e: Entry)
    requires Represents(t, view) && e.addr == 0 && Slot(t, 0) < CAPACITY
    ensures Represents(t[Slot(t, 0) := e], view)
  {
    ZeroSlotIsVacant(t);
    hide Unique, Chained, Holds, Slot, Occupied;
    var s := Slot(t, 0);
    SameAddressesKeep(t, t[s := e]);
    ZeroHolds(t, view, e, s);
  }

  lemma ZeroSlotIsVacant(t: Table)
    requires Slot(t, 0) < CAPACITY
    ensures t[Slot(t, 0)].addr == 0
  {}

  /** What a caller reads off the slot the search returns, for an address other than 0. */
  lemma LookupNonzero(t: Table, view: View, a: Address)
    requires Represents(t, view) && a != 0
    ensures Slot(t, a) < CAPACITY && t[Slot(t, a)].addr == a <==> a in view
    ensures a in view ==> t[Slot(t, a)] == view[a]
  {
    if a in view {
      FindsStored(t, view, a);
    } else {
      MissesAbsent(t, view, a);
    }
  }

  /** The search for address 0 ends in the first vacant slot. */
  lemma LookupZero(t: Table, view: View)
    requires Represents(t, view)
    ensures Slot(t, 0) < CAPACITY <==> |view| < CAPACITY
    ensures Slot(t, 0) < CAPACITY ==>
              t[Slot(t, 0)].addr == 0 && forall j | 0 <= j < Slot(t, 0) :: t[j].addr != 0
  {
    MissesAbsent(t, view, 0);
    if Slot(t, 0) < CAPACITY {
      ZeroSearchScansFromTheStart(t);
    }
  }

  lemma ZeroSearchScansFromTheStart(t: Table)
    requires Slot(t, 0) < CAPACITY
    ensures forall j | 0 <= j < Slot(t, 0) :: t[j].addr != 0
  {
    var r := Probes(t, 0, 0);
    assert Probe(0, r) == r;
    forall j | 0 <= j < r ensures t[j].addr != 0 {
      assert Probe(0, j) == j;
    }
  }

  // ---- The table that a history leads to ----

  /** The table after `insert_locked`. */
  function Written(t: Table, e: Entry): Table {
    if Slot(t, e.addr) == CAPACITY then t else t[Slot(t, e.addr) := e]
  }

  function TableAfter(log: Log): Table {
    if log == [] then seq(CAPACITY, _ => EMPTY)
    else Written(TableAfter(log[..|log| - 1]), SharedEntry(log, |log|))
  }

  lemma EmptyTable()
    ensures Represents(TableAfter([]), map[])
  {
    assert Occupied(TableAfter([])) == {};
  }

  lemma WriteKeeps(t: Table, view: View, e: Entry)
    requires Represents(t, view)
    ensures Represents(Written(t, e),
                       if e.addr == 0 || (e.addr !in view && |view| == CAPACITY) then view else view[e.addr := e])
  {
    hide Represents;
    if e.addr in view {
      OverwriteKeeps(t, view, e);
      ZeroIsNotStored(t, view);
    } else {
      MissesAbsent(t, view, e.addr);
      ViewIsBounded(t, view);
      if |view| < CAPACITY {
        if e.addr == 0 {
          ZeroKeeps(t, view, e);
        } else {
          InsertKeeps(t, view, e);
        }
      }
    }
  }

  lemma ZeroIsNotStored(t: Table, view: View)
    requires Represents(t, view)
    ensures 0 !in view
  {}

  lemma ViewIsBounded(t: Table, view: View)
    requires Represents(t, view)
    ensures |view| <= CAPACITY
  {
    VacancyCount(t);
  }

  /** Over every history, the table represents the bounded map. */
  lemma {:induction false} TableRepresents(log: Log)
    ensures Represents(TableAfter(log), SharedView(log))
  {
    hide Represents, Written;
    if log == [] {
      EmptyTable();
    } else {
      var short := log[..|log| - 1];
      TableRepresents(short);
      WriteKeeps(TableAfter(short), SharedView(short), SharedEntry(log, |log|));
    }
  }

  /** What the cache answers from: the bounded map and, for address 0, whatever lies in the
      first vacant slot. */
  function ServedView(log: Log): View {
    var t := TableAfter(log);
    if Slot(t, 0) == CAPACITY then SharedView(log) else SharedView(log)[0 := t[Slot(t, 0)]]
  }

  /** The two maps differ at address 0 only, and there exactly while a slot is vacant. */
  lemma ServedIsShared(log: Log)
    ensures forall a: Address | a != 0 ::
              (a in ServedView(log) <==> a in SharedView(log))
              && (a in SharedView(log) ==> ServedView(log)[a] == SharedView(log)[a])
    ensures 0 in ServedView(log) <==> |SharedView(log)| < CAPACITY
  {
    TableRepresents(log);
    hide Represents, TableAfter, Slot;
    LookupZero(TableAfter(log), SharedView(log));
  }

  /** The slot the search returns holds an address exactly when the served map does. */
  lemma SearchServes(log: Log, a: Address)
    ensures var t := TableAfter(log);
            && (Slot(t, a) < CAPACITY && t[Slot(t, a)].addr == a <==> a in ServedView(log))
            && (a in ServedView(log) ==> t[Slot(t, a)] == ServedView(log)[a])
  {
    TableRepresents(log);
    hide Represents, TableAfter, Slot;
    if a == 0 {
      LookupZero(TableAfter(log), SharedView(log));
    } else {
      LookupNonzero(TableAfter(log), SharedView(log), a);
    }
  }

  /** Without pushes to address 0 the vacant slots are as they were in the beginning. */
  lemma {:induction false} VacantIsEmpty(log: Log, i: nat)
    requires i < CAPACITY && forall k | 0 <= k < |log| :: log[k].addr != 0
    ensures TableAfter(log)[i].addr == 0 ==> TableAfter(log)[i] == EMPTY
  {
    if log != [] {
      hide Slot;
      VacantIsEmpty(log[..|log| - 1], i);
    }
  }

  /** Without pushes to address 0, a search for it answers with an empty value. */
  lemma ZeroServesEmpty(log: Log)
    requires forall k | 0 <= k < |log| :: log[k].addr != 0
    ensures 0 in ServedView(log) ==> ServedView(log)[0] == EMPTY
  {
    SearchServes(log, 0);
    hide TableAfter, Slot;
    if 0 in ServedView(log) {
      VacantIsEmpty(log, Slot(TableAfter(log), 0));
    }
  }
}
