/** The history of the cache: every `push` in order, and the state a history leads to.

    Two caches are driven by the same history. The in-process one keeps every address and
    every byte. The shared-memory one keeps at most CAPACITY addresses and MAX_VALUE bytes
    per value, and cannot keep address 0, which marks an empty slot. */
module TelegramLog {
  import opened Basics
  import opened Positions

  const CAPACITY := 2048
  const MAX_VALUE := 14

  /** One call of `push`, with the clock reading it took. */
  datatype Push = Push(addr: Address, value: seq<Byte>, time: int)

  type Log = seq<Push>

  /** One stored value; `pushedAt` is the wrapped position of the push that wrote it. */
  datatype Entry = Entry(addr: Address, value: seq<Byte>, timestamp: Word32, pushedAt: Word32)

  type View = map<Address, Entry>

  function Cut(value: seq<Byte>): (v: seq<Byte>)
    ensures |v| <= MAX_VALUE && v <= value
  {
    if |value| <= MAX_VALUE then value else value[..MAX_VALUE]
  }

  /** The entry the shared cache builds for push number `r` of a history. */
  function SharedEntry(log: Log, r: nat): Entry
    requires 0 < r <= |log|
  {
    var p := log[r - 1];
    Entry(p.addr, Cut(p.value), Wrap(p.time), Position(Wrap(r)))
  }

  /** The entry the in-process cache builds for push number `r`. */
  function GroupEntry(log: Log, r: nat): Entry
    requires 0 < r <= |log|
  {
    SharedEntry(log, r).(value := log[r - 1].value)
  }

  /** The bounded map the shared table has to behave like. */
  function SharedView(log: Log): (view: View)
    ensures |view| <= CAPACITY
    ensures 0 !in view
  {
    if log == [] then map[] else
    var before := SharedView(log[..|log| - 1]);
    var a := log[|log| - 1].addr;
    if a == 0 || (a !in before && |before| == CAPACITY) then
      before
    else
      before[a := SharedEntry(log, |log|)]
  }

  /** The map the in-process cache is. */
  function GroupView(log: Log): View {
    if log == [] then map[] else
    GroupView(log[..|log| - 1])[log[|log| - 1].addr := GroupEntry(log, |log|)]
  }

  /** A push to an address the table has, or has room for, becomes its entry. */
  lemma ViewAfterPush(log: Log, p: Push)
    requires p.addr != 0 && (p.addr in SharedView(log) || |SharedView(log)| < CAPACITY)
    ensures SharedView(log + [p]) ==
            SharedView(log)[p.addr := Entry(p.addr, Cut(p.value), Wrap(p.time), Position(Wrap(|log| + 1)))]
  {
    hide Position, Wrap;
    assert (log + [p])[..|log|] == log;
  }

  // ---- What these maps are, without recursion over the run of the cache ----

  /** The number of the last push to `a`; 0 when there is none. */
  function LastPush(log: Log, a: Address): (r: nat)
    ensures r <= |log|
    ensures r > 0 ==> log[r - 1].addr == a
    ensures forall i | r <= i < |log| :: log[i].addr != a
  {
    if log == [] then 0
    else if log[|log| - 1].addr == a then |log|
    else LastPush(log[..|log| - 1], a)
  }

  /** The addresses other than 0 in the order of their first push. */
  function Arrivals(log: Log): (order: seq<Address>)
    ensures forall i, j | 0 <= i < j < |order| :: order[i] != order[j]
    ensures forall a :: a in order <==> a != 0 && LastPush(log, a) > 0
  {
    if log == [] then [] else
    var before := Arrivals(log[..|log| - 1]);
    var a := log[|log| - 1].addr;
    if a == 0 || a in before then before else before + [a]
  }

  /** The first CAPACITY distinct addresses ever pushed. */
  function Admitted(log: Log): (order: seq<Address>) {
    var order := Arrivals(log);
    if |order| <= CAPACITY then order else order[..CAPACITY]
  }

  lemma AdmittedStep(log: Log)
    requires log != []
    ensures var before, a := Admitted(log[..|log| - 1]), log[|log| - 1].addr;
            Admitted(log) ==
            if a == 0 || a in before || |before| == CAPACITY then before else before + [a]
  {
    var before, a := Arrivals(log[..|log| - 1]), log[|log| - 1].addr;
    assert Arrivals(log) == if a == 0 || a in before then before else before + [a];
  }

  lemma {:induction false} SharedViewKeys(log: Log)
    ensures |SharedView(log)| == |Admitted(log)|
    ensures forall a :: a in SharedView(log) <==> a in Admitted(log)
  {
    if log != [] {
      SharedViewKeys(log[..|log| - 1]);
      AdmittedStep(log);
    }
  }

  lemma {:induction false} SharedViewValue(log: Log, a: Address)
    requires a in SharedView(log)
    ensures LastPush(log, a) > 0
    ensures SharedView(log)[a] == SharedEntry(log, LastPush(log, a))
  {
    var short := log[..|log| - 1];
    if log[|log| - 1].addr != a {
      SharedViewValue(short, a);
    }
  }

  /** The shared cache holds exactly the first CAPACITY distinct addresses, each with its
      last pushed value cut to MAX_VALUE bytes. */
  lemma SharedViewIsLastValueOfAdmitted(log: Log)
    ensures |SharedView(log)| == |Admitted(log)|
    ensures forall a :: a in SharedView(log) <==> a in Admitted(log)
    ensures forall a | a in SharedView(log) ::
              LastPush(log, a) > 0 && SharedView(log)[a] == SharedEntry(log, LastPush(log, a))
  {
    SharedViewKeys(log);
    forall a | a in SharedView(log)
      ensures LastPush(log, a) > 0 && SharedView(log)[a] == SharedEntry(log, LastPush(log, a))
    {
      SharedViewValue(log, a);
    }
  }

  /** The in-process cache holds every address ever pushed with its last value. */
  lemma {:induction false} GroupViewIsLastValue(log: Log)
    ensures forall a: Address :: a in GroupView(log) <==> LastPush(log, a) > 0
    ensures forall a | a in GroupView(log) :: GroupView(log)[a] == GroupEntry(log, LastPush(log, a))
  {
    if log != [] {
      var short := log[..|log| - 1];
      GroupViewIsLastValue(short);
      var p := log[|log| - 1].addr;
      forall a | a in GroupView(log)
        ensures LastPush(log, a) > 0 && GroupView(log)[a] == GroupEntry(log, LastPush(log, a))
      {
        if a != p {
          assert GroupEntry(log, LastPush(short, a)) == GroupEntry(short, LastPush(short, a));
        }
      }
    }
  }
}
