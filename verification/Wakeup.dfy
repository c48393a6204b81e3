/** The condition-variable protocol between `push` and `wait_for_new_data`, as a state
    machine over the atomic steps of any number of pushers and waiters. Processes may die
    at any step; the robust mutex then becomes free again. */
module Wakeup {
  import opened Basics

  /** A waiter. `gen` is the saved generation; `entered` counts the pushes at that moment. */
  datatype Waiter =
    | Outside
    | Testing(gen: Word32, entered: nat, timedOut: bool)   // holds the mutex
    | Sleeping(gen: Word32, entered: nat)                  // inside the timed wait
    | Waking(gen: Word32, entered: nat, timedOut: bool)    // wants the mutex back
    | Returned(result: bool, entered: nat, left: nat, timedOut: bool)

  /** A pusher. After `Unlocked` only the broadcast is missing. */
  datatype Pusher = Idle | Locked | Bumped | Unlocked

  datatype Mutex = Free | HeldByWaiter(w: nat) | HeldByPusher(p: nat)

  /** `pushes` counts generation bumps without wrap-around. `orphaned` is set while a pusher
      has died between its bump and its broadcast and nobody has broadcast since. */
  datatype State = State(generation: Word32, pushes: nat, mutex: Mutex,
                         waiters: seq<Waiter>, pushers: seq<Pusher>, orphaned: bool)

  datatype Step =
    | PushLock(p: nat) | PushBump(p: nat) | PushUnlock(p: nat) | Broadcast(p: nat) | PusherDies(p: nat)
    | Enter(w: nat) | Test(w: nat) | SpuriousWake(w: nat) | TimeOut(w: nat) | Reacquire(w: nat)
    | Leave(w: nat) | WaiterDies(w: nat)

  predicate Enabled(s: State, step: Step) {
    match step
    case PushLock(p) => p < |s.pushers| && s.pushers[p].Idle? && s.mutex.Free?
    case PushBump(p) => p < |s.pushers| && s.pushers[p].Locked?
    case PushUnlock(p) => p < |s.pushers| && s.pushers[p].Bumped?
    case Broadcast(p) => p < |s.pushers| && s.pushers[p].Unlocked?
    case PusherDies(p) => p < |s.pushers| && !s.pushers[p].Idle?
    case Enter(w) => w < |s.waiters| && s.waiters[w].Outside? && s.mutex.Free?
    case Test(w) => w < |s.waiters| && s.waiters[w].Testing?
    case SpuriousWake(w) => w < |s.waiters| && s.waiters[w].Sleeping?
    case TimeOut(w) => w < |s.waiters| && s.waiters[w].Sleeping?
    case Reacquire(w) => w < |s.waiters| && s.waiters[w].Waking? && s.mutex.Free?
    case Leave(w) => w < |s.waiters| && s.waiters[w].Returned?
    case WaiterDies(w) => w < |s.waiters| && !s.waiters[w].Outside?
  }

  /** A broadcast moves every sleeper to the mutex queue. */
  function WakeAll(waiters: seq<Waiter>): (r: seq<Waiter>)
    ensures |r| == |waiters|
    ensures forall w | 0 <= w < |r| :: !r[w].Sleeping?
    ensures forall w | 0 <= w < |r| ::
              r[w] == if waiters[w].Sleeping? then Waking(waiters[w].gen, waiters[w].entered, false) else waiters[w]
  {
    seq(|waiters|, w requires 0 <= w < |waiters| =>
      if waiters[w].Sleeping? then Waking(waiters[w].gen, waiters[w].entered, false) else waiters[w])
  }

  function After(s: State, step: Step): State
    requires Enabled(s, step)
  {
    match step
    case PushLock(p) => s.(pushers := s.pushers[p := Locked], mutex := HeldByPusher(p))
    case PushBump(p) =>
      s.(pushers := s.pushers[p := Bumped], generation := Wrap(s.generation + 1), pushes := s.pushes + 1)
    case PushUnlock(p) => s.(pushers := s.pushers[p := Unlocked], mutex := Free)
    case Broadcast(p) =>
      s.(pushers := s.pushers[p := Idle], waiters := WakeAll(s.waiters), orphaned := false)
    case PusherDies(p) =>
      s.(pushers := s.pushers[p := Idle],
         mutex := if s.mutex == HeldByPusher(p) then Free else s.mutex,
         orphaned := s.orphaned || s.pushers[p].Bumped? || s.pushers[p].Unlocked?)
    case Enter(w) =>
      s.(waiters := s.waiters[w := Testing(s.generation, s.pushes, false)], mutex := HeldByWaiter(w))
    case Test(w) =>
      var t := s.waiters[w];
      if s.generation == t.gen && !t.timedOut then
        s.(waiters := s.waiters[w := Sleeping(t.gen, t.entered)], mutex := Free)
      else
        s.(waiters := s.waiters[w := Returned(s.generation != t.gen, t.entered, s.pushes, t.timedOut)],
           mutex := Free)
    case SpuriousWake(w) =>
      s.(waiters := s.waiters[w := Waking(s.waiters[w].gen, s.waiters[w].entered, false)])
    case TimeOut(w) =>
      s.(waiters := s.waiters[w := Waking(s.waiters[w].gen, s.waiters[w].entered, true)])
    case Reacquire(w) =>
      var t := s.waiters[w];
      s.(waiters := s.waiters[w := Testing(t.gen, t.entered, t.timedOut)], mutex := HeldByWaiter(w))
    case Leave(w) => s.(waiters := s.waiters[w := Outside])
    case WaiterDies(w) =>
      s.(waiters := s.waiters[w := Outside],
         mutex := if s.mutex == HeldByWaiter(w) then Free else s.mutex)
  }

  function Init(waiters: nat, pushers: nat): State {
    State(0, 0, Free, seq(waiters, _ => Outside), seq(pushers, _ => Idle), false)
  }

  predicate IsRun(s: State, steps: seq<Step>)
    decreases |steps|
  {
    steps == [] || (Enabled(s, steps[0]) && IsRun(After(s, steps[0]), steps[1..]))
  }

  function Run(s: State, steps: seq<Step>): (r: State)
    requires IsRun(s, steps)
    ensures |r.waiters| == |s.waiters| && |r.pushers| == |s.pushers|
    decreases |steps|
  {
    if steps == [] then s else Run(After(s, steps[0]), steps[1..])
  }

  // ---- Invariants ----

  /** Saved generations are the wrapped push counts of the moment they were taken. */
  predicate Counted(pushes: nat, t: Waiter) {
    match t
    case Outside => true
    case Returned(result, entered, left, timedOut) =>
      entered <= left <= pushes && (result <==> Wrap(entered) != Wrap(left)) && (!result ==> timedOut)
    case _ => t.gen == Wrap(t.entered) && t.entered <= pushes
  }

  /** The mutex is held by at most one process, the one it names. */
  ghost predicate Exclusive(s: State) {
    && (forall w: nat | w < |s.waiters| :: s.waiters[w].Testing? <==> s.mutex == HeldByWaiter(w))
    && (forall p: nat | p < |s.pushers| ::
          s.pushers[p].Locked? || s.pushers[p].Bumped? <==> s.mutex == HeldByPusher(p))
  }

  predicate Pending(p: Pusher) {
    p.Bumped? || p.Unlocked?
  }

  /** A sleeper has missed a push. */
  ghost predicate Stale(s: State) {
    exists w :: 0 <= w < |s.waiters| && s.waiters[w].Sleeping? && s.waiters[w].gen != s.generation
  }

  /** A sleeper that missed a push is about to be woken. */
  ghost predicate NoLostWakeup(s: State) {
    Stale(s) ==> s.orphaned || exists p :: 0 <= p < |s.pushers| && Pending(s.pushers[p])
  }

  ghost predicate Inv(s: State) {
    && s.generation == Wrap(s.pushes)
    && (forall w | 0 <= w < |s.waiters| :: Counted(s.pushes, s.waiters[w]))
    && Exclusive(s)
    && NoLostWakeup(s)
  }

  lemma StepKeepsCounts(s: State, step: Step)
    requires s.generation == Wrap(s.pushes) && Enabled(s, step)
    requires forall w | 0 <= w < |s.waiters| :: Counted(s.pushes, s.waiters[w])
    ensures After(s, step).generation == Wrap(After(s, step).pushes)
    ensures forall w | 0 <= w < |After(s, step).waiters| :: Counted(After(s, step).pushes, After(s, step).waiters[w])
  {
    WrapSucc(s.pushes);
    hide Wrap;
  }

  lemma StepKeepsExclusion(s: State, step: Step)
    requires Exclusive(s) && Enabled(s, step)
    ensures Exclusive(After(s, step))
  {}

  lemma StepLosesNoWakeup(s: State, step: Step)
    requires NoLostWakeup(s) && Enabled(s, step)
    ensures NoLostWakeup(After(s, step))
  {
    hide Wrap;
    var s' := After(s, step);
    if w :| 0 <= w < |s'.waiters| && s'.waiters[w].Sleeping? && s'.waiters[w].gen != s'.generation {
      if step.PushBump? {
        assert Pending(s'.pushers[step.p]);
      } else if step.PushUnlock? {
        assert Pending(s'.pushers[step.p]);
      } else if !step.PusherDies? && !s.orphaned {
        assert s.waiters[w] == s'.waiters[w];
        var p :| 0 <= p < |s.pushers| && Pending(s.pushers[p]);
        assert Pending(s'.pushers[p]);
      } else if !s'.orphaned {
        assert s.waiters[w] == s'.waiters[w];
        var p :| 0 <= p < |s.pushers| && Pending(s.pushers[p]);
        assert p != step.p && Pending(s'.pushers[p]);
      }
    }
  }

  lemma {:induction false} RunKeepsInv(s: State, steps: seq<Step>)
    requires Inv(s) && IsRun(s, steps)
    ensures Inv(Run(s, steps))
    decreases |steps|
  {
    hide Exclusive, NoLostWakeup, Counted, Enabled, After;
    if steps != [] {
      StepKeepsCounts(s, steps[0]);
      StepKeepsExclusion(s, steps[0]);
      StepLosesNoWakeup(s, steps[0]);
      RunKeepsInv(After(s, steps[0]), steps[1..]);
    }
  }

  lemma InitKeepsInv(waiters: nat, pushers: nat)
    ensures Inv(Init(waiters, pushers))
  {}

  /** In every reachable state, a sleeping waiter whose saved generation is out of date has
      a broadcast still to come, unless a pusher died before its broadcast and nobody has
      broadcast since. */
  lemma NoWakeupIsLost(waiters: nat, pushers: nat, steps: seq<Step>, w: nat)
    requires IsRun(Init(waiters, pushers), steps) && w < |Run(Init(waiters, pushers), steps).waiters|
    ensures var s := Run(Init(waiters, pushers), steps);
            s.waiters[w].Sleeping? && s.waiters[w].gen != s.generation && !s.orphaned ==>
              exists p :: 0 <= p < |s.pushers| && Pending(s.pushers[p])
  {
    RunKeepsInv(Init(waiters, pushers), steps);
  }

  /** `wait_for_new_data` with a positive timeout returns true exactly when the generation
      was bumped between its entry and its return (by a count that is not a multiple of
      2^32), and false only after a timeout or an error of the wait. */
  lemma ResultMeansNewData(waiters: nat, pushers: nat, steps: seq<Step>, w: nat)
    requires IsRun(Init(waiters, pushers), steps) && w < |Run(Init(waiters, pushers), steps).waiters|
    requires Run(Init(waiters, pushers), steps).waiters[w].Returned?
    ensures var t := Run(Init(waiters, pushers), steps).waiters[w];
            && t.entered <= t.left
            && (t.result <==> (t.left - t.entered) % 0x1_0000_0000 != 0)
            && (t.left - t.entered < 0x1_0000_0000 ==> (t.result <==> t.entered < t.left))
            && (!t.result ==> t.timedOut)
  {
    RunKeepsInv(Init(waiters, pushers), steps);
    var t := Run(Init(waiters, pushers), steps).waiters[w];
    SameWrap(t.entered, t.left);
  }

  lemma SameWrap(a: nat, b: nat)
    requires a <= b
    ensures Wrap(a) == Wrap(b) <==> (b - a) % 0x1_0000_0000 == 0
  {
    var d, e := (b - a) / 0x1_0000_0000, (b - a) % 0x1_0000_0000;
    var q, x := a / 0x1_0000_0000, Wrap(a);
    assert b == (q + d) * 0x1_0000_0000 + x + e;
    if x + e >= 0x1_0000_0000 {
      assert b == (q + d + 1) * 0x1_0000_0000 + (x + e - 0x1_0000_0000);
    }
  }

  lemma Prepend(s: State, step: Step, rest: seq<Step>)
    requires Enabled(s, step) && IsRun(After(s, step), rest)
    ensures IsRun(s, [step] + rest) && Run(s, [step] + rest) == Run(After(s, step), rest)
  {
    assert ([step] + rest)[1..] == rest;
  }

  /** A due wakeup needs only steps of pushers: finishing one push wakes every sleeper. */
  lemma DueWakeupHappens(s: State, p: nat)
    requires p < |s.pushers| && Pending(s.pushers[p])
    ensures var steps := if s.pushers[p].Bumped? then [PushUnlock(p)] + [Broadcast(p)] else [Broadcast(p)];
            IsRun(s, steps) && forall w | 0 <= w < |Run(s, steps).waiters| :: !Run(s, steps).waiters[w].Sleeping?
  {
    var s1 := if s.pushers[p].Bumped? then After(s, PushUnlock(p)) else s;
    Prepend(s1, Broadcast(p), []);
    assert [Broadcast(p)] + [] == [Broadcast(p)];
    if s.pushers[p].Bumped? {
      Prepend(s, PushUnlock(p), [Broadcast(p)]);
    }
  }

  // ---- What becomes of a wait ----

  /** The steps by which a woken waiter gets the mutex back and looks at the generation. */
  function LookAgain(w: nat): seq<Step> {
    [Reacquire(w)] + ([Test(w)] + [])
  }

  /** A woken waiter that finds the mutex free returns exactly when the generation has moved
      or its time is up; otherwise it sleeps on as before. */
  lemma WokenWaiterReturnsExactlyWhen(s: State, w: nat)
    requires w < |s.waiters| && s.waiters[w].Waking? && s.mutex.Free?
    ensures IsRun(s, LookAgain(w))
    ensures var t, t' := s.waiters[w], Run(s, LookAgain(w)).waiters[w];
            t' == if t.gen != s.generation || t.timedOut
                  then Returned(t.gen != s.generation, t.entered, s.pushes, t.timedOut)
                  else Sleeping(t.gen, t.entered)
    ensures Run(s, LookAgain(w)).mutex.Free?
  {
    var s1 := After(s, Reacquire(w));
    var s2 := After(s1, Test(w));
    assert Run(s2, []) == s2;
    Prepend(s1, Test(w), []);
    Prepend(s, Reacquire(w), [Test(w)] + []);
  }

  /** In every reachable state, a sleeper whose time is up returns as soon as it gets the
      mutex, with true exactly when pushes (not a multiple of 2^32) have happened since its
      entry. */
  lemma TimedOutWaiterReturns(waiters: nat, pushers: nat, steps: seq<Step>, w: nat)
    requires IsRun(Init(waiters, pushers), steps) && w < |Run(Init(waiters, pushers), steps).waiters|
    requires var s := Run(Init(waiters, pushers), steps); s.waiters[w].Sleeping? && s.mutex.Free?
    ensures var s := Run(Init(waiters, pushers), steps);
            var more := [TimeOut(w)] + LookAgain(w);
            && IsRun(s, more)
            && var t := Run(s, more).waiters[w];
               && t.Returned? && t.entered == s.waiters[w].entered && t.left == s.pushes
               && (t.result <==> (t.left - t.entered) % 0x1_0000_0000 != 0)
  {
    hide IsRun, Run, LookAgain, Init, Wrap, Exclusive, NoLostWakeup;
    var s := Run(Init(waiters, pushers), steps);
    InitKeepsInv(waiters, pushers);
    RunKeepsInv(Init(waiters, pushers), steps);
    assert Counted(s.pushes, s.waiters[w]);
    SameWrap(s.waiters[w].entered, s.pushes);
    var s1 := After(s, TimeOut(w));
    WokenWaiterReturnsExactlyWhen(s1, w);
    Prepend(s, TimeOut(w), LookAgain(w));
  }

  /** A sleeper woken by a broadcast or for no reason sleeps again while the generation is
      what it was, and returns true when it has moved. */
  lemma WakeIsExplained(s: State, w: nat)
    requires w < |s.waiters| && s.waiters[w].Sleeping? && s.mutex.Free?
    ensures var steps := [SpuriousWake(w)] + LookAgain(w);
            && IsRun(s, steps)
            && Run(s, steps).waiters[w] ==
               if s.waiters[w].gen == s.generation then s.waiters[w]
               else Returned(true, s.waiters[w].entered, s.pushes, false)
  {
    hide IsRun, Run, LookAgain;
    WokenWaiterReturnsExactlyWhen(After(s, SpuriousWake(w)), w);
    Prepend(s, SpuriousWake(w), LookAgain(w));
  }

  /** Whenever the mutex is free, any idle pusher can push: the count and the generation go up
      by one, every sleeper is woken, and the mutex is free again. */
  lemma PushGoesThrough(s: State, p: nat)
    requires p < |s.pushers| && s.pushers[p].Idle? && s.mutex.Free?
    ensures var steps := [PushLock(p)] + ([PushBump(p)] + ([PushUnlock(p)] + ([Broadcast(p)] + [])));
            && IsRun(s, steps)
            && var s' := Run(s, steps);
               && s'.pushes == s.pushes + 1 && s'.generation == Wrap(s.generation + 1) && s'.mutex.Free?
               && s'.pushers == s.pushers && s'.waiters == WakeAll(s.waiters)
  {
    var s1 := After(s, PushLock(p));
    var s2 := After(s1, PushBump(p));
    var s3 := After(s2, PushUnlock(p));
    var s4 := After(s3, Broadcast(p));
    assert Run(s4, []) == s4;
    assert s4.pushers == s.pushers;
    Prepend(s3, Broadcast(p), []);
    hide IsRun, Run;
    Prepend(s2, PushUnlock(p), [Broadcast(p)] + []);
    Prepend(s1, PushBump(p), [PushUnlock(p)] + ([Broadcast(p)] + []));
    Prepend(s, PushLock(p), [PushBump(p)] + ([PushUnlock(p)] + ([Broadcast(p)] + [])));
  }

  /** Whenever the mutex is free, anyone outside can begin a wait, and then sleeps on the
      generation it found, with the mutex free again. */
  lemma WaitBegins(s: State, w: nat)
    requires w < |s.waiters| && s.waiters[w].Outside? && s.mutex.Free?
    ensures var steps := [Enter(w)] + ([Test(w)] + []);
            && IsRun(s, steps)
            && Run(s, steps) == s.(waiters := s.waiters[w := Sleeping(s.generation, s.pushes)])
  {
    var s1 := After(s, Enter(w));
    var s2 := After(s1, Test(w));
    assert Run(s2, []) == s2;
    assert s2.waiters == s.waiters[w := Sleeping(s.generation, s.pushes)];
    Prepend(s1, Test(w), []);
    Prepend(s, Enter(w), [Test(w)] + []);
  }

  /** Anyone may die at any time. The mutex is then free unless another one holds it, the
      push stands exactly when it was bumped, and a wakeup is owed exactly when the pusher
      had bumped and not yet broadcast. */
  lemma DeathIsSurvived(s: State, p: nat, w: nat)
    requires Exclusive(s)
    ensures p < |s.pushers| && !s.pushers[p].Idle? ==>
              && Enabled(s, PusherDies(p))
              && var s' := After(s, PusherDies(p));
                 && (s'.mutex.Free? <==> s.mutex.Free? || s.mutex == HeldByPusher(p))
                 && s'.pushes == s.pushes && s'.generation == s.generation && s'.waiters == s.waiters
                 && (s'.orphaned <==> s.orphaned || s.pushers[p] in {Bumped, Unlocked})
    ensures w < |s.waiters| && !s.waiters[w].Outside? ==>
              && Enabled(s, WaiterDies(w))
              && var s' := After(s, WaiterDies(w));
                 && (s'.mutex.Free? <==> s.mutex.Free? || s.mutex == HeldByWaiter(w))
                 && s'.pushes == s.pushes && s'.pushers == s.pushers
  {}

  // ---- When a wakeup is lost ----

  /** A sleeper missed a push, and nobody is about to wake it. */
  ghost predicate Stranded(s: State) {
    Stale(s) && forall p | 0 <= p < |s.pushers| :: !Pending(s.pushers[p])
  }

  /** The only pusher that would have broadcast dies while a sleeper waits for it. */
  ghost predicate Fatal(s: State, step: Step) {
    && step.PusherDies? && step.p < |s.pushers| && Pending(s.pushers[step.p]) && Stale(s)
    && forall p | 0 <= p < |s.pushers| && p != step.p :: !Pending(s.pushers[p])
  }

  lemma DeathCanStrand(s: State, step: Step)
    requires Enabled(s, step) && Fatal(s, step)
    ensures Stranded(After(s, step))
  {
    var w :| 0 <= w < |s.waiters| && s.waiters[w].Sleeping? && s.waiters[w].gen != s.generation;
    assert After(s, step).waiters[w] == s.waiters[w];
  }

  lemma OnlyDeathStrands(s: State, step: Step)
    requires Enabled(s, step) && !Stranded(s) && Stranded(After(s, step))
    ensures Fatal(s, step)
  {
    hide Wrap;
    var s' := After(s, step);
    assert step.PushBump? || step.PushUnlock? ==> Pending(s'.pushers[step.p]);
    var w :| 0 <= w < |s'.waiters| && s'.waiters[w].Sleeping? && s'.waiters[w].gen != s'.generation;
    assert s.waiters[w] == s'.waiters[w] && s.generation == s'.generation;
    assert Stale(s);
    var p :| 0 <= p < |s.pushers| && Pending(s.pushers[p]);
    assert !Pending(s'.pushers[p]);
    assert step == PusherDies(p);
    forall q | 0 <= q < |s.pushers| && q != p ensures !Pending(s.pushers[q]) {
      assert s'.pushers[q] == s.pushers[q];
    }
  }

  /** A step loses a wakeup exactly when it is such a death. */
  lemma StepStrandsExactlyWhen(s: State, step: Step)
    requires Enabled(s, step) && !Stranded(s)
    ensures Stranded(After(s, step)) <==> Fatal(s, step)
  {
    hide Stranded, Fatal, After, Enabled;
    if Fatal(s, step) {
      DeathCanStrand(s, step);
    }
    if Stranded(After(s, step)) {
      OnlyDeathStrands(s, step);
    }
  }

  ghost predicate NeverStranded(s: State, steps: seq<Step>)
    requires IsRun(s, steps)
    decreases |steps|
  {
    !Stranded(s) && (steps != [] ==> NeverStranded(After(s, steps[0]), steps[1..]))
  }

  ghost predicate NeverFatal(s: State, steps: seq<Step>)
    requires IsRun(s, steps)
    decreases |steps|
  {
    steps != [] ==> !Fatal(s, steps[0]) && NeverFatal(After(s, steps[0]), steps[1..])
  }

  lemma {:induction false} RunStrandsExactlyWhen(s: State, steps: seq<Step>)
    requires IsRun(s, steps) && !Stranded(s)
    ensures NeverStranded(s, steps) <==> NeverFatal(s, steps)
    decreases |steps|
  {
    hide Stranded, Fatal, Enabled, After;
    if steps != [] {
      StepStrandsExactlyWhen(s, steps[0]);
      if !Fatal(s, steps[0]) {
        RunStrandsExactlyWhen(After(s, steps[0]), steps[1..]);
      }
    }
  }

  /** No wakeup is lost in a run exactly when no pusher dies between its bump and its
      broadcast as the last one that would have woken a sleeper. */
  lemma NoWakeupIsLostExactlyWhen(waiters: nat, pushers: nat, steps: seq<Step>)
    requires IsRun(Init(waiters, pushers), steps)
    ensures NeverStranded(Init(waiters, pushers), steps) <==> NeverFatal(Init(waiters, pushers), steps)
  {
    hide IsRun, NeverStranded, NeverFatal;
    assert !Stranded(Init(waiters, pushers));
    RunStrandsExactlyWhen(Init(waiters, pushers), steps);
  }

  /** One waiter asleep, one pusher at this point of a push. */
  function Asleep(pushes: nat, mutex: Mutex, pusher: Pusher, orphaned: bool): State {
    State(Wrap(pushes), pushes, mutex, [Sleeping(0, 0)], [pusher], orphaned)
  }

  lemma WaiterSleeps(rest: seq<Step>)
    requires IsRun(Asleep(0, Free, Idle, false), rest)
    ensures IsRun(Init(1, 1), [Enter(0)] + ([Test(0)] + rest))
    ensures Run(Init(1, 1), [Enter(0)] + ([Test(0)] + rest)) == Run(Asleep(0, Free, Idle, false), rest)
  {
    var s := State(0, 0, HeldByWaiter(0), [Testing(0, 0, false)], [Idle], false);
    assert Init(1, 1) == State(0, 0, Free, [Outside], [Idle], false);
    assert After(Init(1, 1), Enter(0)) == s && After(s, Test(0)) == Asleep(0, Free, Idle, false);
    hide IsRun, Run;
    Prepend(s, Test(0), rest);
    Prepend(Init(1, 1), Enter(0), [Test(0)] + rest);
  }

  lemma PusherDiesEarly()
    ensures var steps := [PushLock(0)] + ([PushBump(0)] + ([PushUnlock(0)] + ([PusherDies(0)] + [])));
            && IsRun(Asleep(0, Free, Idle, false), steps)
            && Run(Asleep(0, Free, Idle, false), steps) == Asleep(1, Free, Idle, true)
  {
    var s0, s1 := Asleep(0, Free, Idle, false), Asleep(0, HeldByPusher(0), Locked, false);
    var s2, s3 := Asleep(1, HeldByPusher(0), Bumped, false), Asleep(1, Free, Unlocked, false);
    assert After(s0, PushLock(0)) == s1 && After(s1, PushBump(0)) == s2;
    assert After(s2, PushUnlock(0)) == s3 && After(s3, PusherDies(0)) == Asleep(1, Free, Idle, true);
    assert Run(After(s3, PusherDies(0)), []) == Asleep(1, Free, Idle, true);
    Prepend(s3, PusherDies(0), []);
    hide IsRun, Run;
    Prepend(s2, PushUnlock(0), [PusherDies(0)] + []);
    Prepend(s1, PushBump(0), [PushUnlock(0)] + ([PusherDies(0)] + []));
    Prepend(s0, PushLock(0), [PushBump(0)] + ([PushUnlock(0)] + ([PusherDies(0)] + [])));
  }

  /** The exception is real: a pusher that dies after the unlock leaves a waiter asleep with
      nobody about to wake it. */
  lemma DeadPusherStrandsWaiter()
    ensures exists steps :: IsRun(Init(1, 1), steps) && Run(Init(1, 1), steps) == Asleep(1, Free, Idle, true)
  {
    hide IsRun, Run, Init, Asleep, Enabled, After;
    var steps := [PushLock(0)] + ([PushBump(0)] + ([PushUnlock(0)] + ([PusherDies(0)] + [])));
    PusherDiesEarly();
    WaiterSleeps(steps);
    assert IsRun(Init(1, 1), [Enter(0)] + ([Test(0)] + steps));
  }
}
